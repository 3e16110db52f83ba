/** Splitting a history window into bounded slices, and queueing one job per slice. Times are in microseconds. */
module Backfill {
  import opened Wrappers
  import opened Quotients

  // The feeds without a backfill bound behave alike.
  datatype Dataset = PriceBars | CompanyNews | OtherFeed
  datatype Timeframe = Minute | Day

  datatype Slice = Slice(dataset: Dataset, timeframe: Option<Timeframe>, start: int, end: int)

  datatype PlanError = StartNotBeforeEnd | Unsupported | NotBounded | MaxJobsNotPositive | TooManyJobs | GapNotOrdered

  const DAY: int := 86_400_000_000
  const MINUTE: int := 60_000_000

  // The longest window and the longest slice of each supported combination.
  function Bounds(dataset: Dataset, timeframe: Option<Timeframe>): Option<(int, int)> {
    match (dataset, timeframe)
    case (PriceBars, Some(Day)) => Some((365 * DAY, 30 * DAY))
    case (PriceBars, Some(Minute)) => Some((90 * DAY, 5 * DAY))
    case (CompanyNews, None) => Some((365 * DAY, 30 * DAY))
    case _ => None
  }

  function PlanFailure(dataset: Dataset, timeframe: Option<Timeframe>, start: int, end: int): Option<PlanError> {
    if start >= end then Some(StartNotBeforeEnd)
    else if Bounds(dataset, timeframe).None? then Some(Unsupported)
    else if end - start > Bounds(dataset, timeframe).value.0 then Some(NotBounded)
    else None
  }

  // Non-empty slices that follow each other without gap or overlap, from start to end.
  predicate Partition(s: seq<Slice>, start: int, end: int) {
    && (forall i :: 0 <= i < |s| ==> s[i].start < s[i].end)
    && (forall i :: 0 <= i < |s| - 1 ==> s[i].end == s[i + 1].start)
    && (if s == [] then start == end else s[0].start == start && s[|s| - 1].end == end)
  }

  // Only the last slice may be shorter than a chunk.
  predicate Chunked(s: seq<Slice>, chunk: int) {
    && (forall i :: 0 <= i < |s| ==> s[i].end - s[i].start <= chunk)
    && (forall i :: 0 <= i < |s| - 1 ==> s[i].end - s[i].start == chunk)
  }

  predicate Describes(s: seq<Slice>, dataset: Dataset, timeframe: Option<Timeframe>) {
    forall i :: 0 <= i < |s| ==> s[i].dataset == dataset && s[i].timeframe == timeframe
  }

  ghost predicate IsPlan(s: seq<Slice>, dataset: Dataset, timeframe: Option<Timeframe>, start: int, end: int) {
    && Bounds(dataset, timeframe).Some?
    && Partition(s, start, end)
    && Chunked(s, Bounds(dataset, timeframe).value.1)
    && Describes(s, dataset, timeframe)
  }

  // One more slice, not longer than a chunk, goes on where the whole chunks before it ended.
  lemma OneMoreSlice(s: seq<Slice>, last: Slice, start: int, chunk: int)
    requires Partition(s, start, last.start) && last.start < last.end <= last.start + chunk
    requires forall i :: 0 <= i < |s| ==> s[i].end - s[i].start == chunk
    ensures Partition(s + [last], start, last.end) && Chunked(s + [last], chunk)
  {
  }

  // Accepts exactly the ordered, supported windows within their bound; the slices partition the window.
  method PlanAlpacaBackfill(dataset: Dataset, timeframe: Option<Timeframe>, start: int, end: int)
    returns (r: Result<seq<Slice>, PlanError>)
    ensures var failure := PlanFailure(dataset, timeframe, start, end);
            if failure.Some? then r == Err(failure.value)
            else r.Ok? && IsPlan(r.value, dataset, timeframe, start, end)
  {
    if start >= end {
      return Err(StartNotBeforeEnd);
    }
    var bounds := Bounds(dataset, timeframe);
    if bounds.None? {
      return Err(Unsupported);
    }
    var (maximum, chunk) := bounds.value;
    if end - start > maximum {
      return Err(NotBounded);
    }
    var slices: seq<Slice> := [];
    var cursor := start;
    while cursor < end
      invariant start <= cursor <= end
      invariant Partition(slices, start, cursor) && Chunked(slices, chunk) && Describes(slices, dataset, timeframe)
      invariant forall i :: 0 <= i < |slices| && cursor < end ==> slices[i].end - slices[i].start == chunk
      decreases end - cursor
    {
      var next := if cursor + chunk < end then cursor + chunk else end;
      OneMoreSlice(slices, Slice(dataset, timeframe, cursor, next), start, chunk);
      slices := slices + [Slice(dataset, timeframe, cursor, next)];
      cursor := next;
    }
    r := Ok(slices);
  }

  /* ---------- what a plan covers ---------- */

  // The slice boundaries are the multiples of the chunk.
  lemma {:induction false} SlicePositions(s: seq<Slice>, start: int, end: int, chunk: int, i: nat)
    requires Partition(s, start, end) && Chunked(s, chunk) && i < |s|
    ensures s[i].start == start + i * chunk
    ensures s[i].end == if i == |s| - 1 then end else start + (i + 1) * chunk
  {
    if i > 0 {
      SlicePositions(s, start, end, chunk, i - 1);
      Multiples(i, chunk);
    }
    Multiples(i + 1, chunk);
  }

  lemma Multiples(i: nat, chunk: int)
    ensures i > 0 ==> (i - 1) * chunk + chunk == i * chunk
  {
  }

  // There are as many slices as chunks in the window, rounded up, and any two plans of a window are equal.
  lemma {:induction false} PlanCount(s: seq<Slice>, start: int, end: int, chunk: int)
    requires Partition(s, start, end) && Chunked(s, chunk) && chunk > 0 && start < end
    ensures |s| == (end - start + chunk - 1) / chunk
  {
    var n := |s|;
    SlicePositions(s, start, end, chunk, n - 1);
    var last := end - (start + (n - 1) * chunk);
    assert 0 < last <= chunk;
    Multiples(n, chunk);
    assert end - start + chunk - 1 == n * chunk + (last - 1);
    QuotientIs(n, last - 1, chunk);
  }

  // Every instant of the window lies in exactly one slice, and no other instant in any.
  lemma {:induction false} InstantInOneSlice(s: seq<Slice>, start: int, end: int, t: int)
    requires Partition(s, start, end) && start <= end
    ensures start <= t < end <==> exists i :: 0 <= i < |s| && s[i].start <= t < s[i].end
    ensures forall i, j :: 0 <= i < j < |s| ==> !(s[i].start <= t < s[i].end && s[j].start <= t < s[j].end)
  {
    if s != [] {
      var front, last := s[..|s| - 1], s[|s| - 1];
      assert forall i :: 0 <= i < |s| - 1 ==> front[i] == s[i];
      assert forall i :: 0 <= i < |s| - 1 ==> s[i].end == s[i + 1].start;
      StartsInOrder(s, start, end);
      assert Partition(front, start, last.start);
      InstantInOneSlice(front, start, last.start, t);
      if start <= t < last.start {
        var i :| 0 <= i < |front| && front[i].start <= t < front[i].end;
        assert s[i].start <= t < s[i].end;
      } else if start <= t < end {
        assert s[|s| - 1].start <= t < s[|s| - 1].end;
      }
    }
  }

  lemma {:induction false} StartsInOrder(s: seq<Slice>, start: int, end: int)
    requires Partition(s, start, end)
    ensures forall i :: 0 <= i < |s| ==> start <= s[i].start && s[i].end <= end
    ensures forall i, j :: 0 <= i < j < |s| ==> s[i].end <= s[j].start
  {
    if s != [] {
      var front, last := s[..|s| - 1], s[|s| - 1];
      assert forall i :: 0 <= i < |s| - 1 ==> front[i] == s[i];
      assert Partition(front, start, last.start);
      StartsInOrder(front, start, last.start);
    }
  }

  // No accepted plan exceeds eighteen slices, so the scheduler's default bound of 24 never refuses one.
  lemma PlansFitTheDefaultBound(s: seq<Slice>, dataset: Dataset, timeframe: Option<Timeframe>, start: int, end: int)
    requires PlanFailure(dataset, timeframe, start, end) == None && IsPlan(s, dataset, timeframe, start, end)
    ensures 1 <= |s| <= 18
    ensures dataset == PriceBars && timeframe == Some(Minute) && end - start == 90 * DAY ==> |s| == 18
  {
    PlanCount(s, start, end, Bounds(dataset, timeframe).value.1);
  }

  lemma DefaultBoundNeverRefuses(dataset: Dataset, timeframe: Option<Timeframe>, start: int, end: int, maxJobs: int)
    ensures maxJobs >= 18 ==> ScheduleFailure(dataset, timeframe, start, end, false, maxJobs) ==
                              PlanFailure(dataset, timeframe, start, end)
    ensures maxJobs < 18 ==> exists s, e :: PlanFailure(PriceBars, Some(Minute), s, e) == None
                                            && ScheduleFailure(PriceBars, Some(Minute), s, e, false, maxJobs).Some?
  {
    assert PlanFailure(PriceBars, Some(Minute), 0, 90 * DAY) == None;
    assert maxJobs < 18 ==> ScheduleFailure(PriceBars, Some(Minute), 0, 90 * DAY, false, maxJobs).Some?;
  }

  lemma {:induction false} PlansAreUnique(a: seq<Slice>, b: seq<Slice>, dataset: Dataset, timeframe: Option<Timeframe>,
                                          start: int, end: int)
    requires IsPlan(a, dataset, timeframe, start, end) && IsPlan(b, dataset, timeframe, start, end) && start < end
    ensures a == b
  {
    var chunk := Bounds(dataset, timeframe).value.1;
    PlanCount(a, start, end, chunk);
    PlanCount(b, start, end, chunk);
    forall i | 0 <= i < |a|
      ensures a[i] == b[i]
    {
      SlicePositions(a, start, end, chunk, i);
      SlicePositions(b, start, end, chunk, i);
    }
  }

  // The chunk of each supported combination, in days.
  function ChunkDays(dataset: Dataset, timeframe: Option<Timeframe>): int {
    if dataset == PriceBars && timeframe == Some(Minute) then 5 else 30
  }

  // Windows are accepted exactly up to a year of daily bars or of news and ninety days of minute bars; nothing else
  // is supported, and the first failing check is named.
  lemma WindowsAreAcceptedExactly(dataset: Dataset, timeframe: Option<Timeframe>, start: int, end: int)
    ensures var failure := PlanFailure(dataset, timeframe, start, end);
            var days := (end - start) as real / 86_400_000_000.0;
            && (failure == None <==>
                  start < end
                  && (|| (dataset == PriceBars && timeframe == Some(Day) && days <= 365.0)
                      || (dataset == PriceBars && timeframe == Some(Minute) && days <= 90.0)
                      || (dataset == CompanyNews && timeframe == None && days <= 365.0)))
            && (failure == Some(StartNotBeforeEnd) <==> start >= end)
            && (failure == Some(Unsupported) <==>
                  start < end && !(dataset == PriceBars && timeframe.Some?) && !(dataset == CompanyNews && timeframe == None))
            && (failure.Some? ==> failure.value in {StartNotBeforeEnd, Unsupported, NotBounded})
  {
  }

  // Slice i of a plan starts i chunks after the window does and is a whole chunk unless it is the last.
  lemma SlicesAreChunks(s: seq<Slice>, dataset: Dataset, timeframe: Option<Timeframe>, start: int, end: int, i: nat)
    requires IsPlan(s, dataset, timeframe, start, end) && i < |s|
    ensures s[i].start == start + i * (ChunkDays(dataset, timeframe) * 86_400_000_000)
    ensures s[i].end == if i == |s| - 1 then end else start + (i + 1) * (ChunkDays(dataset, timeframe) * 86_400_000_000)
  {
    SlicePositions(s, start, end, Bounds(dataset, timeframe).value.1, i);
  }

  /* ---------- reconnect gaps ---------- */

  datatype GapFill = GapFill(start: int, end: int, truncated: bool)

  // max(last_event, reconnected - maximum) .. reconnected
  function PlanReconnectGapFill(lastEvent: int, reconnected: int, maximum: int): Result<GapFill, PlanError> {
    if maximum <= 0 || lastEvent >= reconnected then Err(GapNotOrdered)
    else
      var earliest := reconnected - maximum;
      Ok(GapFill(if lastEvent >= earliest then lastEvent else earliest, reconnected, reconnected - lastEvent > maximum))
  }

  // The fill ends at the reconnect and is never longer than the maximum; it reaches back to the last event
  // exactly when it is not truncated, and a truncated one is as long as allowed.
  lemma GapFillIsTight(lastEvent: int, reconnected: int, maximum: int)
    requires PlanReconnectGapFill(lastEvent, reconnected, maximum).Ok?
    ensures var g := PlanReconnectGapFill(lastEvent, reconnected, maximum).value;
            && lastEvent <= g.start < g.end == reconnected
            && 0 < g.end - g.start <= maximum
            && (g.truncated <==> g.start != lastEvent)
            && (g.truncated ==> g.end - g.start == maximum)
  {
  }

  // A gap is planned exactly when the reconnect is after the last event and the maximum is positive.
  lemma GapIsPlannedExactly(lastEvent: int, reconnected: int, maximum: int)
    ensures PlanReconnectGapFill(lastEvent, reconnected, maximum).Ok? <==> maximum > 0 && lastEvent < reconnected
    ensures PlanReconnectGapFill(lastEvent, reconnected, maximum).Ok? ==>
              (PlanReconnectGapFill(lastEvent, reconnected, maximum).value.truncated <==> reconnected - lastEvent > maximum)
  {
  }

  // A gap of at most thirty minutes is always one one-minute-bar slice.
  lemma GapFillIsOneSlice(lastEvent: int, reconnected: int, s: seq<Slice>)
    requires PlanReconnectGapFill(lastEvent, reconnected, 30 * MINUTE).Ok?
    requires var g := PlanReconnectGapFill(lastEvent, reconnected, 30 * MINUTE).value;
             IsPlan(s, PriceBars, Some(Minute), g.start, g.end)
    ensures var g := PlanReconnectGapFill(lastEvent, reconnected, 30 * MINUTE).value;
            && PlanFailure(PriceBars, Some(Minute), g.start, g.end) == None
            && s == [Slice(PriceBars, Some(Minute), g.start, g.end)]
  {
    var g := PlanReconnectGapFill(lastEvent, reconnected, 30 * MINUTE).value;
    PlanCount(s, g.start, g.end, 5 * DAY);
  }

  /* ---------- queueing ---------- */

  // Everything else that enters the request hash, shared by the slices of one call.
  datatype Request = Request(context: string, slice: Slice)

  // Requests with an unfinished job, and the next job id.
  datatype Queue = Queue(active: map<Request, nat>, nextId: nat)

  predicate QueueValid(q: Queue) {
    && (forall r :: r in q.active ==> q.active[r] < q.nextId)
    && (forall a, b :: a in q.active && b in q.active && q.active[a] == q.active[b] ==> a == b)
  }

  function EnqueuedOne(q: Queue, r: Request): Queue {
    if r in q.active then q else Queue(q.active[r := q.nextId], q.nextId + 1)
  }

  function EnqueuedAll(q: Queue, context: string, slices: seq<Slice>): Queue {
    if slices == [] then q
    else EnqueuedOne(EnqueuedAll(q, context, slices[..|slices| - 1]), Request(context, slices[|slices| - 1]))
  }

  ghost predicate QueuedExactly(q: Queue, after: Queue, context: string, slices: seq<Slice>) {
    && QueueValid(after)
    && after.nextId >= q.nextId
    && (forall r :: r in after.active <==> r in q.active || (r.context == context && r.slice in slices))
    && (forall r :: r in q.active ==> after.active[r] == q.active[r])
    && (forall r :: r in after.active && r !in q.active ==> q.nextId <= after.active[r] < after.nextId)
  }

  lemma OneMoreQueued(q: Queue, before: Queue, context: string, slices: seq<Slice>, last: Slice)
    requires QueueValid(q) && QueuedExactly(q, before, context, slices)
    ensures QueuedExactly(q, EnqueuedOne(before, Request(context, last)), context, slices + [last])
  {
    assert forall slice :: slice in slices + [last] <==> slice in slices || slice == last;
  }

  // Queueing keeps every active job, adds only the asked requests, and gives each request one job.
  lemma {:induction false} EnqueuedAllIsExact(q: Queue, context: string, slices: seq<Slice>)
    requires QueueValid(q)
    ensures QueuedExactly(q, EnqueuedAll(q, context, slices), context, slices)
  {
    if slices != [] {
      var front, last := slices[..|slices| - 1], slices[|slices| - 1];
      EnqueuedAllIsExact(q, context, front);
      hide QueuedExactly, EnqueuedOne;
      OneMoreQueued(q, EnqueuedAll(q, context, front), context, front, last);
      assert slices == front + [last];
    }
  }

  // Scheduling the same window again while its jobs are unfinished changes nothing.
  lemma {:induction false} ReschedulingCreatesNothing(q: Queue, context: string, slices: seq<Slice>, n: nat)
    requires n <= |slices| && forall i :: 0 <= i < |slices| ==> Request(context, slices[i]) in q.active
    ensures EnqueuedAll(q, context, slices[..n]) == q
  {
    if n > 0 {
      ReschedulingCreatesNothing(q, context, slices, n - 1);
      assert slices[..n][..n - 1] == slices[..n - 1];
    }
  }

  // Why a schedule is refused: the bound on jobs is checked first, the length of the plan last.
  function ScheduleFailure(dataset: Dataset, timeframe: Option<Timeframe>, start: int, end: int, denied: bool,
                           maxJobs: int): Option<PlanError>
  {
    if maxJobs < 1 then Some(MaxJobsNotPositive)
    else if denied then None
    else if PlanFailure(dataset, timeframe, start, end).Some? then PlanFailure(dataset, timeframe, start, end)
    else
      var chunk := Bounds(dataset, timeframe).value.1;
      if (end - start + chunk - 1) / chunk > maxJobs then Some(TooManyJobs) else None
  }

  // A schedule is refused for a job bound below one, for its window, or for more slices than the bound, in this order;
  // a denied one is not looked at further.
  lemma SchedulesAreRefusedExactly(s: seq<Slice>, dataset: Dataset, timeframe: Option<Timeframe>, start: int, end: int,
                                   denied: bool, maxJobs: int)
    requires PlanFailure(dataset, timeframe, start, end) == None ==> IsPlan(s, dataset, timeframe, start, end)
    ensures var failure := ScheduleFailure(dataset, timeframe, start, end, denied, maxJobs);
            var window := PlanFailure(dataset, timeframe, start, end);
            && (failure == Some(MaxJobsNotPositive) <==> maxJobs < 1)
            && (maxJobs >= 1 && denied ==> failure == None)
            && (maxJobs >= 1 && !denied && window.Some? ==> failure == window)
            && (maxJobs >= 1 && !denied && window == None ==>
                  failure == if |s| > maxJobs then Some(TooManyJobs) else None)
  {
    if PlanFailure(dataset, timeframe, start, end) == None {
      PlanCount(s, start, end, Bounds(dataset, timeframe).value.1);
    }
  }

  class JobQueue {
    var active: map<Request, nat>
    var nextId: nat

    function Contents(): Queue
      reads this
    {
      Queue(active, nextId)
    }

    // Reuses the unfinished job of an equal request, or adds one.
    method EnqueueWithResult(r: Request) returns (id: nat, created: bool)
      requires QueueValid(Contents())
      modifies this
      ensures Contents() == EnqueuedOne(old(Contents()), r) && QueueValid(Contents())
      ensures r in active && active[r] == id
      ensures created <==> r !in old(active)
    {
      if r in active {
        return active[r], false;
      }
      id, created := nextId, true;
      active := active[r := id];
      nextId := nextId + 1;
    }

    // One job per slice in order, and the ids of the jobs that are new.
    method EnqueueEach(context: string, slices: seq<Slice>) returns (ids: seq<nat>, createdIds: seq<nat>)
      requires QueueValid(Contents())
      modifies this
      ensures QueueValid(Contents()) && Contents() == EnqueuedAll(old(Contents()), context, slices)
      ensures |ids| == |slices|
      ensures forall i :: 0 <= i < |slices| ==> Request(context, slices[i]) in active
                                                && ids[i] == active[Request(context, slices[i])]
      ensures forall id :: id in createdIds <==> old(nextId) <= id < nextId
    {
      hide QueueValid;
      ghost var before := Contents();
      ids, createdIds := [], [];
      var i := 0;
      assert slices[..0] == [];
      while i < |slices|
        invariant 0 <= i <= |slices| && |ids| == i
        invariant QueueValid(Contents()) && Contents() == EnqueuedAll(before, context, slices[..i])
        invariant forall k :: 0 <= k < i ==> Request(context, slices[k]) in active
                                             && ids[k] == active[Request(context, slices[k])]
        invariant before.nextId <= nextId
        invariant forall id :: id in createdIds <==> before.nextId <= id < nextId
      {
        assert slices[..i + 1][..i] == slices[..i];
        var id, created := EnqueueWithResult(Request(context, slices[i]));
        ids := ids + [id];
        if created {
          createdIds := createdIds + [id];
        }
        i := i + 1;
      }
      assert slices[..|slices|] == slices;
    }

    // A refused or denied schedule queues nothing; otherwise every slice of the plan has its job.
    method ScheduleAlpacaBackfills(context: string, dataset: Dataset, timeframe: Option<Timeframe>, start: int, end: int,
                                   denied: bool, maxJobs: int)
      returns (r: Result<(seq<nat>, seq<nat>), PlanError>)
      requires QueueValid(Contents())
      modifies this
      ensures QueueValid(Contents())
      ensures r.Err? || denied ==> Contents() == old(Contents())
      ensures var failure := ScheduleFailure(dataset, timeframe, start, end, denied, maxJobs);
              if failure.Some? then r == Err(failure.value) else r.Ok?
      ensures r.Ok? && denied ==> r == Ok(([], []))
      ensures r.Ok? && !denied ==>
                exists s :: IsPlan(s, dataset, timeframe, start, end) && |s| == |r.value.0|
                            && Contents() == EnqueuedAll(old(Contents()), context, s)
                            && (forall i :: 0 <= i < |s| ==> Request(context, s[i]) in active
                                                             && r.value.0[i] == active[Request(context, s[i])])
                            && (forall id :: id in r.value.1 <==> old(nextId) <= id < nextId)
    {
      if maxJobs < 1 {
        return Err(MaxJobsNotPositive);
      }
      if denied {
        return Ok(([], []));
      }
      var plan := PlanAlpacaBackfill(dataset, timeframe, start, end);
      if plan.Err? {
        return Err(plan.error);
      }
      var slices := plan.value;
      PlanCount(slices, start, end, Bounds(dataset, timeframe).value.1);
      hide IsPlan, EnqueuedAll;
      if |slices| > maxJobs {
        return Err(TooManyJobs);
      }
      var ids, createdIds := EnqueueEach(context, slices);
      r := Ok((ids, createdIds));
    }
  }
}
