/** The checks and the canonicalising pass over NAV history, and the records on which they throw. */
module PerformancePass {
  import opened Wrappers
  import opened Decimals
  import opened Instant
  import opened Performance

  datatype InputError = Unreadable | NotComputable(error: DecimalError)

  predicate EventReadable(p: NavRecord) {
    AwareInstantKey(p.eventTime).Ok?
  }

  predicate AvailableReadable(p: NavRecord) {
    AwareInstantKey(p.availableAt).Ok?
  }

  /* ---------- the checks, with their throws ---------- */

  // matchesLatest: each comparison is reached only when those before it hold.
  function MatchOutcome(p: NavRecord, latest: NavRecord): Result<bool, InputError> {
    if p.id != latest.id || p.portfolioId != latest.portfolioId then Ok(false)
    else
      var order := CompareDecimals(p.nav, latest.nav);
      if order.Err? then Err(Unreadable)
      else if order.value != 0 then Ok(false)
      else if !EventReadable(p) then Err(Unreadable)
      else if EventKey(p) != EventKey(latest) then Ok(false)
      else if !AvailableReadable(p) then Err(Unreadable)
      else Ok(AvailableKey(p) == AvailableKey(latest))
  }

  // every(matchesLatest) stops at the first record that does not match.
  function EveryMatches(records: seq<NavRecord>, latest: NavRecord): Result<bool, InputError> {
    if records == [] then Ok(true)
    else
      var first := MatchOutcome(records[0], latest);
      if first == Ok(true) then EveryMatches(records[1..], latest) else first
  }

  function SameId(history: seq<NavRecord>, latest: NavRecord): (r: seq<NavRecord>)
    ensures forall p :: p in r <==> p in history && p.id == latest.id
  {
    if history == [] then []
    else
      (if history[0].id == latest.id then [history[0]] else []) + SameId(history[1..], latest)
  }

  function EndsAtLatest(history: seq<NavRecord>, latest: NavRecord): Result<bool, InputError> {
    if history == [] then Ok(true)
    else if !EventReadable(history[0]) then Err(Unreadable)
    else if EventKey(history[0]) > EventKey(latest) then Ok(false)
    else EndsAtLatest(history[1..], latest)
  }

  // The filter reads every event time.
  function LatestBucket(history: seq<NavRecord>, latest: NavRecord): Result<seq<NavRecord>, InputError> {
    if exists p :: p in history && !EventReadable(p) then Err(Unreadable)
    else Ok(AtEvent(history, EventKey(latest)))
  }

  // The reduce reads availability from the second record on.
  function ReduceWinner(records: seq<NavRecord>): Result<Option<NavRecord>, InputError> {
    if records == [] then Ok(None)
    else
      var last := records[|records| - 1];
      var before := ReduceWinner(records[..|records| - 1]);
      if before.Err? then before
      else if before.value.None? then Ok(Some(last))
      else if !AvailableReadable(last) || !AvailableReadable(before.value.value) then Err(Unreadable)
      else Ok(if Supersedes(last, before.value.value) then Some(last) else before.value)
  }

  // Records that share an event time and cannot all be ranked.
  ghost predicate Unrankable(bucket: seq<NavRecord>) {
    |bucket| >= 2 && exists p :: p in bucket && !AvailableReadable(p)
  }

  ghost predicate Throws(history: seq<NavRecord>, latest: NavRecord) {
    || !EventReadable(latest) || !AvailableReadable(latest)
    || EveryMatches(SameId(history, latest), latest).Err?
    || (exists p :: p in history && !EventReadable(p))
    || Unrankable(AtEvent(history, EventKey(latest)))
    || (Eligible(history, latest)
        && exists time :: time in EarlierTimes(history, latest) && Unrankable(AtEvent(history, time)))
  }

  ghost function CheckedSeries(history: seq<NavRecord>, latest: NavRecord): Result<Authoritative, InputError> {
    if Throws(history, latest) then Err(Unreadable)
    else
      var series := AuthoritativeSeries(history, latest);
      if series.Ok? then Ok(series.value) else Err(NotComputable(series.error))
  }

  // The comparison with latestNav throws exactly where it reaches a text it cannot read: a value, if id and portfolio
  // agree; the event time, if the values do too; the availability, if the event times do too.
  lemma MatchThrowsExactly(p: NavRecord, latest: NavRecord)
    ensures MatchOutcome(p, latest).Err? <==>
              (&& p.id == latest.id && p.portfolioId == latest.portfolioId
               && (|| !IsDecimal(p.nav) || !IsDecimal(latest.nav)
                   || (RealOf(p.nav) == RealOf(latest.nav)
                       && (!EventReadable(p) || (EventKey(p) == EventKey(latest) && !AvailableReadable(p))))))
  {
    if IsDecimal(p.nav) && IsDecimal(latest.nav) { CompareIsExact(p.nav, latest.nav); }
    hide IsDecimal, RealOf, EventReadable, AvailableReadable, EventKey, AvailableKey;
  }

  // Over a list it throws exactly when a record throws and every earlier one matches.
  lemma {:induction false} EveryMatchesThrowsExactly(records: seq<NavRecord>, latest: NavRecord)
    ensures EveryMatches(records, latest).Err? <==>
              exists i :: 0 <= i < |records| && MatchOutcome(records[i], latest).Err?
                          && forall j :: 0 <= j < i ==> MatchOutcome(records[j], latest) == Ok(true)
  {
    hide MatchOutcome;
    if records != [] {
      var tail := records[1..];
      EveryMatchesThrowsExactly(tail, latest);
      if MatchOutcome(records[0], latest) == Ok(true) {
        if EveryMatches(tail, latest).Err? {
          var i :| 0 <= i < |tail| && MatchOutcome(tail[i], latest).Err?
                   && forall j :: 0 <= j < i ==> MatchOutcome(tail[j], latest) == Ok(true);
          assert records[i + 1] == tail[i];
          assert forall j :: 0 < j < i + 1 ==> records[j] == tail[j - 1];
        }
        if exists i :: 0 <= i < |records| && MatchOutcome(records[i], latest).Err?
                       && forall j :: 0 <= j < i ==> MatchOutcome(records[j], latest) == Ok(true) {
          var i :| 0 <= i < |records| && MatchOutcome(records[i], latest).Err?
                   && forall j :: 0 <= j < i ==> MatchOutcome(records[j], latest) == Ok(true);
          assert tail[i - 1] == records[i];
          assert forall j :: 0 <= j < i - 1 ==> tail[j] == records[j + 1];
        }
      } else if MatchOutcome(records[0], latest).Err? {
        assert MatchOutcome(records[0], latest).Err?;
      } else {
        assert MatchOutcome(records[0], latest) != Ok(true);
      }
    }
  }

  lemma MatchOutcomeIs(p: NavRecord, latest: NavRecord)
    requires MatchOutcome(p, latest).Ok?
    ensures MatchOutcome(p, latest).value == Matches(p, latest)
  {
    hide CompareDecimals, EventReadable, AvailableReadable, EventKey, AvailableKey;
  }

  lemma {:induction false} EveryMatchesIs(records: seq<NavRecord>, latest: NavRecord)
    requires EveryMatches(records, latest).Ok?
    ensures EveryMatches(records, latest).value <==> forall p :: p in records ==> Matches(p, latest)
  {
    hide MatchOutcome, Matches;
    if records != [] {
      MatchOutcomeIs(records[0], latest);
      assert forall p :: p in records <==> p == records[0] || p in records[1..];
      if MatchOutcome(records[0], latest) == Ok(true) {
        EveryMatchesIs(records[1..], latest);
      }
    }
  }

  lemma {:induction false} EndsAtLatestIs(history: seq<NavRecord>, latest: NavRecord)
    ensures EndsAtLatest(history, latest).Err? ==> exists p :: p in history && !EventReadable(p)
    ensures EndsAtLatest(history, latest).Ok? ==>
              (EndsAtLatest(history, latest).value <==> forall p :: p in history ==> EventKey(p) <= EventKey(latest))
  {
    hide EventReadable, EventKey;
    if history != [] {
      assert forall p :: p in history <==> p == history[0] || p in history[1..];
      EndsAtLatestIs(history[1..], latest);
    }
  }

  lemma {:induction false} ReduceWinnerIs(records: seq<NavRecord>)
    ensures ReduceWinner(records).Err? <==> Unrankable(records)
    ensures ReduceWinner(records).Ok? ==> ReduceWinner(records).value == Winner(records)
  {
    hide AvailableReadable, Supersedes;
    if records != [] {
      var front, last := records[..|records| - 1], records[|records| - 1];
      assert forall p :: p in records <==> p in front || p == last;
      ReduceWinnerIs(front);
      if |front| == 1 {
        assert front == [front[0]] && front[..0] == [];
      }
    }
  }

  // A history the API client would hand over never throws.
  lemma ReadableNeverThrows(history: seq<NavRecord>, latest: NavRecord)
    requires forall p :: p in history || p == latest ==> IsDecimal(p.nav) && EventReadable(p) && AvailableReadable(p)
    ensures !Throws(history, latest)
  {
    hide IsDecimal, CompareDecimals, EventReadable, AvailableReadable, Eligible, AtEvent, EventKey;
    ReadableMatches(SameId(history, latest), latest);
  }

  lemma {:induction false} ReadableMatches(records: seq<NavRecord>, latest: NavRecord)
    requires IsDecimal(latest.nav)
    requires forall p :: p in records ==> IsDecimal(p.nav) && EventReadable(p) && AvailableReadable(p)
    ensures EveryMatches(records, latest).Ok?
  {
    hide IsDecimal, EventReadable, AvailableReadable, EventKey, AvailableKey;
    if records != [] {
      assert records[0] in records && forall p :: p in records[1..] ==> p in records;
      CompareIsExact(records[0].nav, latest.nav);
      hide CompareDecimals;
      ReadableMatches(records[1..], latest);
    }
  }

  /* ---------- the pass over the history ---------- */

  ghost predicate IsCanonicalMap(m: map<int, NavRecord>, history: seq<NavRecord>, latest: NavRecord) {
    && m.Keys == EarlierTimes(history, latest)
    && forall time :: time in m ==> Winner(AtEvent(history, time)) == Some(m[time])
  }

  ghost predicate AllRankable(history: seq<NavRecord>, latest: NavRecord) {
    forall time :: time in EarlierTimes(history, latest) ==> !Unrankable(AtEvent(history, time))
  }

  // The pass throws exactly when two records of one earlier event time cannot be ranked.
  method CanonicalByEventTime(history: seq<NavRecord>, latest: NavRecord) returns (r: Result<map<int, NavRecord>, InputError>)
    requires forall p :: p in history ==> EventReadable(p)
    ensures r.Ok? <==> AllRankable(history, latest)
    ensures r.Ok? ==> IsCanonicalMap(r.value, history, latest)
    ensures r.Err? ==> r == Err(Unreadable)
  {
    hide EventKey, AvailableKey, Winner, Supersedes, AtEvent, EarlierTimes, IsCanonicalMap, AllRankable, AvailableReadable;
    var m: map<int, NavRecord> := map[];
    var index := 0;
    assert history[..0] == [];
    NoRecordsNoTimes(latest);
    while index < |history|
      invariant 0 <= index <= |history|
      invariant IsCanonicalMap(m, history[..index], latest) && AllRankable(history[..index], latest)
    {
      var point := history[index];
      CanonicalMapGrows(m, history[..index], point, latest);
      assert history[..index] + [point] == history[..index + 1];
      var eventTime := EventKey(point);
      if eventTime < EventKey(latest) {
        if eventTime !in m {
          m := m[eventTime := point];
        } else {
          if !AvailableReadable(point) || !AvailableReadable(m[eventTime]) {
            UnrankableStays(history, latest, index + 1);
            return Err(Unreadable);
          }
          if Supersedes(point, m[eventTime]) {
            m := m[eventTime := point];
          }
        }
      }
      index := index + 1;
    }
    assert history[..|history|] == history;
    r := Ok(m);
  }

  lemma NoRecordsNoTimes(latest: NavRecord)
    ensures IsCanonicalMap(map[], [], latest) && AllRankable([], latest)
  {
  }

  // One more record: it takes its event time's place when the place is empty or it supersedes the holder, and
  // the bucket stays rankable exactly when both can be read.
  lemma CanonicalMapGrows(m: map<int, NavRecord>, seen: seq<NavRecord>, point: NavRecord, latest: NavRecord)
    requires IsCanonicalMap(m, seen, latest) && AllRankable(seen, latest)
    ensures var time := EventKey(point);
            && IsCanonicalMap(if time >= EventKey(latest) || (time in m && !Supersedes(point, m[time])) then m
                              else m[time := point], seen + [point], latest)
            && (AllRankable(seen + [point], latest) <==>
                  (time < EventKey(latest) && time in m ==> AvailableReadable(point) && AvailableReadable(m[time])))
  {
    hide EventKey, AvailableKey, Winner, Supersedes, AtEvent, EarlierTimes, AvailableReadable;
    TimesGrow(seen, point, latest);
    RecordsGrow(seen, point);
    var time := EventKey(point);
    if time < EventKey(latest) {
      WinnerGrows(AtEvent(seen, time), point);
      if AtEvent(seen, time) != [] {
        RecordedTimeIsListed(seen, latest, time);
      }
      RankabilityGrows(AtEvent(seen, time), point);
    }
  }

  // A rankable bucket stays so exactly when the newcomer and the winner so far can be read.
  lemma RankabilityGrows(bucket: seq<NavRecord>, point: NavRecord)
    requires !Unrankable(bucket)
    ensures Unrankable(bucket + [point]) <==>
              (bucket != [] && !(AvailableReadable(point) && AvailableReadable(Winner(bucket).value)))
  {
    hide AvailableReadable, Supersedes;
    var more := bucket + [point];
    assert forall p :: p in more <==> p in bucket || p == point;
    if |bucket| == 1 {
      assert bucket == [bucket[0]] && bucket[..0] == [];
    }
  }

  lemma TimesGrow(seen: seq<NavRecord>, point: NavRecord, latest: NavRecord)
    ensures EarlierTimes(seen + [point], latest) ==
            EarlierTimes(seen, latest) + if EventKey(point) < EventKey(latest) then {EventKey(point)} else {}
    ensures forall time :: time in EarlierTimes(seen, latest) ==> time < EventKey(latest)
  {
    hide EventKey;
    assert forall p :: p in seen + [point] <==> p in seen || p == point;
  }

  lemma RecordsGrow(seen: seq<NavRecord>, point: NavRecord)
    ensures forall time :: AtEvent(seen + [point], time) ==
                           if EventKey(point) == time then AtEvent(seen, time) + [point] else AtEvent(seen, time)
  {
    hide EventKey;
    var more := seen + [point];
    assert more[..|more| - 1] == seen;
  }

  lemma WinnerGrows(records: seq<NavRecord>, point: NavRecord)
    ensures Winner(records + [point]) ==
            if Winner(records).None? || Supersedes(point, Winner(records).value) then Some(point) else Winner(records)
  {
    hide EventKey, Supersedes;
    var more := records + [point];
    assert more[..|more| - 1] == records;
  }

  lemma RecordedTimeIsListed(history: seq<NavRecord>, latest: NavRecord, time: int)
    requires time < EventKey(latest) && AtEvent(history, time) != []
    ensures time in EarlierTimes(history, latest)
  {
    hide EventKey;
    assert AtEvent(history, time)[0] in AtEvent(history, time);
  }

  lemma {:induction false} BucketsGrow(history: seq<NavRecord>, n: nat, time: int)
    requires n <= |history|
    ensures |AtEvent(history[..n], time)| <= |AtEvent(history, time)|
    ensures forall p :: p in AtEvent(history[..n], time) ==> p in AtEvent(history, time)
  {
    hide EventKey;
    if n == |history| {
      assert history[..n] == history;
    } else {
      var front := history[..|history| - 1];
      assert front[..n] == history[..n];
      BucketsGrow(front, n, time);
    }
  }

  lemma UnrankableStays(history: seq<NavRecord>, latest: NavRecord, n: nat)
    requires n <= |history| && !AllRankable(history[..n], latest)
    ensures !AllRankable(history, latest)
  {
    hide EventKey, AtEvent, AvailableReadable;
    var time :| time in EarlierTimes(history[..n], latest) && Unrankable(AtEvent(history[..n], time));
    BucketsGrow(history, n, time);
    assert time in EarlierTimes(history, latest);
  }

  // The checks in order, one pass that keeps the canonical record of each event time, a sort by event time,
  // latestNav last. It throws exactly on the records that are looked at and cannot be read.
  method ToAuthoritativePerformanceSeries(history: seq<NavRecord>, latest: NavRecord)
    returns (r: Result<Authoritative, InputError>)
    ensures r == CheckedSeries(history, latest)
  {
    hide EventKey, AvailableKey, Winner, Matches, Series, AtEvent, EarlierTimes, EventReadable, AvailableReadable,
         EveryMatches, EndsAtLatest, ReduceWinner, Unrankable, Eligible, Charted;
    if !EventReadable(latest) || !AvailableReadable(latest) {
      return Err(Unreadable);
    }
    var eligible := CheckEligible(history, latest);
    if eligible.Err? {
      return Err(Unreadable);
    }
    if !eligible.value {
      var single := ToPerformanceSeries([Shown(latest)]);
      return if single.Err? then Err(NotComputable(single.error)) else Ok(Authoritative(None, single.value));
    }
    var canonical := CanonicalByEventTime(history, latest);
    if canonical.Err? {
      return Err(Unreadable);
    }
    r := ChartCanonical(history, latest, canonical.value);
  }

  // Sorting the canonical records by event time, latestNav last.
  method ChartCanonical(history: seq<NavRecord>, latest: NavRecord, canonical: map<int, NavRecord>)
    returns (r: Result<Authoritative, InputError>)
    requires IsCanonicalMap(canonical, history, latest) && Eligible(history, latest)
    ensures var series := AuthoritativeSeries(history, latest);
            r == if series.Ok? then Ok(series.value) else Err(NotComputable(series.error))
  {
    hide EventKey, AvailableKey, Winner, Matches, Series, AtEvent, EarlierTimes, Eligible;
    var times := Ascending(canonical.Keys);
    EarlierTimesHaveRecords(history, latest);
    var records := seq(|times|, i requires 0 <= i < |times| => canonical[times[i]]);
    assert records == Canonical(history, times);
    var points := ToPerformanceSeries(Points(records + [latest]));
    if points.Err? {
      return Err(NotComputable(points.error));
    }
    r := Ok(Authoritative(Some(points.value[|points.value| - 1]), points.value));
  }

  // Whether history vouches for latestNav, unless a check throws.
  method CheckEligible(history: seq<NavRecord>, latest: NavRecord) returns (r: Result<bool, InputError>)
    ensures r.Err? <==>
              || EveryMatches(SameId(history, latest), latest).Err?
              || (exists p :: p in history && !EventReadable(p))
              || Unrankable(AtEvent(history, EventKey(latest)))
    ensures r.Ok? ==> r.value == Eligible(history, latest)
  {
    hide EventKey, AvailableKey, Winner, AtEvent, EventReadable, AvailableReadable, EveryMatches, EndsAtLatest,
         ReduceWinner, Unrankable, Matches;
    var sameId := SameId(history, latest);
    var matching := EveryMatches(sameId, latest);
    if matching.Err? {
      return matching;
    }
    EveryMatchesIs(sameId, latest);
    var onePortfolio := forall p :: p in history ==> p.portfolioId == latest.portfolioId;
    var ends := EndsAtLatest(history, latest);
    EndsAtLatestIs(history, latest);
    if ends.Err? {
      return ends;
    }
    var bucket := LatestBucket(history, latest);
    if bucket.Err? {
      return Err(Unreadable);
    }
    var winner := ReduceWinner(bucket.value);
    ReduceWinnerIs(bucket.value);
    if winner.Err? {
      return Err(Unreadable);
    }
    // The winner's own comparison cannot throw: under the id of latestNav it has matched already.
    r := Ok(sameId != [] && matching.value && onePortfolio && ends.value
            && winner.value.Some? && winner.value.value.id == latest.id);
    if matching.value { WinnerMatchesById(history, latest); }
    assert sameId != [] <==> exists p :: p in history && p.id == latest.id by {
      if sameId != [] { assert sameId[0] in history; }
    }
  }

  lemma WinnerMatchesById(history: seq<NavRecord>, latest: NavRecord)
    requires forall p :: p in history && p.id == latest.id ==> Matches(p, latest)
    ensures var winner := Winner(AtEvent(history, EventKey(latest)));
            winner.Some? ==> (Matches(winner.value, latest) <==> winner.value.id == latest.id)
  {
    hide EventKey, AvailableKey, CompareDecimals;
  }
}
