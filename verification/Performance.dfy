/** The NAV chart: daily returns, drawdown against a running peak, and one canonical record per event time. */
module Performance {
  import opened Wrappers
  import opened Decimals
  import opened Instant

  datatype NavPoint = NavPoint(nav: string, availableAt: string)

  datatype NavRecord = NavRecord(nav: string, availableAt: string, eventTime: string, id: string, portfolioId: string)

  datatype PerformancePoint =
    PerformancePoint(nav: string, dailyReturn: Option<string>, drawdown: string, time: string)

  datatype Authoritative = Authoritative(latest: Option<PerformancePoint>, points: seq<PerformancePoint>)

  // The default precision of decimalChange.
  const FRACTION_DIGITS: nat := 8

  /* ---------- returns and drawdowns ---------- */

  // The running peak after the last point; an equal value keeps the earlier text.
  function Peak(points: seq<NavPoint>): Result<string, DecimalError>
    requires points != []
  {
    var last := points[|points| - 1];
    if |points| == 1 then Ok(last.nav)
    else
      var before := Peak(points[..|points| - 1]);
      if before.Err? then before
      else
        var order := CompareDecimals(last.nav, before.value);
        if order.Err? then Err(order.error)
        else Ok(if order.value > 0 then last.nav else before.value)
  }

  function Change(current: string, baseline: string): Result<string, DecimalError> {
    DecimalChange(current, baseline, FRACTION_DIGITS)
  }

  function DailyReturn(points: seq<NavPoint>): Result<Option<string>, DecimalError>
    requires points != []
  {
    var n := |points|;
    if n == 1 then Ok(None)
    else
      var change := Change(points[n - 1].nav, points[n - 2].nav);
      if change.Err? then Err(change.error) else Ok(Some(change.value))
  }

  function LastPoint(points: seq<NavPoint>): Result<PerformancePoint, DecimalError>
    requires points != []
  {
    var last := points[|points| - 1];
    var peak := Peak(points);
    if peak.Err? then Err(peak.error)
    else
      var dailyReturn := DailyReturn(points);
      if dailyReturn.Err? then Err(dailyReturn.error)
      else
        var drawdown := Change(last.nav, peak.value);
        if drawdown.Err? then Err(drawdown.error)
        else Ok(PerformancePoint(last.nav, dailyReturn.value, drawdown.value, last.availableAt))
  }

  function Series(points: seq<NavPoint>): (r: Result<seq<PerformancePoint>, DecimalError>)
    ensures r.Ok? ==> |r.value| == |points|
  {
    if points == [] then Ok([])
    else
      var front := Series(points[..|points| - 1]);
      if front.Err? then front
      else
        var last := LastPoint(points);
        if last.Err? then Err(last.error) else Ok(front.value + [last.value])
  }

  // One pass that carries the peak along.
  method ToPerformanceSeries(points: seq<NavPoint>) returns (r: Result<seq<PerformancePoint>, DecimalError>)
    ensures r == Series(points)
  {
    hide CompareDecimals, Change;
    var peak: Option<string> := None;
    var shown: seq<PerformancePoint> := [];
    var index := 0;
    assert points[..0] == [];
    while index < |points|
      invariant 0 <= index <= |points|
      invariant Series(points[..index]) == Ok(shown)
      invariant index == 0 ==> peak == None
      invariant index > 0 ==> peak.Some? && Peak(points[..index]) == Ok(peak.value)
    {
      var point := points[index];
      assert points[..index + 1][..index] == points[..index];
      if peak == None {
        peak := Some(point.nav);
      } else {
        var order := CompareDecimals(point.nav, peak.value);
        if order.Err? {
          SeriesFailsFrom(points, index + 1);
          return Err(order.error);
        }
        if order.value > 0 {
          peak := Some(point.nav);
        }
      }
      var dailyReturn: Option<string> := None;
      if index > 0 {
        var change := Change(point.nav, points[index - 1].nav);
        if change.Err? {
          SeriesFailsFrom(points, index + 1);
          return Err(change.error);
        }
        dailyReturn := Some(change.value);
      }
      var drawdown := Change(point.nav, peak.value);
      if drawdown.Err? {
        SeriesFailsFrom(points, index + 1);
        return Err(drawdown.error);
      }
      shown := shown + [PerformancePoint(point.nav, dailyReturn, drawdown.value, point.availableAt)];
      index := index + 1;
    }
    assert points[..|points|] == points;
    r := Ok(shown);
  }

  // A failing prefix fails the whole series with the same error.
  lemma {:induction false} SeriesFailsFrom(points: seq<NavPoint>, n: nat)
    requires n <= |points| && Series(points[..n]).Err?
    ensures Series(points) == Series(points[..n])
  {
    if n == |points| {
      assert points[..n] == points;
    } else {
      var front := points[..|points| - 1];
      assert front[..n] == points[..n];
      SeriesFailsFrom(front, n);
    }
  }

  lemma {:induction false} SeriesAt(points: seq<NavPoint>, i: nat)
    requires Series(points).Ok? && i < |points|
    ensures LastPoint(points[..i + 1]) == Ok(Series(points).value[i])
  {
    hide LastPoint;
    var front := points[..|points| - 1];
    if i == |points| - 1 {
      assert points[..i + 1] == points;
    } else {
      SeriesAt(front, i);
      assert front[..i + 1] == points[..i + 1];
    }
  }

  predicate AllNavsDecimal(points: seq<NavPoint>) {
    forall i :: 0 <= i < |points| ==> IsDecimal(points[i].nav)
  }

  // The peak is one of the values and no value so far exceeds it.
  lemma {:induction false} PeakIsMaximum(points: seq<NavPoint>)
    requires points != [] && AllNavsDecimal(points)
    ensures Peak(points).Ok? && IsDecimal(Peak(points).value)
    ensures exists i :: 0 <= i < |points| && points[i].nav == Peak(points).value
    ensures forall i :: 0 <= i < |points| ==> RealOf(points[i].nav) <= RealOf(Peak(points).value)
  {
    hide IsDecimal, RealOf, CompareDecimals;
    var n := |points|;
    var last := points[n - 1];
    if n > 1 {
      var front := points[..n - 1];
      PeakIsMaximum(front);
      var k :| 0 <= k < |front| && front[k].nav == Peak(front).value;
      assert points[k].nav == Peak(front).value;
      CompareIsExact(last.nav, Peak(front).value);
      assert Peak(points).value == last.nav || Peak(points).value == points[k].nav;
      assert forall i :: 0 <= i < n - 1 ==> points[i] == front[i];
    } else {
      assert points[0].nav == last.nav;
    }
  }

  predicate ReturnsAreDefined(points: seq<NavPoint>) {
    && AllNavsDecimal(points)
    && (points != [] ==> RealOf(points[0].nav) > 0.0)
    && forall i :: 0 <= i < |points| - 1 ==> RealOf(points[i].nav) > 0.0
  }

  // The series is computed exactly when every value is a Decimal and all but a later last one are positive.
  lemma {:induction false} SeriesIsDefinedExactly(points: seq<NavPoint>)
    ensures Series(points).Ok? <==> ReturnsAreDefined(points)
  {
    hide IsDecimal, RealOf, CompareDecimals, DecimalChange;
    if points != [] {
      var n := |points|;
      var front, last := points[..n - 1], points[n - 1];
      SeriesIsDefinedExactly(front);
      assert forall i :: 0 <= i < n - 1 ==> points[i] == front[i];
      if ReturnsAreDefined(points) {
        assert ReturnsAreDefined(front);
        PeakIsMaximum(points);
        assert RealOf(points[0].nav) <= RealOf(Peak(points).value);
        ChangeIsDefinedExactly(last.nav, Peak(points).value, FRACTION_DIGITS);
        if n > 1 {
          ChangeIsDefinedExactly(last.nav, points[n - 2].nav, FRACTION_DIGITS);
        }
      } else if Series(points).Ok? {
        ChangeIsDefinedExactly(last.nav, Peak(points).value, FRACTION_DIGITS);
        if n > 1 {
          ChangeIsDefinedExactly(last.nav, points[n - 2].nav, FRACTION_DIGITS);
        }
      }
    }
  }

  ghost predicate IsMaximumUpTo(points: seq<NavPoint>, i: nat, peak: real)
    requires i < |points| && AllNavsDecimal(points)
  {
    && (exists k :: 0 <= k <= i && RealOf(points[k].nav) == peak)
    && forall k :: 0 <= k <= i ==> RealOf(points[k].nav) <= peak
  }

  // A printed Decimal: (current - baseline) / baseline rounded to the nearest last digit, ties away from zero.
  ghost predicate IsRoundedChange(text: string, current: real, baseline: real) {
    && baseline > 0.0
    && IsDecimal(text)
    && InUnits(RealOf(text), FRACTION_DIGITS) ==
       RoundAway(InUnits((current - baseline) / baseline, FRACTION_DIGITS)) as real
  }

  lemma ChangeIsRoundedChange(current: string, baseline: string)
    requires Change(current, baseline).Ok?
    ensures IsDecimal(current) && IsDecimal(baseline) && IsDecimal(Change(current, baseline).value)
    ensures IsRoundedChange(Change(current, baseline).value, RealOf(current), RealOf(baseline))
  {
    hide IsDecimal, RealOf, DecimalChange, RoundAway, InUnits;
    ChangeIsDefinedExactly(current, baseline, FRACTION_DIGITS);
    ChangeIsRounded(current, baseline, FRACTION_DIGITS);
  }

  lemma NoGainIsNotPositive(current: string, baseline: string)
    requires Change(current, baseline).Ok?
    requires IsDecimal(current) && IsDecimal(baseline) && RealOf(current) <= RealOf(baseline)
    requires IsDecimal(Change(current, baseline).value)
    ensures RealOf(Change(current, baseline).value) <= 0.0
    ensures RealOf(current) == RealOf(baseline) ==> RealOf(Change(current, baseline).value) == 0.0
  {
    hide IsDecimal, RealOf, DecimalChange, RoundAway, InUnits, CompareDecimals;
    ChangeIsDefinedExactly(current, baseline, FRACTION_DIGITS);
    ChangeSignAgrees(current, baseline, FRACTION_DIGITS);
    CompareIsExact(current, baseline);
  }

  ghost predicate DrawdownFrom(points: seq<NavPoint>, i: nat, text: string, peak: real)
    requires i < |points| && AllNavsDecimal(points)
  {
    && IsMaximumUpTo(points, i, peak)
    && IsRoundedChange(text, RealOf(points[i].nav), peak)
    && RealOf(text) <= 0.0
    && (RealOf(points[i].nav) == peak ==> RealOf(text) == 0.0)
  }

  // Every drawdown is the rounded change from the true running maximum: never above zero, zero at a new maximum.
  lemma DrawdownsAreFromTheMaximum(points: seq<NavPoint>, i: nat)
    requires Series(points).Ok? && i < |points|
    ensures AllNavsDecimal(points)
    ensures exists peak :: DrawdownFrom(points, i, Series(points).value[i].drawdown, peak)
  {
    hide IsDecimal, RealOf, Change, IsRoundedChange, Peak, Series, IsMaximumUpTo;
    SeriesIsDefinedExactly(points);
    DrawdownAgainstPeak(points, i);
    PrefixPeakIsMaximum(points, i);
    var top, nav := Peak(points[..i + 1]).value, points[i].nav;
    ChangeIsRoundedChange(nav, top);
    NoGainIsNotPositive(nav, top);
    assert DrawdownFrom(points, i, Series(points).value[i].drawdown, RealOf(top));
  }

  lemma DrawdownAgainstPeak(points: seq<NavPoint>, i: nat)
    requires Series(points).Ok? && i < |points|
    ensures Peak(points[..i + 1]).Ok?
    ensures Change(points[i].nav, Peak(points[..i + 1]).value) == Ok(Series(points).value[i].drawdown)
  {
    hide Change, Peak, Series;
    SeriesAt(points, i);
  }

  lemma PrefixPeakIsMaximum(points: seq<NavPoint>, i: nat)
    requires AllNavsDecimal(points) && i < |points|
    ensures Peak(points[..i + 1]).Ok? && IsDecimal(Peak(points[..i + 1]).value)
    ensures IsMaximumUpTo(points, i, RealOf(Peak(points[..i + 1]).value))
    ensures RealOf(points[i].nav) <= RealOf(Peak(points[..i + 1]).value)
  {
    hide IsDecimal, RealOf, Peak;
    var prefix := points[..i + 1];
    assert forall k :: 0 <= k <= i ==> prefix[k] == points[k];
    PeakIsMaximum(prefix);
    var k :| 0 <= k < |prefix| && prefix[k].nav == Peak(prefix).value;
    assert RealOf(points[k].nav) == RealOf(Peak(prefix).value);
  }

  // Every point keeps its text, and every return after the first is the rounded change from the point before it.
  lemma ReturnsAreFromThePreviousPoint(points: seq<NavPoint>, i: nat)
    requires Series(points).Ok? && i < |points|
    ensures AllNavsDecimal(points)
    ensures var point := Series(points).value[i];
            && point.nav == points[i].nav && point.time == points[i].availableAt
            && (point.dailyReturn.Some? <==> i > 0)
            && (i > 0 ==> IsRoundedChange(point.dailyReturn.value, RealOf(points[i].nav), RealOf(points[i - 1].nav)))
  {
    hide IsDecimal, RealOf, CompareDecimals, Change, IsRoundedChange, Peak;
    SeriesIsDefinedExactly(points);
    SeriesAt(points, i);
    var prefix := points[..i + 1];
    assert prefix[i] == points[i];
    if i > 0 {
      assert prefix[i - 1] == points[i - 1];
      ChangeIsRoundedChange(points[i].nav, points[i - 1].nav);
    }
  }

  /* ---------- canonical records ---------- */

  // The key of a readable timestamp; what an unreadable one stands for is never looked at.
  function TimeKey(text: string): int {
    var key := AwareInstantKey(text);
    if key.Ok? then key.value else 0
  }

  function EventKey(p: NavRecord): int {
    TimeKey(p.eventTime)
  }

  function AvailableKey(p: NavRecord): int {
    TimeKey(p.availableAt)
  }

  // a < b on strings
  predicate TextBefore(a: string, b: string) {
    if b == "" then false
    else if a == "" then true
    else a[0] < b[0] || (a[0] == b[0] && TextBefore(a[1..], b[1..]))
  }

  // Later availability wins, then the greater id.
  predicate Supersedes(p: NavRecord, q: NavRecord)
  {
    AvailableKey(p) > AvailableKey(q) || (AvailableKey(p) == AvailableKey(q) && TextBefore(q.id, p.id))
  }

  // a comes before b: at the first place where they differ its character is the smaller one, or it ends there.
  ghost predicate Precedes(a: string, b: string) {
    exists k :: 0 <= k <= |a| && k < |b| && a[..k] == b[..k] && (k == |a| || a[k] < b[k])
  }

  lemma {:induction false} TextBeforeIs(a: string, b: string)
    ensures TextBefore(a, b) <==> Precedes(a, b)
  {
    if b == "" {
      assert !Precedes(a, b);
    } else if a == "" {
      assert a[..0] == b[..0];
    } else {
      TextBeforeIs(a[1..], b[1..]);
      if TextBefore(a, b) {
        if a[0] < b[0] {
          assert a[..0] == b[..0];
        } else {
          var k :| 0 <= k <= |a[1..]| && k < |b[1..]| && a[1..][..k] == b[1..][..k] && (k == |a[1..]| || a[1..][k] < b[1..][k]);
          assert a[..k + 1] == [a[0]] + a[1..][..k] && b[..k + 1] == [b[0]] + b[1..][..k];
        }
      }
      if Precedes(a, b) {
        var k :| 0 <= k <= |a| && k < |b| && a[..k] == b[..k] && (k == |a| || a[k] < b[k]);
        if k > 0 {
          assert a[..k][0] == a[0] && b[..k][0] == b[0];
          assert a[1..][..k - 1] == a[..k][1..] && b[1..][..k - 1] == b[..k][1..];
          assert k - 1 == |a[1..]| || a[1..][k - 1] < b[1..][k - 1];
        }
      }
    }
  }

  // p was available no later than c, and of two made available together c has the same or the greater id.
  ghost predicate NotNewer(p: NavRecord, c: NavRecord) {
    AvailableKey(p) < AvailableKey(c) || (AvailableKey(p) == AvailableKey(c) && (p.id == c.id || Precedes(p.id, c.id)))
  }

  lemma {:induction false} TextOrderIsTotal(a: string, b: string)
    ensures !(TextBefore(a, b) && TextBefore(b, a))
    ensures TextBefore(a, b) || TextBefore(b, a) || a == b
    ensures a == b ==> !TextBefore(a, b)
  {
    if a != "" && b != "" && a[0] == b[0] {
      TextOrderIsTotal(a[1..], b[1..]);
      assert a == [a[0]] + a[1..] && b == [b[0]] + b[1..];
    }
  }

  // A record supersedes exactly those that are older: earlier available, or together and of a smaller id.
  lemma SupersedesExactlyTheOlder(p: NavRecord, q: NavRecord)
    ensures Supersedes(p, q) <==>
              AvailableKey(p) > AvailableKey(q) || (AvailableKey(p) == AvailableKey(q) && Precedes(q.id, p.id))
    ensures Supersedes(p, q) <==> !NotNewer(p, q)
  {
    hide AvailableKey, TextBefore, Precedes;
    TextBeforeIs(q.id, p.id);
    TextBeforeIs(p.id, q.id);
    TextOrderIsTotal(p.id, q.id);
  }

  // The keys compared are the instants the texts name.
  lemma KeysAreInstants(p: NavRecord)
    ensures AwareInstantKey(p.eventTime).Ok? ==> AwareInstantKey(p.eventTime) == Ok(EventKey(p))
    ensures AwareInstantKey(p.availableAt).Ok? ==> AwareInstantKey(p.availableAt) == Ok(AvailableKey(p))
  {
  }

  function Matches(p: NavRecord, latest: NavRecord): bool
  {
    && p.id == latest.id
    && p.portfolioId == latest.portfolioId
    && CompareDecimals(p.nav, latest.nav) == Ok(0)
    && EventKey(p) == EventKey(latest)
    && AvailableKey(p) == AvailableKey(latest)
  }

  function AtEvent(history: seq<NavRecord>, time: int): (r: seq<NavRecord>)
    ensures forall p :: p in r <==> p in history && EventKey(p) == time
  {
    hide EventKey;
    if history == [] then []
    else
      var last := history[|history| - 1];
      AtEvent(history[..|history| - 1], time) + if EventKey(last) == time then [last] else []
  }

  function Winner(records: seq<NavRecord>): (r: Option<NavRecord>)
    ensures r.Some? <==> records != []
    ensures r.Some? ==> r.value in records
  {
    if records == [] then None
    else
      var front, last := records[..|records| - 1], records[|records| - 1];
      var before := Winner(front);
      if before.None? || Supersedes(last, before.value) then Some(last) else before
  }

  // Whether history vouches for latestNav as its canonical last record.
  predicate Eligible(history: seq<NavRecord>, latest: NavRecord)
  {
    var winner := Winner(AtEvent(history, EventKey(latest)));
    && (exists p :: p in history && p.id == latest.id)
    && (forall p :: p in history && p.id == latest.id ==> Matches(p, latest))
    && (forall p :: p in history ==> p.portfolioId == latest.portfolioId)
    && (forall p :: p in history ==> EventKey(p) <= EventKey(latest))
    && winner.Some? && Matches(winner.value, latest)
  }

  function EarlierTimes(history: seq<NavRecord>, latest: NavRecord): set<int>
  {
    set p | p in history && EventKey(p) < EventKey(latest) :: EventKey(p)
  }

  lemma {:induction false} LeastExists(s: set<int>)
    requires s != {}
    ensures exists least :: least in s && forall other :: other in s ==> least <= other
  {
    var first := HasMember(s);
    var rest := s - {first};
    assert s == {first} + rest;
    if rest != {} {
      LeastExists(rest);
      var least :| least in rest && forall other :: other in rest ==> least <= other;
      if least < first {
        assert least in s && forall other :: other in s ==> least <= other;
      } else {
        assert first in s && forall other :: other in s ==> first <= other;
      }
    } else {
      assert first in s && forall other :: other in s ==> first <= other;
    }
  }

  function Least(s: set<int>): (least: int)
    requires s != {}
    ensures least in s && forall other :: other in s ==> least <= other
  {
    LeastExists(s);
    var least :| least in s && forall other :: other in s ==> least <= other;
    least
  }

  function Ascending(s: set<int>): (r: seq<int>)
    ensures forall time :: time in r <==> time in s
    ensures forall i, j :: 0 <= i < j < |r| ==> r[i] < r[j]
  {
    if s == {} then [] else [Least(s)] + Ascending(s - {Least(s)})
  }

  function Canonical(history: seq<NavRecord>, times: seq<int>): (r: seq<NavRecord>)
    requires forall i :: 0 <= i < |times| ==> AtEvent(history, times[i]) != []
  {
    seq(|times|, i requires 0 <= i < |times| => Winner(AtEvent(history, times[i])).value)
  }

  lemma EarlierTimesHaveRecords(history: seq<NavRecord>, latest: NavRecord)
    ensures forall time :: time in EarlierTimes(history, latest) ==> AtEvent(history, time) != []
  {
    hide EventKey;
    forall time | time in EarlierTimes(history, latest)
      ensures AtEvent(history, time) != []
    {
      var p :| p in history && EventKey(p) == time;
      assert p in AtEvent(history, time);
    }
  }

  function Shown(p: NavRecord): NavPoint {
    NavPoint(p.nav, p.availableAt)
  }

  // The records charted: the canonical record of every earlier event time in order, then latestNav itself.
  function Charted(history: seq<NavRecord>, latest: NavRecord): seq<NavRecord>
  {
    EarlierTimesHaveRecords(history, latest);
    Canonical(history, Ascending(EarlierTimes(history, latest))) + [latest]
  }

  function Points(records: seq<NavRecord>): seq<NavPoint> {
    seq(|records|, i requires 0 <= i < |records| => Shown(records[i]))
  }

  function AuthoritativeSeries(history: seq<NavRecord>, latest: NavRecord): Result<Authoritative, DecimalError>
  {
    if Eligible(history, latest) then
      var points := Series(Points(Charted(history, latest)));
      if points.Err? then Err(points.error)
      else Ok(Authoritative(Some(points.value[|points.value| - 1]), points.value))
    else
      var points := Series([Shown(latest)]);
      if points.Err? then Err(points.error) else Ok(Authoritative(None, points.value))
  }
}
