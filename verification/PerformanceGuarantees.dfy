/** The canonicalising pass over NAV history, and what its result does and does not depend on. */
module PerformanceGuarantees {
  import opened Wrappers
  import opened Decimals
  import opened Instant
  import opened Performance
  import opened PerformancePass

  /* ---------- the winner ---------- */

  lemma {:induction false} TextOrderIsTransitive(a: string, b: string, c: string)
    requires TextBefore(a, b) && TextBefore(b, c)
    ensures TextBefore(a, c)
  {
    if a != "" && a[0] == b[0] && b[0] == c[0] {
      TextOrderIsTransitive(a[1..], b[1..], c[1..]);
    }
  }

  predicate SameRank(p: NavRecord, q: NavRecord)
  {
    AvailableKey(p) == AvailableKey(q) && p.id == q.id
  }

  lemma SupersedesIsTotal(p: NavRecord, q: NavRecord)
    ensures !(Supersedes(p, q) && Supersedes(q, p))
    ensures Supersedes(p, q) || Supersedes(q, p) || SameRank(p, q)
    ensures SameRank(p, q) ==> !Supersedes(p, q)
  {
    hide AvailableKey;
    TextOrderIsTotal(p.id, q.id);
  }

  // Nothing that loses to the old winner beats a newer one.
  lemma SupersedesIsTransitive(p: NavRecord, q: NavRecord, r: NavRecord)
    requires !Supersedes(p, q) && Supersedes(r, q)
    ensures !Supersedes(p, r)
  {
    hide AvailableKey;
    TextOrderIsTotal(p.id, q.id);
    TextOrderIsTotal(p.id, r.id);
    if TextBefore(p.id, q.id) && TextBefore(q.id, r.id) { TextOrderIsTransitive(p.id, q.id, r.id); }
    if TextBefore(q.id, r.id) && TextBefore(r.id, p.id) { TextOrderIsTransitive(q.id, r.id, p.id); }
  }

  // No record in the bucket supersedes its winner.
  lemma {:induction false} WinnerIsNotSuperseded(records: seq<NavRecord>)
    requires records != []
    ensures forall p :: p in records ==> !Supersedes(p, Winner(records).value)
  {
    hide AvailableKey, Supersedes, SameRank;
    var front, last := records[..|records| - 1], records[|records| - 1];
    assert records == front + [last];
    SupersedesIsTotal(last, last);
    if front != [] {
      WinnerIsNotSuperseded(front);
      var before := Winner(front).value;
      if Supersedes(last, before) {
        forall p | p in front
          ensures !Supersedes(p, last)
        {
          SupersedesIsTransitive(p, before, last);
        }
      }
    }
  }

  // The winner of a bucket is one of its records, and none is newer.
  lemma WinnerIsLatest(records: seq<NavRecord>)
    requires records != []
    ensures Winner(records).value in records
    ensures forall p :: p in records ==> NotNewer(p, Winner(records).value)
  {
    hide AvailableKey, Supersedes, NotNewer;
    WinnerIsNotSuperseded(records);
    forall p | p in records
      ensures NotNewer(p, Winner(records).value)
    {
      SupersedesExactlyTheOlder(p, Winner(records).value);
    }
  }

  // Two histories with the same records have winners of the same rank.
  lemma WinnersRankEqually(a: seq<NavRecord>, b: seq<NavRecord>)
    requires a != [] && b != []
    requires forall p :: p in a <==> p in b
    ensures SameRank(Winner(a).value, Winner(b).value)
  {
    hide AvailableKey, Supersedes, SameRank;
    WinnerIsNotSuperseded(a);
    WinnerIsNotSuperseded(b);
    SupersedesIsTotal(Winner(a).value, Winner(b).value);
  }

  ghost predicate SameRecords(a: seq<NavRecord>, b: seq<NavRecord>) {
    forall p :: p in a <==> p in b
  }

  lemma SameRecordsAtEvent(a: seq<NavRecord>, b: seq<NavRecord>, time: int)
    requires SameRecords(a, b)
    ensures SameRecords(AtEvent(a, time), AtEvent(b, time))
    ensures AtEvent(a, time) == [] <==> AtEvent(b, time) == []
  {
    hide EventKey;
    if AtEvent(a, time) != [] { assert AtEvent(a, time)[0] in AtEvent(b, time); }
    if AtEvent(b, time) != [] { assert AtEvent(b, time)[0] in AtEvent(a, time); }
  }

  /* ---------- independence of order ---------- */

  // Whether the history vouches for latestNav never depends on order or repeats, even among conflicting records.
  lemma EligibilityIsOrderIndependent(a: seq<NavRecord>, b: seq<NavRecord>, latest: NavRecord)
    requires SameRecords(a, b)
    requires Eligible(a, latest)
    ensures Eligible(b, latest)
  {
    hide EventKey, AvailableKey, Supersedes, CompareDecimals, Winner;
    var time := EventKey(latest);
    SameRecordsAtEvent(a, b, time);
    var x, y := AtEvent(a, time), AtEvent(b, time);
    WinnersRankEqually(x, y);
    assert Winner(y).value in y;
  }

  // latestNav vouches for itself: a history of nothing else is eligible.
  lemma AloneIsEligible(latest: NavRecord)
    requires IsDecimal(latest.nav)
    ensures Eligible([latest], latest)
  {
    CompareIsExact(latest.nav, latest.nav);
    hide EventKey, AvailableKey, Supersedes, CompareDecimals;
    var bucket := AtEvent([latest], EventKey(latest));
    assert latest in [latest] && latest in bucket;
    assert Winner(bucket).value in bucket;
  }

  // The event time, availability and id of a record determine it.
  ghost predicate Determined(history: seq<NavRecord>)
  {
    forall p, q :: p in history && q in history && EventKey(p) == EventKey(q) && SameRank(p, q) ==> p == q
  }

  lemma CanonicalIsOrderIndependent(a: seq<NavRecord>, b: seq<NavRecord>, time: int)
    requires SameRecords(a, b) && Determined(a)
    ensures Winner(AtEvent(a, time)) == Winner(AtEvent(b, time))
  {
    hide EventKey, AvailableKey, Supersedes, SameRank, Winner;
    SameRecordsAtEvent(a, b, time);
    var x, y := AtEvent(a, time), AtEvent(b, time);
    if x != [] {
      WinnersRankEqually(x, y);
      assert Winner(x).value in x && Winner(y).value in y;
    }
  }

  // The result is a function of the set of records alone.
  lemma SeriesIsOrderIndependent(a: seq<NavRecord>, b: seq<NavRecord>, latest: NavRecord)
    requires SameRecords(a, b) && Determined(a)
    ensures AuthoritativeSeries(a, latest) == AuthoritativeSeries(b, latest)
  {
    hide EventKey, AvailableKey, Supersedes, SameRank, Winner, Matches, Series, Determined, AtEvent, Eligible;
    if Eligible(a, latest) { EligibilityIsOrderIndependent(a, b, latest); }
    if Eligible(b, latest) { EligibilityIsOrderIndependent(b, a, latest); }
    ChartedIsOrderIndependent(a, b, latest);
  }

  lemma ChartedIsOrderIndependent(a: seq<NavRecord>, b: seq<NavRecord>, latest: NavRecord)
    requires SameRecords(a, b) && Determined(a)
    ensures Charted(a, latest) == Charted(b, latest)
  {
    hide EventKey, AvailableKey, Supersedes, SameRank, Winner, Determined, AtEvent;
    assert EarlierTimes(a, latest) == EarlierTimes(b, latest);
    EarlierTimesHaveRecords(a, latest);
    EarlierTimesHaveRecords(b, latest);
    var times := Ascending(EarlierTimes(a, latest));
    forall i | 0 <= i < |times|
      ensures Winner(AtEvent(a, times[i])) == Winner(AtEvent(b, times[i]))
    {
      CanonicalIsOrderIndependent(a, b, times[i]);
    }
  }

  // So on records that can be read the computation as a whole does not depend on their order.
  lemma ReadableSeriesIsOrderIndependent(a: seq<NavRecord>, b: seq<NavRecord>, latest: NavRecord)
    requires forall p :: p in a || p == latest ==> IsDecimal(p.nav) && EventReadable(p) && AvailableReadable(p)
    requires SameRecords(a, b) && Determined(a)
    ensures CheckedSeries(a, latest) == CheckedSeries(b, latest)
  {
    hide IsDecimal, EventReadable, AvailableReadable, Throws, AuthoritativeSeries, Determined;
    ReadableNeverThrows(a, latest);
    ReadableNeverThrows(b, latest);
    SeriesIsOrderIndependent(a, b, latest);
  }

  // Whether unreadable records throw does depend on it: of two records under the id of latestNav, one of another
  // portfolio and one without a decimal value, only the first is looked at if it comes first.
  lemma ThrowingDependsOnOrder(latest: NavRecord, other: NavRecord, broken: NavRecord)
    requires other.id == broken.id == latest.id
    requires other.portfolioId != latest.portfolioId && broken.portfolioId == latest.portfolioId && !IsDecimal(broken.nav)
    requires forall p :: p in {latest, other, broken} ==> EventReadable(p) && AvailableReadable(p)
    ensures !Throws([other, broken], latest) && Throws([broken, other], latest)
  {
    hide IsDecimal, EventReadable, AvailableReadable, EventKey, AvailableKey, AtEvent, Winner;
    assert CompareDecimals(broken.nav, latest.nav).Err?;
    assert [other, broken][1..] == [broken] && [broken, other][1..] == [other];
    assert [broken][1..] == [] && [other][1..] == [];
    BothUnderTheId(other, broken, latest);
    BothUnderTheId(broken, other, latest);
    assert !Matches(other, latest) && other in [other, broken];
    assert !Eligible([other, broken], latest);
  }

  lemma BothUnderTheId(p: NavRecord, q: NavRecord, latest: NavRecord)
    requires p.id == q.id == latest.id
    ensures SameId([p, q], latest) == [p, q]
  {
    assert [p, q][1..] == [q] && [q][1..] == [];
    assert SameId([q], latest) == [q] + SameId([q][1..], latest);
    assert SameId([p, q], latest) == [p] + SameId([p, q][1..], latest);
  }

  // Order also matters where records do not determine themselves: of two different records of equal rank the earlier
  // one in the history wins.
  lemma FirstOfEqualRankWins(a: seq<NavRecord>, b: seq<NavRecord>)
    requires |a| == 2 && b == [a[1], a[0]]
    requires SameRank(a[0], a[1])
    ensures Winner(a) == Some(a[0]) && Winner(b) == Some(a[1])
  {
    hide AvailableKey;
    SupersedesIsTotal(a[0], a[1]);
    SupersedesIsTotal(a[1], a[0]);
    assert a[..1] == [a[0]] && b[..1] == [a[1]];
    assert a[..1][..0] == [] && b[..1][..0] == [];
  }

  /* ---------- what is charted ---------- */

  // On success there is one record per distinct event time, in strictly increasing event time, each from the
  // history and at least as new as all others of its time, and latestNav closes the chart.
  lemma ChartedRecordsAreCanonical(history: seq<NavRecord>, latest: NavRecord)
    requires Eligible(history, latest)
    ensures var c := Charted(history, latest);
            && c[|c| - 1] == latest
            && (forall i, j :: 0 <= i < j < |c| ==> EventKey(c[i]) < EventKey(c[j]))
            && (forall p :: p in history ==> exists i :: 0 <= i < |c| && EventKey(c[i]) == EventKey(p))
            && (forall i :: 0 <= i < |c| - 1 ==> c[i] in history)
            && (forall i, p :: 0 <= i < |c| && p in history && EventKey(p) == EventKey(c[i]) ==> NotNewer(p, c[i]))
  {
    hide EventKey, AvailableKey, Supersedes, NotNewer, Eligible, Charted, Ascending, EarlierTimes;
    ChartedInOrder(history, latest);
    var c := Charted(history, latest);
    forall p | p in history
      ensures exists i :: 0 <= i < |c| && EventKey(c[i]) == EventKey(p)
    {
      LatestIsNotSuperseded(history, latest);
      EveryTimeIsCharted(history, latest, p);
    }
  }

  lemma ChartedInOrder(history: seq<NavRecord>, latest: NavRecord)
    requires Eligible(history, latest)
    ensures var c := Charted(history, latest);
            && c[|c| - 1] == latest
            && (forall i, j :: 0 <= i < j < |c| ==> EventKey(c[i]) < EventKey(c[j]))
            && (forall i :: 0 <= i < |c| - 1 ==> c[i] in history)
            && (forall i, p :: 0 <= i < |c| && p in history && EventKey(p) == EventKey(c[i]) ==> NotNewer(p, c[i]))
  {
    hide EventKey, AvailableKey, Supersedes, NotNewer, Eligible, Charted, EarlierTimes, Winner, AtEvent;
    ChartedEarlier(history, latest);
    LatestIsNotSuperseded(history, latest);
    var times, c := Ascending(EarlierTimes(history, latest)), Charted(history, latest);
    hide Ascending;
    forall i, j | 0 <= i < j < |c|
      ensures EventKey(c[i]) < EventKey(c[j])
    {
      assert EventKey(c[i]) == times[i];
      if j < |times| { assert EventKey(c[j]) == times[j]; }
    }
  }

  lemma EveryTimeIsCharted(history: seq<NavRecord>, latest: NavRecord, p: NavRecord)
    requires p in history && EventKey(p) <= EventKey(latest)
    ensures var c := Charted(history, latest);
            exists i :: 0 <= i < |c| && EventKey(c[i]) == EventKey(p)
  {
    hide EventKey, Supersedes, NotNewer, Charted;
    var times, c := Ascending(EarlierTimes(history, latest)), Charted(history, latest);
    ChartedEarlier(history, latest);
    if EventKey(p) < EventKey(latest) {
      EarlierTimesHold(history, latest, p);
      var i :| 0 <= i < |times| && times[i] == EventKey(p);
      assert EventKey(c[i]) == EventKey(p);
    } else {
      assert EventKey(c[|times|]) == EventKey(p);
    }
  }

  lemma EarlierTimesHold(history: seq<NavRecord>, latest: NavRecord, p: NavRecord)
    requires p in history && EventKey(p) < EventKey(latest)
    ensures EventKey(p) in Ascending(EarlierTimes(history, latest))
  {
    hide EventKey;
  }

  lemma ChartedEarlier(history: seq<NavRecord>, latest: NavRecord)
    ensures var times, c := Ascending(EarlierTimes(history, latest)), Charted(history, latest);
            && |c| == |times| + 1 && c[|times|] == latest
            && (forall i :: 0 <= i < |times| ==>
                  && times[i] < EventKey(latest)
                  && c[i] in history && EventKey(c[i]) == times[i]
                  && forall p :: p in history && EventKey(p) == times[i] ==> NotNewer(p, c[i]))
  {
    hide EventKey, AvailableKey, Supersedes, NotNewer, Winner, SameRank;
    EarlierTimesHaveRecords(history, latest);
    var times, c := Ascending(EarlierTimes(history, latest)), Charted(history, latest);
    forall i | 0 <= i < |times|
      ensures times[i] < EventKey(latest)
      ensures c[i] in history && EventKey(c[i]) == times[i]
      ensures forall p :: p in history && EventKey(p) == times[i] ==> NotNewer(p, c[i])
    {
      assert times[i] in EarlierTimes(history, latest);
      WinnerIsLatest(AtEvent(history, times[i]));
      assert c[i] in AtEvent(history, times[i]);
    }
  }

  lemma LatestIsNotSuperseded(history: seq<NavRecord>, latest: NavRecord)
    requires Eligible(history, latest)
    ensures forall p :: p in history ==> EventKey(p) <= EventKey(latest)
    ensures forall p :: p in history && EventKey(p) == EventKey(latest) ==> NotNewer(p, latest)
  {
    hide EventKey, Winner, CompareDecimals, AvailableKey;
    var bucket := AtEvent(history, EventKey(latest));
    WinnerIsLatest(bucket);
    var winner := Winner(bucket).value;
    assert Matches(winner, latest);
  }

  // A history vouches for latestNav exactly when it holds its id, every record of that id agrees with it in
  // portfolio, value and instants, no record is of another portfolio or a later event time, and none of its event
  // time is newer.
  lemma EligibleExactly(history: seq<NavRecord>, latest: NavRecord)
    ensures Eligible(history, latest) <==>
              (&& (exists p :: p in history && p.id == latest.id)
               && (forall p :: p in history && p.id == latest.id ==>
                     && p.portfolioId == latest.portfolioId
                     && IsDecimal(p.nav) && IsDecimal(latest.nav) && RealOf(p.nav) == RealOf(latest.nav)
                     && EventKey(p) == EventKey(latest) && AvailableKey(p) == AvailableKey(latest))
               && (forall p :: p in history ==> p.portfolioId == latest.portfolioId && EventKey(p) <= EventKey(latest))
               && (forall p :: p in history && EventKey(p) == EventKey(latest) ==> NotNewer(p, latest)))
  {
    forall p
      ensures Matches(p, latest) <==>
                (&& p.id == latest.id && p.portfolioId == latest.portfolioId
                 && IsDecimal(p.nav) && IsDecimal(latest.nav) && RealOf(p.nav) == RealOf(latest.nav)
                 && EventKey(p) == EventKey(latest) && AvailableKey(p) == AvailableKey(latest))
    {
      MatchesExactly(p, latest);
    }
    hide IsDecimal, RealOf, Matches, EventKey, AvailableKey, NotNewer, Winner, AtEvent;
    if Eligible(history, latest) {
      LatestIsNotSuperseded(history, latest);
    }
    if forall p :: p in history && EventKey(p) == EventKey(latest) ==> NotNewer(p, latest) {
      if exists p :: p in history && Matches(p, latest) {
        var p :| p in history && Matches(p, latest);
        NewestBearsTheId(history, latest, p);
      }
    }
  }

  lemma MatchesExactly(p: NavRecord, latest: NavRecord)
    ensures Matches(p, latest) <==>
              (&& p.id == latest.id && p.portfolioId == latest.portfolioId
               && IsDecimal(p.nav) && IsDecimal(latest.nav) && RealOf(p.nav) == RealOf(latest.nav)
               && EventKey(p) == EventKey(latest) && AvailableKey(p) == AvailableKey(latest))
  {
    if IsDecimal(p.nav) && IsDecimal(latest.nav) { CompareIsExact(p.nav, latest.nav); }
    hide IsDecimal, RealOf, EventKey, AvailableKey;
  }

  // If nothing at its event time is newer than latestNav, the winner there bears its id.
  lemma NewestBearsTheId(history: seq<NavRecord>, latest: NavRecord, p: NavRecord)
    requires p in history && p.id == latest.id
    requires EventKey(p) == EventKey(latest) && AvailableKey(p) == AvailableKey(latest)
    requires forall q :: q in history && EventKey(q) == EventKey(latest) ==> NotNewer(q, latest)
    ensures var winner := Winner(AtEvent(history, EventKey(latest)));
            winner.Some? && winner.value in history && winner.value.id == latest.id
  {
    hide EventKey, AvailableKey, NotNewer, Supersedes, Winner;
    var bucket := AtEvent(history, EventKey(latest));
    assert p in bucket;
    var winner := Winner(bucket).value;
    WinnerIsLatest(bucket);
    assert winner in bucket;
    SupersedesExactlyTheOlder(p, winner);
    SupersedesExactlyTheOlder(winner, latest);
    SupersedesIsTotal(p, winner);
    SameRankSupersededAlike(winner, p, latest);
  }

  lemma SameRankSupersededAlike(winner: NavRecord, p: NavRecord, q: NavRecord)
    requires SameRank(p, q)
    ensures Supersedes(winner, p) <==> Supersedes(winner, q)
  {
  }

  // Every point shows its charted record: value and availability as they are, the return from the record before and
  // the drawdown from the highest value so far.
  lemma ChartShowsTheRecords(history: seq<NavRecord>, latest: NavRecord, i: nat)
    requires Eligible(history, latest) && AuthoritativeSeries(history, latest).Ok? && i < |Charted(history, latest)|
    ensures var (c, points) := (Charted(history, latest), AuthoritativeSeries(history, latest).value.points);
            |points| == |c| && points[i].nav == c[i].nav && points[i].time == c[i].availableAt
    ensures var (shown, points) := (Points(Charted(history, latest)), AuthoritativeSeries(history, latest).value.points);
            AllNavsDecimal(shown) && ShowsPoint(shown, points, i)
  {
    hide Eligible, Charted, Series, IsDecimal, RealOf, IsRoundedChange, DrawdownFrom, AuthoritativeSeries;
    SeriesOfCharted(history, latest);
    SeriesShowsThePoints(Points(Charted(history, latest)), AuthoritativeSeries(history, latest).value.points, i);
  }

  // A point keeps value and availability, and carries the return from the point before and the drawdown.
  ghost predicate ShowsPoint(shown: seq<NavPoint>, points: seq<PerformancePoint>, i: nat)
    requires AllNavsDecimal(shown)
  {
    && i < |shown| && |points| == |shown|
    && points[i].nav == shown[i].nav && points[i].time == shown[i].availableAt
    && (points[i].dailyReturn.Some? <==> i > 0)
    && (i > 0 ==> IsRoundedChange(points[i].dailyReturn.value, RealOf(shown[i].nav), RealOf(shown[i - 1].nav)))
    && exists peak :: DrawdownFrom(shown, i, points[i].drawdown, peak)
  }

  lemma SeriesShowsThePoints(shown: seq<NavPoint>, points: seq<PerformancePoint>, i: nat)
    requires Series(shown) == Ok(points) && i < |shown|
    ensures AllNavsDecimal(shown) && ShowsPoint(shown, points, i)
  {
    hide IsDecimal, RealOf, IsRoundedChange, DrawdownFrom;
    ReturnsAreFromThePreviousPoint(shown, i);
    DrawdownsAreFromTheMaximum(shown, i);
  }

  lemma SeriesOfCharted(history: seq<NavRecord>, latest: NavRecord)
    requires Eligible(history, latest) && AuthoritativeSeries(history, latest).Ok?
    ensures Series(Points(Charted(history, latest))) == Ok(AuthoritativeSeries(history, latest).value.points)
  {
    hide Eligible, Charted, Series, Points;
  }

  // The chart ends with latestNav's own value and availability, and `latest` is that last point.
  lemma ChartEndsAtLatest(history: seq<NavRecord>, latest: NavRecord)
    requires AuthoritativeSeries(history, latest).Ok?
    ensures var r := AuthoritativeSeries(history, latest).value;
            && r.points != []
            && r.points[|r.points| - 1].nav == latest.nav
            && r.points[|r.points| - 1].time == latest.availableAt
            && (r.latest.Some? <==> Eligible(history, latest))
            && (r.latest.Some? ==> r.latest.value == r.points[|r.points| - 1])
  {
    hide EventKey, AvailableKey, Supersedes, NotNewer, Winner, Eligible, IsDecimal, RealOf, IsRoundedChange, Canonical;
    var shown := if Eligible(history, latest) then Points(Charted(history, latest)) else [Shown(latest)];
    ReturnsAreFromThePreviousPoint(shown, |shown| - 1);
  }

  // A history that does not vouch for latestNav yields one point without a return and with a zero drawdown,
  // as long as the value is a positive Decimal; it fails only on a value that cannot be a baseline.
  lemma FailsClosed(history: seq<NavRecord>, latest: NavRecord)
    requires !Eligible(history, latest)
    ensures AuthoritativeSeries(history, latest) ==
            if !IsDecimal(latest.nav) then Err(NotDecimal)
            else if RealOf(latest.nav) > 0.0 then
              Ok(Authoritative(None, [PerformancePoint(latest.nav, None, "0.00000000", latest.availableAt)]))
            else Err(BaselineNotPositive)
  {
    hide Eligible, IsDecimal, RealOf, Series, EventKey, AvailableKey;
    SinglePoint(Shown(latest));
  }

  lemma SinglePoint(p: NavPoint)
    ensures Series([p]) == if !IsDecimal(p.nav) then Err(NotDecimal)
                           else if RealOf(p.nav) > 0.0 then
                             Ok([PerformancePoint(p.nav, None, "0.00000000", p.availableAt)])
                           else Err(BaselineNotPositive)
  {
    hide IsDecimal, RealOf, CompareDecimals, Change;
    var points := [p];
    assert points[..0] == [];
    assert Series(points[..0]) == Ok([]);
    if IsDecimal(p.nav) { NoChangePrintsZero(p.nav); } else { NotDecimalFails(p.nav); }
    assert Peak(points) == Ok(p.nav);
    assert points[..|points| - 1] == points[..0];
    var shown := PerformancePoint(p.nav, None, "0.00000000", p.availableAt);
    assert [] + [shown] == [shown];
  }

  lemma NotDecimalFails(nav: string)
    requires !IsDecimal(nav)
    ensures Change(nav, nav) == Err(NotDecimal)
  {
    hide IsDecimal;
  }

  lemma NoChangePrintsZero(nav: string)
    requires IsDecimal(nav)
    ensures Change(nav, nav) == if RealOf(nav) > 0.0 then Ok("0.00000000") else Err(BaselineNotPositive)
  {
    ChangeIsDefinedExactly(nav, nav, FRACTION_DIGITS);
    hide RealOf, Decimals.Parse, FindDot, IntegerOf;
    ZeroText();
    if RealOf(nav) > 0.0 {
      var b := IntegerOf(nav, CommonScale(nav, nav));
      ZeroRatio(b);
    }
  }

  lemma ZeroRatio(d: int)
    ensures (d - d) == 0
    ensures d > 0 ==> RoundRatio(0, d) == 0
  {
  }

  lemma ZeroText()
    ensures Format(false, 0, FRACTION_DIGITS) == "0.00000000"
  {
  }
}
