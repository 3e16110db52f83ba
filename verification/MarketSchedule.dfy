/** Which market cutoff a catch-up serves, and why repeating it admits nothing new. */
module MarketSchedule {
  import opened Wrappers
  import opened RunLedger
  import opened RunTable

  // The exchange calendar and time zone: trading days, the instant of the daily cutoff, and
  // the local day of an instant. Days and instants are integers.
  datatype Calendar = Calendar(isSession: int -> bool, cutoffOn: int -> int, dayOf: int -> int)

  // Cutoffs follow the days they belong to.
  ghost predicate Coherent(c: Calendar) {
    && (forall d, e :: d < e ==> c.cutoffOn(d) < c.cutoffOn(e))
    && (forall d, now {:trigger c.cutoffOn(d), c.dayOf(now)} :: c.cutoffOn(d) <= now ==> d <= c.dayOf(now))
  }

  const LOOKBACK_DAYS: nat := 8

  predicate CompletedOn(c: Calendar, d: int, now: int) {
    c.isSession(d) && c.cutoffOn(d) <= now
  }

  ghost predicate IsLatestCutoff(c: Calendar, now: int, cutoff: int) {
    && (exists d :: c.isSession(d) && c.cutoffOn(d) == cutoff) && cutoff <= now
    && (forall d :: c.isSession(d) && c.cutoffOn(d) <= now ==> c.cutoffOn(d) <= cutoff)
  }

  // The search returns the latest completed cutoff of all, and gives up exactly when none of
  // the last eight local days has one.
  method LatestCompletedMarketCutoff(c: Calendar, now: int) returns (r: Option<int>)
    requires Coherent(c)
    ensures r.Some? ==> IsLatestCutoff(c, now, r.value)
    ensures r.None? <==> forall d :: c.dayOf(now) - 8 < d ==> !(c.isSession(d) && c.cutoffOn(d) <= now)
  {
    var today := c.dayOf(now);
    for daysBack := 0 to LOOKBACK_DAYS
      invariant forall d :: today - daysBack < d ==> !CompletedOn(c, d, now)
    {
      var day := today - daysBack;
      if c.isSession(day) {
        var candidate := c.cutoffOn(day);
        if candidate <= now {
          assert forall d :: c.isSession(d) && c.cutoffOn(d) <= now ==> CompletedOn(c, d, now);
          return Some(candidate);
        }
      }
    }
    assert forall d :: c.isSession(d) && c.cutoffOn(d) <= now ==> CompletedOn(c, d, now);
    return None;
  }

  // Two searches with no session cutoff between them agree.
  lemma NoCutoffBetweenMeansSameCutoff(c: Calendar, first: int, second: int, a: int, b: int)
    requires first <= second && IsLatestCutoff(c, first, a) && IsLatestCutoff(c, second, b)
    requires forall d :: c.isSession(d) ==> !(first < c.cutoffOn(d) <= second)
    ensures a == b
  {
    var d :| c.isSession(d) && c.cutoffOn(d) == a;
    var e :| c.isSession(e) && c.cutoffOn(e) == b;
  }

  /* ---------- idempotency keys ---------- */

  function ScheduleKey(kind: string, symbol: Option<string>, cutoff: string): string {
    (if symbol.Some? then kind + ":" + symbol.value else kind) + ":" + cutoff
  }

  predicate ColonFree(s: string) {
    ':' !in s
  }

  lemma ColonSplitIsUnique(a: string, x: string, b: string, y: string)
    requires ColonFree(a) && ColonFree(b) && a + ":" + x == b + ":" + y
    ensures a == b && x == y
  {
    var s := a + ":" + x;
    assert s[|a|] == ':' && s == b + ":" + y && s[|b|] == ':';
    assert forall k :: 0 <= k < |a| ==> s[k] == a[k] && s[k] != ':';
    assert forall k :: 0 <= k < |b| ==> s[k] == b[k] && s[k] != ':';
    assert |a| == |b|;
    assert a == s[..|a|] && b == s[..|b|];
    assert x == s[|a| + 1..] && y == s[|b| + 1..];
  }

  // Keys of one schedule kind collide only for the same symbol and cutoff text, and keys of
  // different kinds never collide.
  lemma ScheduleKeysAreInjective(kind: string, symbol: Option<string>, cutoff: string,
                                 kind': string, symbol': Option<string>, cutoff': string)
    requires ColonFree(kind) && ColonFree(kind')
    requires symbol.Some? ==> ColonFree(symbol.value)
    requires symbol'.Some? ==> ColonFree(symbol'.value)
    requires kind == kind' ==> symbol.Some? == symbol'.Some?
    requires ScheduleKey(kind, symbol, cutoff) == ScheduleKey(kind', symbol', cutoff')
    ensures kind == kind' && symbol == symbol' && cutoff == cutoff'
  {
    var tail := if symbol.Some? then symbol.value + ":" + cutoff else cutoff;
    var tail' := if symbol'.Some? then symbol'.value + ":" + cutoff' else cutoff';
    assert ScheduleKey(kind, symbol, cutoff) == kind + ":" + tail;
    assert ScheduleKey(kind', symbol', cutoff') == kind' + ":" + tail';
    ColonSplitIsUnique(kind, tail, kind', tail');
    if symbol.Some? {
      ColonSplitIsUnique(symbol.value, cutoff, symbol'.value, cutoff');
    }
  }

  /* ---------- catch-up ---------- */

  // What _schedule asks for; body renders the frozen payload, iso the cutoff.
  function ScheduledRequest(runType: RunType, kind: string, symbol: Option<string>, cutoff: int,
                            iso: int -> string, body: (Option<string>, int) -> string, correlation: string): Request
  {
    Request(runType, ScheduleKey(kind, symbol, iso(cutoff)), Payload(body(symbol, cutoff), None), symbol,
            cutoff, cutoff, correlation, None)
  }

  // A scheduled run decides at its cutoff on data up to it, under a key that spells kind, symbol and cutoff, with the
  // active policies.
  lemma ScheduledRunIsItsCutoff(t: Table, newId: RunId, cap: int, runType: RunType, kind: string, symbol: Option<string>,
                                cutoff: int, iso: int -> string, body: (Option<string>, int) -> string,
                                correlation: string, policies: map<string, string>)
    ensures var req := ScheduledRequest(runType, kind, symbol, cutoff, iso, body, correlation);
            && req.key == (if symbol.Some? then kind + ":" + symbol.value + ":" + iso(cutoff) else kind + ":" + iso(cutoff))
            && (Admit(t, newId, cap, req, policies).1 == Ok(Admitted(newId, false)) ==>
                  var r := Admit(t, newId, cap, req, policies).0[newId].identity;
                  && r.decisionTime == cutoff && r.dataCutoff == cutoff && r.symbol == symbol && r.runType == runType
                  && r.key == req.key && r.payload == Payload(body(symbol, cutoff), None)
                  && r.pins == ResolvePins(req, policies) && req.pins == None)
            && Admit(t, newId, cap, req, policies).1 != Err(CutoffAfterDecision)
  {
  }

  // A run admitted by one catch-up is replayed, not duplicated, by every later catch-up with
  // the same settings as long as no session cutoff lies between the two.
  lemma RepeatedCatchUpAdmitsNothing(c: Calendar, first: int, second: int, a: int, b: int,
                                     t: Table, steps: seq<TableStep>, id: RunId, newId: RunId, cap: int,
                                     runType: RunType, kind: string, symbol: Option<string>, iso: int -> string,
                                     body: (Option<string>, int) -> string, correlation: string, correlation': string,
                                     policies: map<string, string>)
    requires first <= second && IsLatestCutoff(c, first, a) && IsLatestCutoff(c, second, b)
    requires forall d :: c.isSession(d) ==> !(first < c.cutoffOn(d) <= second)
    requires TableValid(t) && AllLegal(steps) && id in t
    requires t[id].identity.key == ScheduledRequest(runType, kind, symbol, a, iso, body, correlation).key
    requires t[id].identity.payload == ScheduledRequest(runType, kind, symbol, a, iso, body, correlation).payload
    ensures var later := ExecuteTable(t, steps);
            Admit(later, newId, cap, ScheduledRequest(runType, kind, symbol, b, iso, body, correlation'), policies)
            == (later, Ok(Admitted(id, true)))
  {
    NoCutoffBetweenMeansSameCutoff(c, first, second, a, b);
    BoundKeyIsReplayed(t, steps, id, newId, cap,
                       ScheduledRequest(runType, kind, symbol, b, iso, body, correlation'), policies);
  }
}
