/** Reading corporate actions as of a time: which version of each identity is shown, and what it replaces. */
module RevisionReader {
  import opened Wrappers
  import opened Revisions

  /* ---------- the rows read ---------- */

  predicate Known(v: Version, symbol: string, asOf: int) {
    v.symbol == symbol && v.availableAt <= asOf
  }

  // Not shown before it is in effect.
  predicate Eligible(v: Version, symbol: string, asOf: int) {
    Known(v, symbol, asOf) && v.effectiveAt <= asOf
  }

  ghost predicate InOrder(s: seq<Version>) {
    forall i, j :: 0 <= i < j < |s| ==> s[i].availableAt <= s[j].availableAt
  }

  // Rows of equal availability stay in insertion order.
  function Placed(s: seq<Version>, v: Version): (r: seq<Version>)
    requires InOrder(s)
    ensures InOrder(r) && forall u :: u in r <==> u in s || u == v
  {
    if s == [] || s[|s| - 1].availableAt <= v.availableAt then s + [v]
    else
      var front, last := s[..|s| - 1], s[|s| - 1];
      var placed := Placed(front, v);
      assert forall u :: u in placed ==> u.availableAt <= last.availableAt;
      assert s == front + [last];
      placed + [last]
  }

  function KnownRows(t: Table, symbol: string, asOf: int): (r: seq<Version>)
    ensures InOrder(r) && forall v :: v in r <==> v in t && Known(v, symbol, asOf)
  {
    if t == [] then []
    else
      var front, last := t[..|t| - 1], t[|t| - 1];
      assert t == front + [last];
      if Known(last, symbol, asOf) then Placed(KnownRows(front, symbol, asOf), last) else KnownRows(front, symbol, asOf)
  }

  // The shown version of an identity: eligible, and none eligible is available later.
  ghost predicate Shown(t: Table, symbol: string, asOf: int, k: Identity, v: Version) {
    && v in t && v.identity == k && v.symbol == symbol && v.availableAt <= asOf && v.effectiveAt <= asOf
    && forall u :: u in t && u.identity == k && u.symbol == symbol && u.availableAt <= asOf && u.effectiveAt <= asOf
                   ==> u.availableAt <= v.availableAt
  }

  // One pass over the known rows in order of availability, later rows replacing earlier ones.
  method Visible(t: Table, symbol: string, asOf: int) returns (latest: map<Identity, Version>)
    ensures forall k :: k in latest ==> Shown(t, symbol, asOf, k, latest[k])
    ensures forall v :: v in t && v.symbol == symbol && v.availableAt <= asOf && v.effectiveAt <= asOf
                        ==> v.identity in latest
  {
    var rows := KnownRows(t, symbol, asOf);
    latest := map[];
    var i := 0;
    while i < |rows|
      invariant 0 <= i <= |rows|
      invariant forall k :: k in latest ==>
                  && latest[k] in rows[..i] && latest[k].identity == k && latest[k].effectiveAt <= asOf
                  && forall u :: u in rows[..i] && u.identity == k && u.effectiveAt <= asOf
                       ==> u.availableAt <= latest[k].availableAt
      invariant forall u :: u in rows[..i] && u.effectiveAt <= asOf ==> u.identity in latest
    {
      var row := rows[i];
      assert rows[..i + 1] == rows[..i] + [row];
      assert forall u :: u in rows[..i] ==> u.availableAt <= row.availableAt;
      if row.effectiveAt <= asOf {
        latest := latest[row.identity := row];
      }
      i := i + 1;
    }
    assert rows[..|rows|] == rows;
  }

  lemma ShownIsUnique(t: Table, symbol: string, asOf: int, k: Identity, u: Version, v: Version)
    requires Valid(t) && Shown(t, symbol, asOf, k, u) && Shown(t, symbol, asOf, k, v)
    ensures u == v
  {
    var c := Chain(t, k);
    assert IsChain(c) && u in c && v in c;
    var i :| 0 <= i < |c| && c[i] == u;
    var j :| 0 <= j < |c| && c[j] == v;
    if i < j {
      assert c[i].availableAt < c[j].availableAt;
    } else if j < i {
      assert c[j].availableAt < c[i].availableAt;
    }
  }

  // The version shown is the current one exactly when the current one is about this symbol and in effect.
  lemma ShownIsCurrentExactly(t: Table, symbol: string, asOf: int, v: Version, current: Version)
    requires Valid(t) && Shown(t, symbol, asOf, current.identity, v) && CurrentAt(t, current, asOf)
    ensures CurrentAt(t, v, asOf) <==> current.symbol == symbol && current.effectiveAt <= asOf
  {
    hide Chain, IsChain;
    var k := current.identity;
    CurrentVersionIsUnique(t, k, current, asOf);
    CurrentVersionIsUnique(t, k, v, asOf);
    if Eligible(current, symbol, asOf) {
      NothingAvailableIsLater(t, current, asOf);
      ShownIsUnique(t, symbol, asOf, k, current, v);
    }
  }

  lemma NothingAvailableIsLater(t: Table, current: Version, time: int)
    requires Valid(t) && CurrentAt(t, current, time)
    ensures forall u :: u in t && u.identity == current.identity && u.availableAt <= time
                        ==> u.availableAt <= current.availableAt
  {
    hide Chain;
    CurrentIsLastAvailable(t, current, time);
    var c := Chain(t, current.identity);
    assert IsChain(c);
    AvailableArePrefix(c, time);
    forall u | u in t && u.identity == current.identity && u.availableAt <= time
      ensures u.availableAt <= current.availableAt
    {
      assert u in c;
      var i :| 0 <= i < |c| && c[i] == u;
    }
  }

  // A correction that moves the action to another symbol leaves the superseded version on show.
  lemma CorrectionToAnotherSymbolKeepsTheOld(k: Identity)
    ensures var first := Version(1, k, "OLD", None, 10, 0);
            var fixed := Version(2, k, "NEW", Some(1), 20, 0);
            var t := InsertAll([first, fixed]);
            && t == [first, fixed]
            && Shown(t, "OLD", 30, k, first) && CurrentAt(t, fixed, 30) && !CurrentAt(t, first, 30)
  {
    var first := Version(1, k, "OLD", None, 10, 0);
    var fixed := Version(2, k, "NEW", Some(1), 20, 0);
    assert [first, fixed][..1] == [first] && [first][..0] == [];
    assert InsertAll([]) == [];
    assert Insert([], first) == Ok([] + [first]);
    assert InsertAll([first]) == [first];
    assert Head([first], k) == Some(first);
    assert Insert([first], fixed) == Ok([first] + [fixed]);
    var t := InsertAll([first, fixed]);
    assert t == [first, fixed];
    assert fixed in t && first in t;
  }

  /* ---------- what a version replaces ---------- */

  // The ids reached through supersedes, stopping at a row that is not known and at a repeated id.
  function Ancestors(rows: map<nat, Version>, current: Option<nat>, seen: set<nat>): set<nat>
    decreases rows.Keys - seen, current.Some?
  {
    if current.None? || current.value in seen then seen
    else if current.value in rows then
      assert current.value in rows.Keys - seen;
      Ancestors(rows, rows[current.value].supersedes, seen + {current.value})
    else Ancestors(rows, None, seen + {current.value})
  }

  method SupersedesChain(rows: map<nat, Version>, row: Version) returns (seen: set<nat>)
    ensures seen == Ancestors(rows, row.supersedes, {})
  {
    seen := {};
    var current := row.supersedes;
    while current.Some? && current.value !in seen
      invariant Ancestors(rows, current, seen) == Ancestors(rows, row.supersedes, {})
      decreases rows.Keys - seen, current.Some?
    {
      var id := current.value;
      assert id in rows ==> id in rows.Keys - seen;
      seen := seen + {id};
      current := if id in rows then rows[id].supersedes else None;
    }
  }

  function IdsOf(c: seq<Version>): set<nat> {
    set v | v in c :: v.id
  }

  // For a version whose predecessors are known, these are exactly the ids of its chain before it.
  lemma AncestorsAreTheChain(t: Table, k: Identity, i: nat, rows: map<nat, Version>)
    requires Valid(t) && i < |Chain(t, k)|
    requires forall j :: 0 <= j < i ==> Chain(t, k)[j].id in rows && rows[Chain(t, k)[j].id] == Chain(t, k)[j]
    ensures Ancestors(rows, Chain(t, k)[i].supersedes, {}) == IdsOf(Chain(t, k)[..i])
    ensures Chain(t, k)[i].id !in IdsOf(Chain(t, k)[..i])
  {
    hide Chain;
    var c := Chain(t, k);
    assert IsChain(c);
    ChainIdsDiffer(t, k);
    WalkBack(c, i, i, rows);
    assert c[i..i] == [];
    assert IdsOf([]) == {};
  }

  lemma ChainIdsDiffer(t: Table, k: Identity)
    requires Valid(t)
    ensures var c := Chain(t, k); forall i, j :: 0 <= i < j < |c| ==> c[i].id != c[j].id
  {
    hide Chain;
    var c := Chain(t, k);
    assert IsChain(c);
    forall i, j | 0 <= i < j < |c|
      ensures c[i].id != c[j].id
    {
      assert c[i] in t && c[j] in t && c[i].availableAt < c[j].availableAt;
      if c[i].id == c[j].id {
        SameIdSameVersion(t, c[i], c[j]);
      }
    }
  }

  lemma OneMoreId(c: seq<Version>, j: nat, i: nat)
    requires 0 < j <= i < |c|
    requires forall a, b :: 0 <= a < b < |c| ==> c[a].id != c[b].id
    ensures c[j - 1].id !in IdsOf(c[j..i])
    ensures IdsOf(c[j - 1..i]) == IdsOf(c[j..i]) + {c[j - 1].id}
  {
    assert c[j - 1..i] == [c[j - 1]] + c[j..i];
  }

  lemma {:induction false} WalkBack(c: seq<Version>, j: nat, i: nat, rows: map<nat, Version>)
    requires IsChain(c) && j <= i < |c|
    requires forall a, b :: 0 <= a < b < |c| ==> c[a].id != c[b].id
    requires forall a :: 0 <= a < i ==> c[a].id in rows && rows[c[a].id] == c[a]
    ensures Ancestors(rows, c[j].supersedes, IdsOf(c[j..i])) == IdsOf(c[..i])
  {
    if j == 0 {
      assert c[0..i] == c[..i];
    } else {
      var seen := IdsOf(c[j..i]);
      assert c[j].supersedes == Some(c[j - 1].id);
      OneMoreId(c, j, i);
      hide IdsOf;
      WalkBack(c, j - 1, i, rows);
    }
  }
}
