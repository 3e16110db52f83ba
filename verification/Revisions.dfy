/** Versions of corporate actions: the guard run before each insert, and the chains every table consists of. */
module Revisions {
  import opened Wrappers

  datatype Identity = Identity(provider: string, actionId: string)

  datatype Version = Version(id: nat, identity: Identity, symbol: string, supersedes: Option<nat>, availableAt: int,
                             effectiveAt: int)

  // In insertion order.
  type Table = seq<Version>

  datatype Rejection =
    | MustSupersedeLatest
    | AvailabilityMustIncrease
    | FirstCannotSupersede
    | SupersedesItself
    | DuplicateId

  // ORDER BY available_at DESC, created_at DESC LIMIT 1
  function Head(t: Table, k: Identity): (r: Option<Version>)
    ensures r.Some? ==> r.value in t && r.value.identity == k
  {
    if t == [] then None
    else
      var before, last := Head(t[..|t| - 1], k), t[|t| - 1];
      if last.identity != k then before
      else if before.None? || last.availableAt >= before.value.availableAt then Some(last)
      else before
  }

  // The trigger, which may refuse the row.
  function ValidateRevision(t: Table, v: Version): Option<Rejection> {
    var previous := Head(t, v.identity);
    if previous.Some? then
      if v.supersedes != Some(previous.value.id) then Some(MustSupersedeLatest)
      else if v.availableAt <= previous.value.availableAt then Some(AvailabilityMustIncrease)
      else None
    else if v.supersedes.Some? then Some(FirstCannotSupersede)
    else None
  }

  // The guard, then the table's own constraints.
  function Insert(t: Table, v: Version): Result<Table, Rejection> {
    var refusal := ValidateRevision(t, v);
    if refusal.Some? then Err(refusal.value)
    else if v.supersedes == Some(v.id) then Err(SupersedesItself)
    else if exists i :: 0 <= i < |t| && t[i].id == v.id then Err(DuplicateId)
    else Ok(t + [v])
  }

  // A refused row leaves the table as it was.
  function InsertAll(rows: seq<Version>): Table {
    if rows == [] then []
    else
      var before := InsertAll(rows[..|rows| - 1]);
      var r := Insert(before, rows[|rows| - 1]);
      if r.Ok? then r.value else before
  }

  function Chain(t: Table, k: Identity): (c: seq<Version>)
    ensures forall v :: v in c <==> v in t && v.identity == k
  {
    if t == [] then []
    else
      var last := t[|t| - 1];
      assert t == t[..|t| - 1] + [last];
      Chain(t[..|t| - 1], k) + if last.identity == k then [last] else []
  }

  // Each version supersedes the one before it and becomes available strictly later.
  ghost predicate IsChain(c: seq<Version>) {
    && (c != [] ==> c[0].supersedes == None)
    && (forall i :: 0 < i < |c| ==> c[i].supersedes == Some(c[i - 1].id))
    && (forall i, j :: 0 <= i < j < |c| ==> c[i].availableAt < c[j].availableAt)
  }

  ghost predicate IdsUnique(t: Table) {
    forall i, j :: 0 <= i < j < |t| ==> t[i].id != t[j].id
  }

  ghost predicate Valid(t: Table) {
    IdsUnique(t) && forall k :: IsChain(Chain(t, k))
  }

  lemma ChainGrows(t: Table, v: Version, k: Identity)
    ensures Chain(t + [v], k) == if v.identity == k then Chain(t, k) + [v] else Chain(t, k)
  {
    assert (t + [v])[..|t|] == t;
  }

  // The head the guard compares with is the end of the chain.
  lemma {:induction false} HeadIsChainEnd(t: Table, k: Identity)
    requires IsChain(Chain(t, k))
    ensures Head(t, k) == if Chain(t, k) == [] then None else Some(Chain(t, k)[|Chain(t, k)| - 1])
  {
    hide Chain, IsChain;
    if t != [] {
      var front, last := t[..|t| - 1], t[|t| - 1];
      assert t == front + [last];
      ChainGrows(front, last, k);
      if last.identity == k {
        ChainShrinks(Chain(front, k), last);
      }
      HeadIsChainEnd(front, k);
    } else {
      NoRowsNoChain(k);
    }
  }

  lemma NoRowsNoChain(k: Identity)
    ensures Chain([], k) == []
  {
  }

  lemma ChainShrinks(c: seq<Version>, v: Version)
    requires IsChain(c + [v])
    ensures IsChain(c) && (c != [] ==> c[|c| - 1].availableAt < v.availableAt)
  {
    assert forall i :: 0 <= i < |c| ==> (c + [v])[i] == c[i];
    assert (c + [v])[|c|] == v;
  }

  lemma ChainExtends(c: seq<Version>, v: Version)
    requires IsChain(c)
    requires v.supersedes == if c == [] then None else Some(c[|c| - 1].id)
    requires c != [] ==> v.availableAt > c[|c| - 1].availableAt
    ensures IsChain(c + [v])
  {
  }

  lemma InsertStaysValid(t: Table, v: Version)
    requires Valid(t) && Insert(t, v).Ok?
    ensures Valid(t + [v])
  {
    hide IsChain, Head, Chain;
    forall k
      ensures IsChain(Chain(t + [v], k))
    {
      ChainGrows(t, v, k);
      HeadIsChainEnd(t, k);
      if v.identity == k {
        ChainExtends(Chain(t, k), v);
      }
    }
  }

  // Whatever is inserted in whatever order, every identity holds one chain in insertion order.
  lemma {:induction false} EveryHistoryIsValid(rows: seq<Version>)
    ensures Valid(InsertAll(rows))
  {
    if rows != [] {
      EveryHistoryIsValid(rows[..|rows| - 1]);
      hide Valid;
      if Insert(InsertAll(rows[..|rows| - 1]), rows[|rows| - 1]).Ok? {
        InsertStaysValid(InsertAll(rows[..|rows| - 1]), rows[|rows| - 1]);
      }
    } else {
      assert forall k :: Chain([], k) == [];
    }
  }

  // A version is accepted exactly when it continues its own chain with a new id.
  lemma AcceptedExactlyAtTheEnd(t: Table, v: Version)
    requires Valid(t)
    ensures var c := Chain(t, v.identity);
            Insert(t, v).Ok? <==>
              (&& v.supersedes == (if c == [] then None else Some(c[|c| - 1].id))
               && (c != [] ==> v.availableAt > c[|c| - 1].availableAt)
               && forall u :: u in t ==> u.id != v.id)
  {
    hide IsChain, Head;
    HeadIsChainEnd(t, v.identity);
    var c := Chain(t, v.identity);
    assert c != [] ==> c[|c| - 1] in t;
  }

  // A refusal names the first check that fails.
  lemma RefusalsAreExact(t: Table, v: Version)
    requires Valid(t)
    ensures var (c, r) := (Chain(t, v.identity), Insert(t, v));
            && (r == Err(MustSupersedeLatest) <==> c != [] && v.supersedes != Some(c[|c| - 1].id))
            && (r == Err(AvailabilityMustIncrease) <==>
                  c != [] && v.supersedes == Some(c[|c| - 1].id) && v.availableAt <= c[|c| - 1].availableAt)
            && (r == Err(FirstCannotSupersede) <==> c == [] && v.supersedes.Some?)
            && (r == Err(DuplicateId) || r == Err(SupersedesItself) ==> exists u :: u in t && u.id == v.id)
            && (r.Ok? ==> r.value == t + [v])
  {
    hide IsChain, Head;
    HeadIsChainEnd(t, v.identity);
    var c := Chain(t, v.identity);
    assert c != [] ==> c[|c| - 1] in t;
  }

  // Two versions never supersede the same one, and a superseded version has the same identity and is older.
  lemma NoForkNoCrossing(t: Table, u: Version, v: Version)
    requires Valid(t) && u in t && v in t
    requires v.supersedes == Some(u.id)
    ensures u.identity == v.identity && u.availableAt < v.availableAt
    ensures forall w :: w in t && w.supersedes == Some(u.id) ==> w == v
  {
    hide Chain;
    var i := ParentIsPrevious(t, u, v);
    forall w | w in t && w.supersedes == Some(u.id)
      ensures w == v
    {
      var j := ParentIsPrevious(t, u, w);
      IndexIsUnique(t, u.identity, i, j);
    }
  }

  lemma ParentIsPrevious(t: Table, u: Version, v: Version) returns (i: nat)
    requires Valid(t) && u in t && v in t && v.supersedes == Some(u.id)
    ensures u.identity == v.identity
    ensures var c := Chain(t, u.identity);
            i + 1 < |c| && c[i] == u && c[i + 1] == v && u.availableAt < v.availableAt
  {
    hide Chain;
    var c := Chain(t, v.identity);
    assert v in c && IsChain(c);
    var j :| 0 <= j < |c| && c[j] == v;
    assert j > 0;
    i := j - 1;
    assert c[i] in t && c[i].id == u.id;
    SameIdSameVersion(t, c[i], u);
  }

  lemma SameIdSameVersion(t: Table, u: Version, v: Version)
    requires IdsUnique(t) && u in t && v in t && u.id == v.id
    ensures u == v
  {
    var i :| 0 <= i < |t| && t[i] == u;
    var j :| 0 <= j < |t| && t[j] == v;
    assert i == j;
  }

  lemma IndexIsUnique(t: Table, k: Identity, i: nat, j: nat)
    requires Valid(t)
    requires i < |Chain(t, k)| && j < |Chain(t, k)| && Chain(t, k)[i] == Chain(t, k)[j]
    ensures i == j
  {
    hide Chain;
    assert IsChain(Chain(t, k));
  }

  /* ---------- what is current at a time ---------- */

  // Available by then and not superseded by anything available by then.
  ghost predicate CurrentAt(t: Table, v: Version, time: int) {
    && v in t && v.availableAt <= time
    && forall w :: w in t && w.availableAt <= time ==> w.supersedes != Some(v.id)
  }

  // How many versions of a chain are available by then.
  function AvailableCount(c: seq<Version>, time: int): (n: nat)
    ensures n <= |c|
  {
    if c == [] || c[|c| - 1].availableAt <= time then |c| else AvailableCount(c[..|c| - 1], time)
  }

  lemma {:induction false} AvailableArePrefix(c: seq<Version>, time: int)
    requires IsChain(c)
    ensures forall i :: 0 <= i < |c| ==> (c[i].availableAt <= time <==> i < AvailableCount(c, time))
  {
    if c != [] && c[|c| - 1].availableAt > time {
      assert forall i :: 0 <= i < |c| - 1 ==> c[..|c| - 1][i] == c[i];
      AvailableArePrefix(c[..|c| - 1], time);
    } else if c != [] {
      assert forall i :: 0 <= i < |c| - 1 ==> c[i].availableAt < c[|c| - 1].availableAt;
    }
  }

  // At any time an identity has exactly one current version, the last of its chain available by then.
  lemma CurrentVersionIsUnique(t: Table, k: Identity, v: Version, time: int)
    requires Valid(t)
    ensures var c := Chain(t, k);
            var n := AvailableCount(c, time);
            v.identity == k && CurrentAt(t, v, time) <==> n > 0 && v == c[n - 1]
  {
    hide Chain, IsChain;
    if v.identity == k && CurrentAt(t, v, time) {
      CurrentIsLastAvailable(t, v, time);
    }
    if AvailableCount(Chain(t, k), time) > 0 {
      LastAvailableIsCurrent(t, k, AvailableCount(Chain(t, k), time), time);
    }
  }

  lemma CurrentIsLastAvailable(t: Table, v: Version, time: int)
    requires Valid(t) && CurrentAt(t, v, time)
    ensures var c := Chain(t, v.identity);
            AvailableCount(c, time) > 0 && v == c[AvailableCount(c, time) - 1]
  {
    hide Chain, IsChain;
    var c := Chain(t, v.identity);
    assert IsChain(c) && v in c;
    var n := AvailableCount(c, time);
    AvailableArePrefix(c, time);
    var i :| 0 <= i < |c| && c[i] == v;
    assert i < n;
    if i + 1 < n {
      SuccessorSupersedes(t, v.identity, i);
    }
  }

  lemma SuccessorSupersedes(t: Table, k: Identity, i: nat)
    requires Valid(t) && i + 1 < |Chain(t, k)|
    ensures Chain(t, k)[i + 1] in t && Chain(t, k)[i + 1].supersedes == Some(Chain(t, k)[i].id)
  {
    hide Chain;
    assert IsChain(Chain(t, k));
    assert Chain(t, k)[i + 1] in Chain(t, k);
  }

  lemma LastAvailableIsCurrent(t: Table, k: Identity, n: nat, time: int)
    requires Valid(t) && n == AvailableCount(Chain(t, k), time) && n > 0
    ensures CurrentAt(t, Chain(t, k)[n - 1], time)
  {
    hide Chain;
    var c := Chain(t, k);
    AvailableArePrefix(c, time);
    var v := c[n - 1];
    assert v in t;
    forall w | w in t && w.availableAt <= time
      ensures w.supersedes != Some(v.id)
    {
      if w.supersedes == Some(v.id) {
        var i := ParentIsPrevious(t, v, w);
      }
    }
  }

  // Inserting a version changes nothing that was current before the version became available.
  lemma PastStaysAsItWas(t: Table, v: Version, u: Version, time: int)
    requires Valid(t) && Insert(t, v).Ok? && time < v.availableAt
    ensures CurrentAt(t + [v], u, time) <==> CurrentAt(t, u, time)
  {
    assert forall w :: w in t + [v] <==> w in t || w == v;
  }
}
