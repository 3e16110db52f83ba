/** The corporate_action table as mutable state, with the guard run before each append. */
module RevisionStore {
  import opened Wrappers
  import opened Revisions

  class ActionTable {
    var rows: Table

    constructor ()
      ensures rows == [] && Valid(rows)
    {
      rows := [];
      EveryHistoryIsValid([]);
    }

    method LatestVersion(k: Identity) returns (previous: Option<Version>)
      ensures previous == Head(rows, k)
    {
      previous := None;
      var i := 0;
      assert rows[..0] == [];
      while i < |rows|
        invariant 0 <= i <= |rows| && previous == Head(rows[..i], k)
      {
        assert rows[..i + 1][..i] == rows[..i];
        var row := rows[i];
        if row.identity == k && (previous.None? || row.availableAt >= previous.value.availableAt) {
          previous := Some(row);
        }
        i := i + 1;
      }
      assert rows[..|rows|] == rows;
    }

    // A row is appended or refused whole; either way every identity remains one chain.
    method InsertVersion(v: Version) returns (refusal: Option<Rejection>)
      requires Valid(rows)
      modifies this
      ensures Valid(rows)
      ensures refusal.None? ==> rows == old(rows) + [v] && Insert(old(rows), v).Ok?
      ensures refusal.Some? ==> rows == old(rows) && Insert(old(rows), v) == Err(refusal.value)
    {
      hide Valid;
      var previous := LatestVersion(v.identity);
      if previous.Some? {
        if v.supersedes.None? || v.supersedes.value != previous.value.id {
          return Some(MustSupersedeLatest);
        }
        if v.availableAt <= previous.value.availableAt {
          return Some(AvailabilityMustIncrease);
        }
      } else if v.supersedes.Some? {
        return Some(FirstCannotSupersede);
      }
      if v.supersedes == Some(v.id) {
        return Some(SupersedesItself);
      }
      if exists i :: 0 <= i < |rows| && rows[i].id == v.id {
        return Some(DuplicateId);
      }
      InsertStaysValid(rows, v);
      rows := rows + [v];
      refusal := None;
    }
  }
}
