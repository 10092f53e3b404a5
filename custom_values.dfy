/** The table shape shared by assets_properties and persons_attributes
    (internal/repository/asset_property.go, internal/repository/person_attribute.go):
    rows linking an owner (an asset or a person) to a definition (a property or
    an attribute) with a text value, soft-deleted by a tombstone time. The two
    repositories run the same statements over their own table; the statements
    are modelled here once as functions of the table, and each repository's
    class applies them to its own rows. */
module CustomValues {
  import opened Common

  datatype ValueRow = ValueRow(id: int, ownerId: int, definitionId: int, value: string, deletedAt: Option<int>)

  /** `deleted_at IS NULL` */
  predicate Live(r: ValueRow) {
    r.deletedAt.None?
  }

  /** The row of a live (owner, definition) pair. */
  predicate LivePair(r: ValueRow, ownerId: int, definitionId: int) {
    Live(r) && r.ownerId == ownerId && r.definitionId == definitionId
  }

  /** At most one live row per (owner, definition) pair. */
  ghost predicate UniqueLive(rows: seq<ValueRow>) {
    forall i, j :: 0 <= i < |rows| && 0 <= j < |rows| && i != j && Live(rows[i]) && Live(rows[j]) ==>
      rows[i].ownerId != rows[j].ownerId || rows[i].definitionId != rows[j].definitionId
  }

  /** Every row has its own id. */
  ghost predicate UniqueIds(rows: seq<ValueRow>) {
    forall i, j :: 0 <= i < |rows| && 0 <= j < |rows| && i != j ==> rows[i].id != rows[j].id
  }

  /** Ids strictly increase along the rows and stay in [1, bound): what the
      AUTO_INCREMENT column guarantees. */
  ghost predicate IdsBelow(rows: seq<ValueRow>, bound: int) {
    && (forall i :: 0 <= i < |rows| ==> 1 <= rows[i].id < bound)
    && (forall i, j :: 0 <= i < j < |rows| ==> rows[i].id < rows[j].id)
  }

  /** An UPDATE that never writes the id column keeps the id order. */
  lemma SameIds(rows: seq<ValueRow>, rows': seq<ValueRow>, bound: int)
    requires IdsBelow(rows, bound)
    requires |rows'| == |rows| && forall i :: 0 <= i < |rows| ==> rows'[i].id == rows[i].id
    ensures IdsBelow(rows', bound)
  {
  }

  /** Upsert's existence query: the first live row of the pair, if any. */
  function FindLive(rows: seq<ValueRow>, ownerId: int, definitionId: int): (r: Option<ValueRow>)
    ensures r.Some? ==> r.value in rows && LivePair(r.value, ownerId, definitionId)
    ensures r.None? <==> forall x :: x in rows ==> !LivePair(x, ownerId, definitionId)
  {
    if |rows| == 0 then None
    else if LivePair(rows[0], ownerId, definitionId) then Some(rows[0])
    else
      assert rows == [rows[0]] + rows[1..];
      FindLive(rows[1..], ownerId, definitionId)
  }

  /** GetByID: the live row with that id, or the repository's not-found error. */
  function GetByID(rows: seq<ValueRow>, id: int, notFound: Error): (r: Result<ValueRow>)
    ensures r.Ok? ==> r.value in rows && r.value.id == id && Live(r.value)
    ensures r.Err? ==> r.error == notFound && forall x :: x in rows && x.id == id ==> !Live(x)
  {
    if |rows| == 0 then Err(notFound)
    else if rows[0].id == id && Live(rows[0]) then Ok(rows[0])
    else
      assert rows == [rows[0]] + rows[1..];
      GetByID(rows[1..], id, notFound)
  }

  /** GetByAssetID / GetByPersonID: the owner's live rows, in table order. */
  function GetByOwner(rows: seq<ValueRow>, ownerId: int): (r: seq<ValueRow>)
    ensures forall x :: x in r <==> x in rows && Live(x) && x.ownerId == ownerId
    ensures multiset(r) <= multiset(rows)
  {
    if |rows| == 0 then []
    else
      var init, last := rows[..|rows| - 1], rows[|rows| - 1];
      assert rows == init + [last];
      GetByOwner(init, ownerId) + (if Live(last) && last.ownerId == ownerId then [last] else [])
  }

  /** The row Create inserts. */
  function NewRow(id: int, ownerId: int, definitionId: int, value: string): ValueRow {
    ValueRow(id, ownerId, definitionId, value, None)
  }

  /** The UPDATE of Update: only the value of the live row with that id changes. */
  function ValueSet(rows: seq<ValueRow>, id: int, value: string): (rows': seq<ValueRow>)
    ensures |rows'| == |rows|
    ensures forall i :: 0 <= i < |rows| && rows[i].id == id && Live(rows[i]) ==> rows'[i] == rows[i].(value := value)
    ensures forall i :: 0 <= i < |rows| && (rows[i].id != id || !Live(rows[i])) ==> rows'[i] == rows[i]
  {
    seq(|rows|, i requires 0 <= i < |rows| =>
      if rows[i].id == id && Live(rows[i]) then rows[i].(value := value) else rows[i])
  }

  /** The UPDATE of Delete: the live row with that id is tombstoned at `now`. */
  function Deleted(rows: seq<ValueRow>, id: int, now: int): (rows': seq<ValueRow>)
    ensures |rows'| == |rows|
    ensures forall i :: 0 <= i < |rows| && rows[i].id == id && Live(rows[i]) ==> rows'[i] == rows[i].(deletedAt := Some(now))
    ensures forall i :: 0 <= i < |rows| && (rows[i].id != id || !Live(rows[i])) ==> rows'[i] == rows[i]
  {
    seq(|rows|, i requires 0 <= i < |rows| =>
      if rows[i].id == id && Live(rows[i]) then rows[i].(deletedAt := Some(now)) else rows[i])
  }

  /** The UPDATE of DeleteByAssetID / DeleteByPersonID: every live row of the
      owner is tombstoned at `now`; no row of another owner changes. */
  function DeletedByOwner(rows: seq<ValueRow>, ownerId: int, now: int): (rows': seq<ValueRow>)
    ensures |rows'| == |rows|
    ensures forall i :: 0 <= i < |rows| && rows[i].ownerId == ownerId && Live(rows[i]) ==> rows'[i] == rows[i].(deletedAt := Some(now))
    ensures forall i :: 0 <= i < |rows| && (rows[i].ownerId != ownerId || !Live(rows[i])) ==> rows'[i] == rows[i]
  {
    seq(|rows|, i requires 0 <= i < |rows| =>
      if rows[i].ownerId == ownerId && Live(rows[i]) then rows[i].(deletedAt := Some(now)) else rows[i])
  }

  /** Upsert as a function of the table and the next id: the new table and the
      id written back to the caller's record. */
  function Upserted(rows: seq<ValueRow>, nextId: int, ownerId: int, definitionId: int, value: string): (seq<ValueRow>, int) {
    match FindLive(rows, ownerId, definitionId)
    case Some(existing) => (ValueSet(rows, existing.id, value), existing.id)
    case None => (rows + [NewRow(nextId, ownerId, definitionId, value)], nextId)
  }

  // -----------------------------------------------------------------------
  // Properties

  /** Upsert never adds a second live row for a pair: it keeps the table's
      one-live-row-per-pair invariant, as long as the next id is fresh. */
  lemma UpsertKeepsUniqueLive(rows: seq<ValueRow>, nextId: int, ownerId: int, definitionId: int, value: string)
    requires UniqueLive(rows)
    ensures UniqueLive(Upserted(rows, nextId, ownerId, definitionId, value).0)
  {
    var rows' := Upserted(rows, nextId, ownerId, definitionId, value).0;
    match FindLive(rows, ownerId, definitionId)
    case Some(existing) =>
      forall i, j | 0 <= i < |rows'| && 0 <= j < |rows'| && i != j && Live(rows'[i]) && Live(rows'[j])
        ensures rows'[i].ownerId != rows'[j].ownerId || rows'[i].definitionId != rows'[j].definitionId
      {
        assert Live(rows[i]) && Live(rows[j]);
      }
    case None =>
      forall i, j | 0 <= i < |rows'| && 0 <= j < |rows'| && i != j && Live(rows'[i]) && Live(rows'[j])
        ensures rows'[i].ownerId != rows'[j].ownerId || rows'[i].definitionId != rows'[j].definitionId
      {
        if i == |rows| {
          assert rows'[j] == rows[j] && rows[j] in rows;
        } else if j == |rows| {
          assert rows'[i] == rows[i] && rows[i] in rows;
        } else {
          assert rows'[i] == rows[i] && rows'[j] == rows[j];
        }
      }
  }

  /** After an upsert on a table with unique ids, the pair's live row (the one
      the existence query finds) holds the new value and the returned id; an
      update keeps every row in place, an insert appends exactly one. */
  lemma UpsertStoresValue(rows: seq<ValueRow>, nextId: int, ownerId: int, definitionId: int, value: string)
    requires UniqueIds(rows)
    requires forall x :: x in rows ==> x.id < nextId
    ensures var (rows', id) := Upserted(rows, nextId, ownerId, definitionId, value);
            && FindLive(rows', ownerId, definitionId) == Some(ValueRow(id, ownerId, definitionId, value, None))
            && (FindLive(rows, ownerId, definitionId).Some? ==> |rows'| == |rows| && id < nextId)
            && (FindLive(rows, ownerId, definitionId).None? ==> rows' == rows + [NewRow(nextId, ownerId, definitionId, value)] && id == nextId)
  {
    var (rows', id) := Upserted(rows, nextId, ownerId, definitionId, value);
    match FindLive(rows, ownerId, definitionId)
    case Some(existing) =>
      FindLiveUpdated(rows, ownerId, definitionId, value);
    case None =>
      FindLiveAppended(rows, NewRow(nextId, ownerId, definitionId, value));
  }

  /** Setting the value of the pair's found row leaves it the found row. */
  lemma {:induction false} FindLiveUpdated(rows: seq<ValueRow>, ownerId: int, definitionId: int, value: string)
    requires UniqueIds(rows)
    requires FindLive(rows, ownerId, definitionId).Some?
    ensures var existing := FindLive(rows, ownerId, definitionId).value;
            FindLive(ValueSet(rows, existing.id, value), ownerId, definitionId) == Some(existing.(value := value))
  {
    var existing := FindLive(rows, ownerId, definitionId).value;
    var rows' := ValueSet(rows, existing.id, value);
    if LivePair(rows[0], ownerId, definitionId) {
      assert rows'[0] == existing.(value := value);
    } else {
      var tail := rows[1..];
      assert FindLive(tail, ownerId, definitionId) == Some(existing);
      UniqueIdsTail(rows);
      FindLiveUpdated(tail, ownerId, definitionId, value);
      ValueSetTail(rows, existing, value);
    }
  }

  /** Dropping the first row keeps ids unique. */
  lemma UniqueIdsTail(rows: seq<ValueRow>)
    requires UniqueIds(rows) && |rows| > 0
    ensures UniqueIds(rows[1..])
  {
    forall i, j | 0 <= i < |rows| - 1 && 0 <= j < |rows| - 1 && i != j
      ensures rows[1..][i].id != rows[1..][j].id
    {
      assert rows[1..][i] == rows[i + 1] && rows[1..][j] == rows[j + 1];
    }
  }

  /** When a later row carries the id, setting its value leaves the first row
      alone and sets it within the rest. */
  lemma ValueSetTail(rows: seq<ValueRow>, existing: ValueRow, value: string)
    requires UniqueIds(rows) && |rows| > 0 && existing in rows[1..]
    ensures ValueSet(rows, existing.id, value) == [rows[0]] + ValueSet(rows[1..], existing.id, value)
  {
    assert rows[0].id != existing.id by {
      var k :| 0 <= k < |rows[1..]| && rows[1..][k] == existing;
      assert rows[k + 1] == existing;
    }
    var rows' := ValueSet(rows, existing.id, value);
    var t := ValueSet(rows[1..], existing.id, value);
    assert rows'[0] == rows[0];
    forall k | 0 <= k < |t| ensures rows'[k + 1] == t[k] {
      assert rows[1..][k] == rows[k + 1];
    }
  }

  /** With no live row for the pair, an appended live row of the pair is the one found. */
  lemma {:induction false} FindLiveAppended(rows: seq<ValueRow>, r: ValueRow)
    requires LivePair(r, r.ownerId, r.definitionId)
    requires FindLive(rows, r.ownerId, r.definitionId).None?
    ensures FindLive(rows + [r], r.ownerId, r.definitionId) == Some(r)
  {
    if |rows| > 0 {
      assert (rows + [r])[1..] == rows[1..] + [r];
      assert rows[0] in rows;
      assert forall x :: x in rows[1..] ==> x in rows;
      FindLiveAppended(rows[1..], r);
    }
  }

  /** Create is a plain insert: unlike Upsert, it can give a pair a second live row. */
  lemma CreateCanDuplicatePair()
    ensures var rows := [NewRow(1, 1, 1, "a")];
            && UniqueLive(rows)
            && !UniqueLive(rows + [NewRow(2, 1, 1, "b")])
  {
    var rows' := [NewRow(1, 1, 1, "a")] + [NewRow(2, 1, 1, "b")];
    assert Live(rows'[0]) && Live(rows'[1]);
  }

  /** Deleting twice is deleting once. */
  lemma DeleteIdempotent(rows: seq<ValueRow>, id: int, now: int, later: int)
    ensures Deleted(Deleted(rows, id, now), id, later) == Deleted(rows, id, now)
  {
  }

  /** A deleted row is no longer found by id, and deleting keeps the invariant. */
  lemma DeleteHides(rows: seq<ValueRow>, id: int, now: int, notFound: Error)
    ensures GetByID(Deleted(rows, id, now), id, notFound) == Err(notFound)
    ensures UniqueLive(rows) ==> UniqueLive(Deleted(rows, id, now))
  {
    var rows' := Deleted(rows, id, now);
    if UniqueLive(rows) {
      forall i, j | 0 <= i < |rows'| && 0 <= j < |rows'| && i != j && Live(rows'[i]) && Live(rows'[j])
        ensures rows'[i].ownerId != rows'[j].ownerId || rows'[i].definitionId != rows'[j].definitionId
      {
        assert rows'[i] == rows[i] && rows'[j] == rows[j];
      }
    }
  }

  /** After deleting by owner the owner has no live rows left and every other
      owner's rows read the same. */
  lemma DeleteByOwnerScope(rows: seq<ValueRow>, ownerId: int, now: int)
    ensures GetByOwner(DeletedByOwner(rows, ownerId, now), ownerId) == []
    ensures forall other :: other != ownerId ==>
              GetByOwner(DeletedByOwner(rows, ownerId, now), other) == GetByOwner(rows, other)
  {
    var rows' := DeletedByOwner(rows, ownerId, now);
    forall other | other != ownerId
      ensures GetByOwner(rows', other) == GetByOwner(rows, other)
    {
      GetByOwnerSame(rows, rows', other);
    }
  }

  /** Deleting by owner keeps the invariant. */
  lemma DeleteByOwnerKeepsUniqueLive(rows: seq<ValueRow>, ownerId: int, now: int)
    requires UniqueLive(rows)
    ensures UniqueLive(DeletedByOwner(rows, ownerId, now))
  {
    var rows' := DeletedByOwner(rows, ownerId, now);
    forall i, j | 0 <= i < |rows'| && 0 <= j < |rows'| && i != j && Live(rows'[i]) && Live(rows'[j])
      ensures rows'[i].ownerId != rows'[j].ownerId || rows'[i].definitionId != rows'[j].definitionId
    {
      assert rows'[i] == rows[i] && rows'[j] == rows[j];
    }
  }

  /** Two tables that agree on the rows of an owner list the same rows for it. */
  lemma {:induction false} GetByOwnerSame(rows: seq<ValueRow>, rows': seq<ValueRow>, ownerId: int)
    requires |rows'| == |rows|
    requires forall i :: 0 <= i < |rows| && (rows[i].ownerId == ownerId || rows'[i].ownerId == ownerId) ==>
               rows'[i] == rows[i]
    requires forall i :: 0 <= i < |rows| ==> rows'[i].ownerId == rows[i].ownerId
    ensures GetByOwner(rows', ownerId) == GetByOwner(rows, ownerId)
  {
    if |rows| > 0 {
      var n := |rows| - 1;
      GetByOwnerSame(rows[..n], rows'[..n], ownerId);
    }
  }
}
