/** The asset assignment ledger (internal/repository/asset_assignment.go): a
    table of per-asset holding intervals [effective_from, effective_to), with an
    absent end meaning open-ended, soft deletes, and a half-open overlap check
    run before inserts and updates.

    Times are integers (seconds); the clock is the parameter `now`. The
    created_at / updated_at bookkeeping columns and the joined asset and person
    names are not part of the model. */
module AssignmentLedger {
  import opened Common

  /** time.Now().AddDate(100, 0, 0) as an offset from now: 36524 days, the
      length of a Gregorian century without a fourth-century leap day. */
  const CENTURY: int := 36524 * 86400

  /** One row of asset_assignments. */
  datatype Assignment = Assignment(
    id: int, assetId: int, personId: int,
    from: int, to: Option<int>, notes: string,
    deletedAt: Option<int>)

  /** The models.AssetAssignment a client hands to Create and Update. */
  datatype Request = Request(id: int, assetId: int, personId: int, from: int, to: Option<int>, notes: string)

  /** Not soft-deleted: `deleted_at IS NULL`. */
  predicate Live(a: Assignment) {
    a.deletedAt.None?
  }

  /** `effective_to IS NULL OR effective_to > t` */
  predicate EndsAfter(to: Option<int>, t: int) {
    to.None? || to.value > t
  }

  /** The end Create and Update check against: the given end, or the far-future
      sentinel for an open-ended request. The stored end stays absent. */
  function CheckEnd(to: Option<int>, now: int): (end: int)
    ensures to.Some? ==> end == to.value
    ensures to.None? ==> end > now
  {
    if to.Some? then to.value else now + CENTURY
  }

  // -----------------------------------------------------------------------
  // CheckOverlap

  /** The WHERE clause of CheckOverlap, for one row. */
  predicate Conflicts(a: Assignment, assetId: int, from: int, to: int, excludeId: int) {
    a.assetId == assetId && Live(a) && a.id != excludeId && a.from < to && EndsAfter(a.to, from)
  }

  /** SELECT COUNT(*) ... */
  function CountConflicts(rows: seq<Assignment>, assetId: int, from: int, to: int, excludeId: int): (n: nat)
    ensures n > 0 <==> exists i :: 0 <= i < |rows| && Conflicts(rows[i], assetId, from, to, excludeId)
    ensures n <= |rows|
  {
    if |rows| == 0 then 0
    else
      var init := rows[..|rows| - 1];
      var n := CountConflicts(init, assetId, from, to, excludeId);
      assert forall i :: 0 <= i < |init| ==> init[i] == rows[i];
      n + (if Conflicts(rows[|rows| - 1], assetId, from, to, excludeId) then 1 else 0)
  }

  /** CheckOverlap: some live row of the asset, other than `excludeId`, starts
      before `to` and has not ended by `from`. */
  function CheckOverlap(rows: seq<Assignment>, assetId: int, from: int, to: int, excludeId: int): (overlap: bool)
    ensures overlap <==> exists i :: 0 <= i < |rows| && Conflicts(rows[i], assetId, from, to, excludeId)
  {
    CountConflicts(rows, assetId, from, to, excludeId) > 0
  }

  /** Touching intervals do not conflict: a row that ends exactly where the
      checked interval starts, or starts exactly where it ends, is no conflict. */
  lemma TouchingIsNoConflict(a: Assignment, from: int, to: int, excludeId: int)
    ensures a.to == Some(from) ==> !Conflicts(a, a.assetId, from, to, excludeId)
    ensures a.from == to ==> !Conflicts(a, a.assetId, from, to, excludeId)
  {
  }

  // -----------------------------------------------------------------------
  // The invariant: live intervals of one asset do not overlap.

  /** [a.from, a.to) and [b.from, b.to) share an instant. */
  predicate Overlap(a: Assignment, b: Assignment) {
    EndsAfter(b.to, a.from) && EndsAfter(a.to, b.from)
  }

  ghost predicate NoOverlap(rows: seq<Assignment>) {
    forall i, j ::
      (0 <= i < |rows| && 0 <= j < |rows| && i != j &&
       Live(rows[i]) && Live(rows[j]) && rows[i].assetId == rows[j].assetId) ==>
      !Overlap(rows[i], rows[j])
  }

  /** Every row has its own id. */
  ghost predicate UniqueIds(rows: seq<Assignment>) {
    forall i, j :: 0 <= i < |rows| && 0 <= j < |rows| && i != j ==> rows[i].id != rows[j].id
  }

  /** No live row of the asset starts at or after the far-future sentinel. */
  ghost predicate BeforeSentinel(rows: seq<Assignment>, assetId: int, now: int) {
    forall i :: 0 <= i < |rows| && Live(rows[i]) && rows[i].assetId == assetId ==> rows[i].from < now + CENTURY
  }

  /** The row Create inserts. */
  function NewRow(id: int, req: Request): Assignment {
    Assignment(id, req.assetId, req.personId, req.from, req.to, req.notes, None)
  }

  /** The check Create and Update run is exactly the overlap of the stored
      intervals, as long as no live row of the asset starts at or after the
      sentinel. */
  lemma ConflictIsOverlap(a: Assignment, req: Request, now: int, excludeId: int)
    requires Live(a) && a.assetId == req.assetId && a.id != excludeId
    requires a.from < now + CENTURY
    ensures Conflicts(a, req.assetId, req.from, CheckEnd(req.to, now), excludeId) <==> Overlap(a, NewRow(excludeId, req))
  {
  }

  /** Create keeps the invariant when its check passes. */
  lemma CreatePreservesNoOverlap(rows: seq<Assignment>, req: Request, now: int, id: int)
    requires NoOverlap(rows)
    requires !CheckOverlap(rows, req.assetId, req.from, CheckEnd(req.to, now), 0)
    requires BeforeSentinel(rows, req.assetId, now)
    requires forall i :: 0 <= i < |rows| ==> rows[i].id != 0
    ensures NoOverlap(rows + [NewRow(id, req)])
  {
    var rows' := rows + [NewRow(id, req)];
    forall i, j | 0 <= i < |rows'| && 0 <= j < |rows'| && i != j &&
        Live(rows'[i]) && Live(rows'[j]) && rows'[i].assetId == rows'[j].assetId
      ensures !Overlap(rows'[i], rows'[j])
    {
      if i == |rows| {
        assert rows'[j] == rows[j];
        ConflictIsOverlap(rows[j], req, now, 0);
        assert !Conflicts(rows[j], req.assetId, req.from, CheckEnd(req.to, now), 0);
      } else if j == |rows| {
        assert rows'[i] == rows[i];
        ConflictIsOverlap(rows[i], req, now, 0);
        assert !Conflicts(rows[i], req.assetId, req.from, CheckEnd(req.to, now), 0);
      } else {
        assert rows'[i] == rows[i] && rows'[j] == rows[j];
      }
    }
  }

  // -----------------------------------------------------------------------
  // Update, EndAssignment, Delete as functions of the table.

  /** The UPDATE of Update: the live row with the request's id gets the
      request's person, start, end and notes; its asset is never changed; every
      other row, deleted ones included, is untouched. */
  function Updated(rows: seq<Assignment>, req: Request): (rows': seq<Assignment>)
    ensures |rows'| == |rows|
    ensures forall i :: 0 <= i < |rows| ==>
              rows'[i].id == rows[i].id && rows'[i].assetId == rows[i].assetId && rows'[i].deletedAt == rows[i].deletedAt
    ensures forall i :: 0 <= i < |rows| && rows[i].id == req.id && Live(rows[i]) ==>
              rows'[i].personId == req.personId && rows'[i].from == req.from && rows'[i].to == req.to && rows'[i].notes == req.notes
    ensures forall i :: 0 <= i < |rows| && (rows[i].id != req.id || !Live(rows[i])) ==> rows'[i] == rows[i]
  {
    seq(|rows|, i requires 0 <= i < |rows| =>
      if rows[i].id == req.id && Live(rows[i])
      then rows[i].(personId := req.personId, from := req.from, to := req.to, notes := req.notes)
      else rows[i])
  }

  /** Ids strictly increase along the rows and stay in [1, bound). */
  ghost predicate IdsBelow(rows: seq<Assignment>, bound: int) {
    && (forall i :: 0 <= i < |rows| ==> 1 <= rows[i].id < bound)
    && (forall i, j :: 0 <= i < j < |rows| ==> rows[i].id < rows[j].id)
  }

  /** Increasing ids are unique, and none is 0, the id Create excludes. */
  lemma IdsBelowUnique(rows: seq<Assignment>, bound: int)
    requires IdsBelow(rows, bound)
    ensures UniqueIds(rows) && forall i :: 0 <= i < |rows| ==> rows[i].id != 0
  {
    forall i, j | 0 <= i < |rows| && 0 <= j < |rows| && i != j
      ensures rows[i].id != rows[j].id
    {
      if i < j {
        assert rows[i].id < rows[j].id;
      } else {
        assert rows[j].id < rows[i].id;
      }
    }
  }

  /** Update never touches an id, so the id order survives it. */
  lemma UpdatedValid(rows: seq<Assignment>, req: Request, bound: int)
    requires IdsBelow(rows, bound)
    ensures IdsBelow(Updated(rows, req), bound)
    ensures UniqueIds(rows)
  {
    IdsBelowUnique(rows, bound);
  }

  /** Update keeps the invariant when its check passes and the request names
      the asset the row already belongs to. */
  lemma UpdatePreservesNoOverlap(rows: seq<Assignment>, req: Request, now: int)
    requires NoOverlap(rows) && UniqueIds(rows)
    requires !CheckOverlap(rows, req.assetId, req.from, CheckEnd(req.to, now), req.id)
    requires BeforeSentinel(rows, req.assetId, now)
    requires forall i :: 0 <= i < |rows| && rows[i].id == req.id ==> rows[i].assetId == req.assetId
    ensures NoOverlap(Updated(rows, req))
  {
    var rows' := Updated(rows, req);
    forall i, j | 0 <= i < |rows'| && 0 <= j < |rows'| && i != j &&
        Live(rows'[i]) && Live(rows'[j]) && rows'[i].assetId == rows'[j].assetId
      ensures !Overlap(rows'[i], rows'[j])
    {
      if rows[i].id == req.id {
        assert rows[j].id != req.id && rows'[j] == rows[j];
        ConflictIsOverlap(rows[j], req, now, req.id);
        assert !Conflicts(rows[j], req.assetId, req.from, CheckEnd(req.to, now), req.id);
      } else if rows[j].id == req.id {
        assert rows'[i] == rows[i];
        ConflictIsOverlap(rows[i], req, now, req.id);
        assert !Conflicts(rows[i], req.assetId, req.from, CheckEnd(req.to, now), req.id);
      }
    }
  }

  /** The check runs against the asset the client names, not the one stored:
      an update that names another asset passes the check and can make two
      intervals of the stored asset overlap. */
  lemma UpdateNamingAnotherAssetCanOverlap()
    ensures var rows := [Assignment(1, 1, 1, 0, Some(10), "", None), Assignment(2, 1, 2, 10, Some(20), "", None)];
            var req := Request(2, 7, 2, 5, Some(15), "");
            && NoOverlap(rows) && UniqueIds(rows)
            && !CheckOverlap(rows, req.assetId, req.from, CheckEnd(req.to, 0), req.id)
            && !NoOverlap(Updated(rows, req))
  {
    var rows := [Assignment(1, 1, 1, 0, Some(10), "", None), Assignment(2, 1, 2, 10, Some(20), "", None)];
    var req := Request(2, 7, 2, 5, Some(15), "");
    assert !Conflicts(rows[0], 7, 5, 15, 2) && !Conflicts(rows[1], 7, 5, 15, 2);
    var rows' := Updated(rows, req);
    assert rows'[0] == rows[0] && Overlap(rows'[0], rows'[1]);
  }

  /** The UPDATE of EndAssignment: the live row with that id gets the end date;
      nothing else changes, and an unknown or deleted id changes nothing. */
  function Ended(rows: seq<Assignment>, id: int, endDate: int): (rows': seq<Assignment>)
    ensures |rows'| == |rows|
    ensures forall i :: 0 <= i < |rows| && rows[i].id == id && Live(rows[i]) ==> rows'[i] == rows[i].(to := Some(endDate))
    ensures forall i :: 0 <= i < |rows| && (rows[i].id != id || !Live(rows[i])) ==> rows'[i] == rows[i]
  {
    seq(|rows|, i requires 0 <= i < |rows| =>
      if rows[i].id == id && Live(rows[i]) then rows[i].(to := Some(endDate)) else rows[i])
  }

  /** Ending a row no later than it already ends keeps the invariant. */
  lemma EndPreservesNoOverlap(rows: seq<Assignment>, id: int, endDate: int)
    requires NoOverlap(rows)
    requires forall i :: 0 <= i < |rows| && rows[i].id == id && Live(rows[i]) ==>
               rows[i].to.None? || endDate <= rows[i].to.value
    ensures NoOverlap(Ended(rows, id, endDate))
  {
    var rows' := Ended(rows, id, endDate);
    forall i, j | 0 <= i < |rows'| && 0 <= j < |rows'| && i != j &&
        Live(rows'[i]) && Live(rows'[j]) && rows'[i].assetId == rows'[j].assetId
      ensures !Overlap(rows'[i], rows'[j])
    {
      assert !Overlap(rows[i], rows[j]);
    }
  }

  /** EndAssignment runs no overlap check: ending a row later than it ends can
      make it overlap the next interval of the same asset. */
  lemma EndingLaterCanOverlap()
    ensures var rows := [Assignment(1, 1, 1, 0, Some(10), "", None), Assignment(2, 1, 2, 10, Some(20), "", None)];
            && NoOverlap(rows)
            && !NoOverlap(Ended(rows, 1, 15))
  {
    var rows := [Assignment(1, 1, 1, 0, Some(10), "", None), Assignment(2, 1, 2, 10, Some(20), "", None)];
    var rows' := Ended(rows, 1, 15);
    assert rows'[1] == rows[1] && Overlap(rows'[0], rows'[1]);
  }

  /** The UPDATE of Delete: the live row with that id is tombstoned at `now`. */
  function Deleted(rows: seq<Assignment>, id: int, now: int): (rows': seq<Assignment>)
    ensures |rows'| == |rows|
    ensures forall i :: 0 <= i < |rows| && rows[i].id == id && Live(rows[i]) ==> rows'[i] == rows[i].(deletedAt := Some(now))
    ensures forall i :: 0 <= i < |rows| && (rows[i].id != id || !Live(rows[i])) ==> rows'[i] == rows[i]
  {
    seq(|rows|, i requires 0 <= i < |rows| =>
      if rows[i].id == id && Live(rows[i]) then rows[i].(deletedAt := Some(now)) else rows[i])
  }

  /** Deleting twice is deleting once: the second call finds no live row. */
  lemma DeleteIdempotent(rows: seq<Assignment>, id: int, now: int, later: int)
    ensures Deleted(Deleted(rows, id, now), id, later) == Deleted(rows, id, now)
  {
  }

  /** Deleting keeps the invariant: it only removes live rows. */
  lemma DeletePreservesNoOverlap(rows: seq<Assignment>, id: int, now: int)
    requires NoOverlap(rows)
    ensures NoOverlap(Deleted(rows, id, now))
  {
    var rows' := Deleted(rows, id, now);
    forall i, j | 0 <= i < |rows'| && 0 <= j < |rows'| && i != j &&
        Live(rows'[i]) && Live(rows'[j]) && rows'[i].assetId == rows'[j].assetId
      ensures !Overlap(rows'[i], rows'[j])
    {
      assert rows'[i] == rows[i] && rows'[j] == rows[j];
    }
  }

  // -----------------------------------------------------------------------
  // AssignAsset as a function of the table

  /** The first half of AssignAsset: the asset's current row, if the lookup
      finds one, ends at the effective date. */
  function EndCurrent(rows: seq<Assignment>, assetId: int, effectiveDate: int, now: int): seq<Assignment> {
    var current := GetCurrentByAssetID(rows, assetId, now);
    if current.Ok? then Ended(rows, current.value.id, effectiveDate) else rows
  }

  /** AssignAsset: the new table and the result, given the next id. The create
      runs on the table the end has already changed, and a failed create leaves
      that end in place. */
  function Assigned(rows: seq<Assignment>, nextId: int, assetId: int, personId: int, notes: string, effectiveDate: int, now: int)
    : (seq<Assignment>, Result<int>)
  {
    var ended := EndCurrent(rows, assetId, effectiveDate, now);
    if CheckOverlap(ended, assetId, effectiveDate, CheckEnd(None, now), 0) then (ended, Err(OverlappingAssignment))
    else (ended + [NewRow(nextId, Request(0, assetId, personId, effectiveDate, None, notes))], Ok(nextId))
  }

  /** The effective date does not lie beyond the end of the asset's current
      row, so ending that row there shortens it or leaves it as it is. */
  ghost predicate ShortensCurrent(rows: seq<Assignment>, assetId: int, effectiveDate: int, now: int) {
    var current := GetCurrentByAssetID(rows, assetId, now);
    current.Ok? ==> current.value.to.None? || effectiveDate <= current.value.to.value
  }

  /** AssignAsset keeps the invariant, whether its create succeeds or fails,
      as long as the effective date shortens the current row. */
  lemma AssignPreservesNoOverlap(rows: seq<Assignment>, nextId: int, assetId: int, personId: int, notes: string, effectiveDate: int, now: int)
    requires NoOverlap(rows) && UniqueIds(rows) && forall i :: 0 <= i < |rows| ==> rows[i].id != 0
    requires BeforeSentinel(rows, assetId, now)
    requires ShortensCurrent(rows, assetId, effectiveDate, now)
    ensures NoOverlap(Assigned(rows, nextId, assetId, personId, notes, effectiveDate, now).0)
  {
    var current := GetCurrentByAssetID(rows, assetId, now);
    var ended := EndCurrent(rows, assetId, effectiveDate, now);
    if current.Ok? {
      var c := current.value;
      forall i | 0 <= i < |rows| && rows[i].id == c.id && Live(rows[i])
        ensures rows[i].to.None? || effectiveDate <= rows[i].to.value
      {
        var k :| 0 <= k < |rows| && rows[k] == c;
        assert i == k;
      }
      EndPreservesNoOverlap(rows, c.id, effectiveDate);
    }
    assert |ended| == |rows| && forall i :: 0 <= i < |rows| ==> ended[i].id == rows[i].id && ended[i].from == rows[i].from;
    var req := Request(0, assetId, personId, effectiveDate, None, notes);
    if !CheckOverlap(ended, assetId, effectiveDate, CheckEnd(None, now), 0) {
      CreatePreservesNoOverlap(ended, req, now, nextId);
    }
  }

  /** The create can fail after the end has extended the current row, and the
      end is not undone: the table is left with two overlapping intervals. */
  lemma AssignCanLeaveOverlap()
    ensures var rows := [Assignment(1, 1, 1, 0, Some(10), "", None), Assignment(2, 1, 2, 10, Some(20), "", None)];
            var (rows', r) := Assigned(rows, 3, 1, 3, "", 15, 5);
            && NoOverlap(rows) && r == Err(OverlappingAssignment) && !NoOverlap(rows')
  {
    var rows := [Assignment(1, 1, 1, 0, Some(10), "", None), Assignment(2, 1, 2, 10, Some(20), "", None)];
    assert rows[..1] == [rows[0]];
    assert GetCurrentByAssetID(rows[..1], 1, 5) == Ok(rows[0]);
    assert GetCurrentByAssetID(rows, 1, 5) == Ok(rows[0]);
    var ended := Ended(rows, 1, 15);
    assert ended[1] == rows[1] && Overlap(ended[0], ended[1]);
    assert Conflicts(ended[1], 1, 15, CheckEnd(None, 5), 0);
  }

  /** Assign-then-reassign hands the asset over without a gap: when the first
      holder's start has come by the time of the second call, the first row
      ends exactly where the second begins, and both creates succeed. */
  lemma ReassignIsContinuous(id: int, assetId: int, p1: int, notes1: string, t1: int, now1: int,
                             p2: int, notes2: string, t2: int, now2: int)
    requires t1 <= now2
    ensures var (rows1, r1) := Assigned([], id, assetId, p1, notes1, t1, now1);
            var (rows2, r2) := Assigned(rows1, id + 1, assetId, p2, notes2, t2, now2);
            && r1 == Ok(id) && r2 == Ok(id + 1)
            && rows2 == [Assignment(id, assetId, p1, t1, Some(t2), notes1, None),
                         Assignment(id + 1, assetId, p2, t2, None, notes2, None)]
            && NoOverlap(rows2)
  {
    var rows1 := [Assignment(id, assetId, p1, t1, None, notes1, None)];
    assert GetCurrentByAssetID([], assetId, now1).Err? && EndCurrent([], assetId, t1, now1) == [];
    assert !CheckOverlap([], assetId, t1, CheckEnd(None, now1), 0);
    assert [] + [NewRow(id, Request(0, assetId, p1, t1, None, notes1))] == rows1;
    assert Assigned([], id, assetId, p1, notes1, t1, now1) == (rows1, Ok(id));
    assert GetCurrentByAssetID(rows1, assetId, now2) == Ok(rows1[0]) by {
      assert rows1[..0] == [];
    }
    var ended := Ended(rows1, id, t2);
    assert ended == [Assignment(id, assetId, p1, t1, Some(t2), notes1, None)];
    assert !Conflicts(ended[0], assetId, t2, CheckEnd(None, now2), 0);
  }

  /** An assignment dated after `now` is not yet current, so a second
      assignment after it is refused rather than ending the first. */
  lemma FutureAssignmentBlocksReassign()
    ensures var (rows1, r1) := Assigned([], 1, 1, 1, "", 100, 5);
            var (rows2, r2) := Assigned(rows1, 2, 1, 2, "", 200, 5);
            && r1 == Ok(1) && r2 == Err(OverlappingAssignment) && rows2 == rows1
  {
    var rows1 := [Assignment(1, 1, 1, 100, None, "", None)];
    assert Assigned([], 1, 1, 1, "", 100, 5) == (rows1, Ok(1)) by {
      assert GetCurrentByAssetID([], 1, 5).Err? && EndCurrent([], 1, 100, 5) == [];
      assert !CheckOverlap([], 1, 100, CheckEnd(None, 5), 0);
      assert [] + [NewRow(1, Request(0, 1, 1, 100, None, ""))] == rows1;
    }
    assert Assigned(rows1, 2, 1, 2, "", 200, 5) == (rows1, Err(OverlappingAssignment)) by {
      assert rows1[..0] == [];
      assert GetCurrentByAssetID(rows1, 1, 5).Err? && EndCurrent(rows1, 1, 200, 5) == rows1;
      assert Conflicts(rows1[0], 1, 200, CheckEnd(None, 5), 0);
    }
  }

  // -----------------------------------------------------------------------
  // Queries

  /** GetByID: the live row with that id, or not found. */
  function GetByID(rows: seq<Assignment>, id: int): (r: Result<Assignment>)
    ensures r.Ok? ==> r.value in rows && r.value.id == id && Live(r.value)
    ensures r.Err? ==> r.error == AssetAssignmentNotFound && forall a :: a in rows && a.id == id ==> !Live(a)
  {
    if |rows| == 0 then Err(AssetAssignmentNotFound)
    else if rows[0].id == id && Live(rows[0]) then Ok(rows[0])
    else GetByID(rows[1..], id)
  }

  /** In effect at `now`: live, started, and not yet ended. */
  predicate Current(a: Assignment, now: int) {
    Live(a) && a.from <= now && EndsAfter(a.to, now)
  }

  /** GetCurrentByAssetID: of the asset's current rows, one with the latest
      start, or not found when there is none. (Among equal starts the database
      picks any; the model picks the earliest row.) */
  function GetCurrentByAssetID(rows: seq<Assignment>, assetId: int, now: int): (r: Result<Assignment>)
    ensures r.Ok? ==> r.value in rows && r.value.assetId == assetId && Current(r.value, now)
    ensures r.Ok? ==> forall a :: a in rows && a.assetId == assetId && Current(a, now) ==> a.from <= r.value.from
    ensures r.Err? <==> forall a :: a in rows && a.assetId == assetId ==> !Current(a, now)
    ensures r.Err? ==> r.error == AssetAssignmentNotFound
  {
    if |rows| == 0 then Err(AssetAssignmentNotFound)
    else
      var init, last := rows[..|rows| - 1], rows[|rows| - 1];
      var best := GetCurrentByAssetID(init, assetId, now);
      assert rows == init + [last];
      if last.assetId == assetId && Current(last, now) && (best.Err? || last.from > best.value.from)
      then Ok(last)
      else best
  }

  /** The rows that satisfy `p`, in table order. */
  function Select(rows: seq<Assignment>, p: Assignment -> bool): (r: seq<Assignment>)
    ensures forall a :: a in r <==> a in rows && p(a)
    ensures multiset(r) <= multiset(rows)
  {
    if |rows| == 0 then []
    else
      var init, last := rows[..|rows| - 1], rows[|rows| - 1];
      assert rows == init + [last];
      Select(init, p) + (if p(last) then [last] else [])
  }

  /** Ordered by effective_from, latest first. */
  predicate SortedDesc(s: seq<Assignment>) {
    forall i, j :: 0 <= i < j < |s| ==> s[i].from >= s[j].from
  }

  function InsertDesc(a: Assignment, s: seq<Assignment>): (r: seq<Assignment>)
    requires SortedDesc(s)
    ensures SortedDesc(r)
    ensures forall x :: x in r <==> x in s || x == a
    ensures multiset(r) == multiset(s) + multiset{a}
  {
    if |s| == 0 || a.from >= s[0].from then
      assert forall x :: x in s ==> x.from <= s[0].from;
      ConsSorted(a, s);
      [a] + s
    else
      var rest := InsertDesc(a, s[1..]);
      assert s == [s[0]] + s[1..];
      assert forall x :: x in rest ==> x.from <= s[0].from;
      ConsSorted(s[0], rest);
      [s[0]] + rest
  }

  lemma ConsSorted(h: Assignment, t: seq<Assignment>)
    requires SortedDesc(t) && forall x :: x in t ==> x.from <= h.from
    ensures SortedDesc([h] + t)
  {
    var r := [h] + t;
    forall i, j | 0 <= i < j < |r| ensures r[i].from >= r[j].from {
      assert r[j] == t[j - 1];
      if i > 0 {
        assert r[i] == t[i - 1];
      }
    }
  }

  /** ORDER BY effective_from DESC: the same rows, latest start first. */
  function SortDesc(s: seq<Assignment>): (r: seq<Assignment>)
    ensures SortedDesc(r)
    ensures forall x :: x in r <==> x in s
    ensures multiset(r) == multiset(s)
  {
    if |s| == 0 then []
    else
      assert s == [s[0]] + s[1..];
      InsertDesc(s[0], SortDesc(s[1..]))
  }

  /** GetHistoryByAssetID: every live row of the asset, latest start first. */
  function GetHistoryByAssetID(rows: seq<Assignment>, assetId: int): (r: seq<Assignment>)
    ensures SortedDesc(r)
    ensures forall a :: a in r <==> a in rows && Live(a) && a.assetId == assetId
    ensures multiset(r) <= multiset(rows)
  {
    SortDesc(Select(rows, a => Live(a) && a.assetId == assetId))
  }

  /** GetByPersonID: every live row of the person, latest start first. */
  function GetByPersonID(rows: seq<Assignment>, personId: int): (r: seq<Assignment>)
    ensures SortedDesc(r)
    ensures forall a :: a in r <==> a in rows && Live(a) && a.personId == personId
    ensures multiset(r) <= multiset(rows)
  {
    SortDesc(Select(rows, a => Live(a) && a.personId == personId))
  }

  /** GetCurrentByPersonID: the person's rows in effect at `now`, latest start first. */
  function GetCurrentByPersonID(rows: seq<Assignment>, personId: int, now: int): (r: seq<Assignment>)
    ensures SortedDesc(r)
    ensures forall a :: a in r <==> a in rows && Current(a, now) && a.personId == personId
    ensures multiset(r) <= multiset(rows)
  {
    SortDesc(Select(rows, a => Current(a, now) && a.personId == personId))
  }

  // -----------------------------------------------------------------------
  // The table and its mutating operations.

  class AssignmentTable {
    var rows: seq<Assignment>
    /** The next AUTO_INCREMENT id. */
    var nextId: int

    ghost predicate Valid()
      reads this
    {
      nextId >= 1 && IdsBelow(rows, nextId)
    }

    constructor ()
      ensures Valid() && rows == [] && nextId == 1
    {
      rows, nextId := [], 1;
    }

    /** Create: with no overlap against the far-future-bounded interval, inserts
        one open or closed interval and returns its fresh id; on overlap, fails
        and changes nothing. */
    method Create(req: Request, now: int) returns (r: Result<int>)
      requires Valid()
      modifies this
      ensures Valid()
      ensures old(CheckOverlap(rows, req.assetId, req.from, CheckEnd(req.to, now), 0)) ==>
                r == Err(OverlappingAssignment) && rows == old(rows) && nextId == old(nextId)
      ensures !old(CheckOverlap(rows, req.assetId, req.from, CheckEnd(req.to, now), 0)) ==>
                r == Ok(old(nextId)) && rows == old(rows) + [NewRow(old(nextId), req)] && nextId == old(nextId) + 1
      ensures old(NoOverlap(rows) && BeforeSentinel(rows, req.assetId, now)) ==> NoOverlap(rows)
    {
      if NoOverlap(rows) && BeforeSentinel(rows, req.assetId, now) && !CheckOverlap(rows, req.assetId, req.from, CheckEnd(req.to, now), 0) {
        CreatePreservesNoOverlap(rows, req, now, nextId);
      }
      var toTime := now + CENTURY;
      if req.to.Some? {
        toTime := req.to.value;
      }
      var overlap := CheckOverlap(rows, req.assetId, req.from, toTime, 0);
      if overlap {
        return Err(OverlappingAssignment);
      }
      var id := nextId;
      rows := rows + [Assignment(id, req.assetId, req.personId, req.from, req.to, req.notes, None)];
      nextId := nextId + 1;
      r := Ok(id);
    }

    /** Update: with no overlap against the other rows of the asset the request
        names, rewrites the live row with the request's id; on overlap, fails and
        changes nothing. An unknown or deleted id is no error. */
    method Update(req: Request, now: int) returns (err: Option<Error>)
      requires Valid()
      modifies this
      ensures Valid() && nextId == old(nextId)
      ensures old(CheckOverlap(rows, req.assetId, req.from, CheckEnd(req.to, now), req.id)) ==>
                err == Some(OverlappingAssignment) && rows == old(rows)
      ensures !old(CheckOverlap(rows, req.assetId, req.from, CheckEnd(req.to, now), req.id)) ==>
                err == None && rows == Updated(old(rows), req)
      ensures (old(NoOverlap(rows) && BeforeSentinel(rows, req.assetId, now)) &&
               (forall a :: a in old(rows) && a.id == req.id ==> a.assetId == req.assetId)) ==> NoOverlap(rows)
    {
      var toTime := now + CENTURY;
      if req.to.Some? {
        toTime := req.to.value;
      }
      assert toTime == CheckEnd(req.to, now);
      var overlap := CheckOverlap(rows, req.assetId, req.from, toTime, req.id);
      if overlap {
        return Some(OverlappingAssignment);
      }
      UpdatedValid(rows, req, nextId);
      if && NoOverlap(rows) && BeforeSentinel(rows, req.assetId, now)
         && (forall a :: a in rows && a.id == req.id ==> a.assetId == req.assetId) {
        UpdatePreservesNoOverlap(rows, req, now);
      }
      rows := Updated(rows, req);
      err := None;
    }

    /** EndAssignment: sets the end of the live row with that id; no check. */
    method EndAssignment(id: int, endDate: int)
      requires Valid()
      modifies this
      ensures Valid() && nextId == old(nextId)
      ensures rows == Ended(old(rows), id, endDate)
    {
      rows := Ended(rows, id, endDate);
    }

    /** Delete: tombstones the live row with that id. */
    method Delete(id: int, now: int)
      requires Valid()
      modifies this
      ensures Valid() && nextId == old(nextId)
      ensures rows == Deleted(old(rows), id, now)
      ensures old(NoOverlap(rows)) ==> NoOverlap(rows)
    {
      if NoOverlap(rows) {
        DeletePreservesNoOverlap(rows, id, now);
      }
      rows := Deleted(rows, id, now);
    }

    /** AssignAsset: ends the asset's current row (if the lookup finds one) at
        the effective date, then creates an open-ended row for the person from
        that date. When the create fails, the end stays. */
    method AssignAsset(assetId: int, personId: int, notes: string, effectiveDate: int, now: int) returns (r: Result<int>)
      requires Valid()
      modifies this
      ensures Valid()
      ensures (rows, r) == Assigned(old(rows), old(nextId), assetId, personId, notes, effectiveDate, now)
      ensures nextId == old(nextId) + (if r.Ok? then 1 else 0)
      ensures old(NoOverlap(rows) && BeforeSentinel(rows, assetId, now) && ShortensCurrent(rows, assetId, effectiveDate, now)) ==>
                NoOverlap(rows)
    {
      IdsBelowUnique(rows, nextId);
      if NoOverlap(rows) && BeforeSentinel(rows, assetId, now) && ShortensCurrent(rows, assetId, effectiveDate, now) {
        AssignPreservesNoOverlap(rows, nextId, assetId, personId, notes, effectiveDate, now);
      }
      var current := GetCurrentByAssetID(rows, assetId, now);
      if current.Ok? {
        EndAssignment(current.value.id, effectiveDate);
      }
      r := Create(Request(0, assetId, personId, effectiveDate, None, notes), now);
    }
  }
}
