/**
 What a paged table means: a list of pages, each a list of rows and
 tombstones.  Runs of table operations behave as a map from RIDs to rows.
 */
module TableModel {
  import opened Bytes
  import opened Core
  import opened Codec

  datatype RID = RID(pageId: PageId, slotId: SlotId)

  datatype TablePage = TablePage(id: PageId, slots: seq<Option<Row>>)

  type Table = seq<TablePage>

  /** A slot that was never handed out, holds a row, or lost its row for good. */
  datatype Cell = Unused | Live(row: Row) | Deleted

  ghost predicate IsTable(t: Table) {
    && |t| > 0
    && (forall i, j | 0 <= i < j < |t| :: t[i].id != t[j].id)
    && (forall i | 0 <= i < |t| :: |t[i].slots| < INVALID_SLOT_ID)
  }

  function CellAt(slots: seq<Option<Row>>, slotId: nat): Cell {
    if slotId >= |slots| then Unused
    else match slots[slotId] case None => Deleted case Some(row) => Live(row)
  }

  /** The table read as a map from RIDs. */
  function Get(t: Table, rid: RID): Cell {
    if t == [] then Unused
    else if t[0].id == rid.pageId then CellAt(t[0].slots, rid.slotId)
    else Get(t[1..], rid)
  }

  lemma {:induction false} GetAtPage(t: Table, i: nat, rid: RID)
    requires i < |t| && t[i].id == rid.pageId
    requires forall k | 0 <= k < i :: t[k].id != rid.pageId
    ensures Get(t, rid) == CellAt(t[i].slots, rid.slotId)
  {
    if i == 0 {
    } else {
      GetAtPage(t[1..], i - 1, rid);
    }
  }

  lemma {:induction false} GetNowhere(t: Table, rid: RID)
    requires forall k | 0 <= k < |t| :: t[k].id != rid.pageId
    ensures Get(t, rid) == Unused
  {
    if t == [] {
    } else {
      GetNowhere(t[1..], rid);
    }
  }

  /** Either no page has the id, or a unique page decides. */
  lemma FindPage(t: Table, pageId: PageId) returns (i: nat)
    requires IsTable(t)
    ensures i <= |t|
    ensures i < |t| ==> t[i].id == pageId && forall rid: RID | rid.pageId == pageId :: Get(t, rid) == CellAt(t[i].slots, rid.slotId)
    ensures i == |t| ==> forall rid: RID | rid.pageId == pageId :: Get(t, rid) == Unused
    ensures forall k | 0 <= k < |t| && t[k].id == pageId :: k == i
  {
    if k :| 0 <= k < |t| && t[k].id == pageId {
      i := k;
      forall rid: RID | rid.pageId == pageId
        ensures Get(t, rid) == CellAt(t[i].slots, rid.slotId)
      {
        GetAtPage(t, i, rid);
      }
    } else {
      i := |t|;
      forall rid: RID | rid.pageId == pageId
        ensures Get(t, rid) == Unused
      {
        GetNowhere(t, rid);
      }
    }
  }

  /** What a read, and what a change, says about a cell. */
  function ReadOutcome(cell: Cell): Result<Row> {
    match cell
    case Live(row) => Success(row)
    case Deleted => Failure(NotFound)
    case Unused => Failure(InvalidArgument)
  }

  function ChangeOutcome(cell: Cell): Status {
    match cell
    case Live(_) => Status.Ok
    case Deleted => NotFound
    case Unused => InvalidArgument
  }

  // ---------- the operations ----------

  datatype Step =
    | Insert(rid: RID, row: Row)
    | Update(rid: RID, row: Row)
    | Delete(rid: RID)
    | Nothing

  /** Replace the slots of page i. */
  function WithSlots(t: Table, i: nat, slots: seq<Option<Row>>): Table
    requires i < |t|
  {
    t[i := TablePage(t[i].id, slots)]
  }

  ghost predicate Appended(t: Table, t': Table, rid: RID, row: Row) {
    && |t| > 0
    && var n := |t| - 1;
       && rid.pageId == t[n].id && rid.slotId == |t[n].slots|
       && t' == WithSlots(t, n, t[n].slots + [Some(row)])
  }

  ghost predicate AppendedOnNewPage(t: Table, t': Table, rid: RID, row: Row) {
    && (forall i | 0 <= i < |t| :: t[i].id != rid.pageId)
    && rid.slotId == 0
    && t' == t + [TablePage(rid.pageId, [Some(row)])]
  }

  ghost predicate Replaced(t: Table, t': Table, rid: RID, cell: Option<Row>) {
    exists i: nat :: i < |t| && ReplacedIn(t, t', i, rid, cell)
  }

  ghost predicate ReplacedIn(t: Table, t': Table, i: nat, rid: RID, cell: Option<Row>)
    requires i < |t|
  {
    && t[i].id == rid.pageId && rid.slotId < |t[i].slots| && t[i].slots[rid.slotId].Some?
    && t' == WithSlots(t, i, t[i].slots[rid.slotId := cell])
  }

  /** One table operation, as it changes the pages. */
  ghost predicate Next(t: Table, step: Step, t': Table) {
    && IsTable(t) && IsTable(t')
    && match step
       case Insert(rid, row) => Appended(t, t', rid, row) || AppendedOnNewPage(t, t', rid, row)
       case Update(rid, row) => Replaced(t, t', rid, Some(row))
       case Delete(rid) => Replaced(t, t', rid, None)
       case Nothing => t' == t
  }

  /** The same operation on the map from RIDs. */
  function CellAfter(cell: Cell, step: Step, rid: RID): Cell {
    match step
    case Insert(r, row) => if r == rid then Live(row) else cell
    case Update(r, row) => if r == rid then Live(row) else cell
    case Delete(r) => if r == rid then Deleted else cell
    case Nothing => cell
  }

  predicate Enabled(cell: Cell, step: Step, rid: RID) {
    match step
    case Insert(r, _) => r == rid ==> cell.Unused?
    case Update(r, _) => r == rid ==> cell.Live?
    case Delete(r) => r == rid ==> cell.Live?
    case Nothing => true
  }

  lemma ChangedPage(t: Table, t': Table, i: nat, slots: seq<Option<Row>>, rid: RID)
    requires IsTable(t) && IsTable(t') && i < |t| && t' == WithSlots(t, i, slots)
    ensures rid.pageId == t[i].id ==> Get(t, rid) == CellAt(t[i].slots, rid.slotId) && Get(t', rid) == CellAt(slots, rid.slotId)
    ensures rid.pageId != t[i].id ==> Get(t', rid) == Get(t, rid)
  {
    var k := FindPage(t, rid.pageId);
    var k' := FindPage(t', rid.pageId);
    assert k < |t| ==> t'[k].id == t[k].id;
    assert k' < |t'| ==> t[k'].id == t'[k'].id;
    if rid.pageId == t[i].id {
      assert t'[i].id == rid.pageId;
    }
  }

  /** Every operation acts on the map at one RID only, and inserts at an unused one. */
  lemma StepOnMap(t: Table, step: Step, t': Table, rid: RID)
    requires Next(t, step, t')
    ensures Enabled(Get(t, rid), step, rid)
    ensures Get(t', rid) == CellAfter(Get(t, rid), step, rid)
  {
    match step
    case Nothing =>
    case Insert(r, row) =>
      if Appended(t, t', r, row) {
        ChangedPage(t, t', |t| - 1, t[|t| - 1].slots + [Some(row)], rid);
      } else {
        var k := FindPage(t, rid.pageId);
        var k' := FindPage(t', rid.pageId);
        assert k < |t| ==> t'[k] == t[k];
        assert t'[|t|].id == r.pageId;
      }
    case Update(r, row) =>
      var i: nat :| i < |t| && ReplacedIn(t, t', i, r, Some(row));
      ChangedPage(t, t', i, t[i].slots[r.slotId := Some(row)], rid);
    case Delete(r) =>
      var i: nat :| i < |t| && ReplacedIn(t, t', i, r, None);
      ChangedPage(t, t', i, t[i].slots[r.slotId := None], rid);
  }

  // ---------- runs ----------

  ghost predicate Run(ts: seq<Table>, steps: seq<Step>) {
    && |ts| == |steps| + 1
    && (forall k | 0 <= k < |steps| :: Next(ts[k], steps[k], ts[k + 1]))
  }

  function CellAfterAll(cell: Cell, steps: seq<Step>, rid: RID): Cell {
    if steps == [] then cell
    else CellAfter(CellAfterAll(cell, steps[..|steps| - 1], rid), steps[|steps| - 1], rid)
  }

  /** After any run a read sees the last write to that RID, as in a plain map. */
  lemma {:induction false} RunIsMap(ts: seq<Table>, steps: seq<Step>, rid: RID)
    requires Run(ts, steps)
    ensures Get(ts[|steps|], rid) == CellAfterAll(Get(ts[0], rid), steps, rid)
    decreases |steps|
  {
    if steps == [] {
    } else {
      var n := |steps| - 1;
      assert Run(ts[..n + 1], steps[..n]);
      RunIsMap(ts[..n + 1], steps[..n], rid);
      StepOnMap(ts[n], steps[n], ts[n + 1], rid);
    }
  }

  /** A RID that was handed out is never unused again; a deleted one stays deleted. */
  lemma {:induction false} CellsAge(ts: seq<Table>, steps: seq<Step>, i: nat, j: nat, rid: RID)
    requires Run(ts, steps) && i <= j <= |steps|
    ensures !Get(ts[i], rid).Unused? ==> !Get(ts[j], rid).Unused?
    ensures Get(ts[i], rid).Deleted? ==> Get(ts[j], rid).Deleted?
    decreases j
  {
    if i == j {
    } else {
      CellsAge(ts, steps, i, j - 1, rid);
      StepOnMap(ts[j - 1], steps[j - 1], ts[j], rid);
    }
  }

  /** Insert never returns a RID that an earlier insert returned, deleted or not. */
  lemma InsertsAreFresh(ts: seq<Table>, steps: seq<Step>, i: nat, j: nat)
    requires Run(ts, steps) && i < j < |steps| && steps[i].Insert? && steps[j].Insert?
    ensures steps[i].rid != steps[j].rid
  {
    var rid := steps[i].rid;
    StepOnMap(ts[i], steps[i], ts[i + 1], rid);
    CellsAge(ts, steps, i + 1, j, rid);
    StepOnMap(ts[j], steps[j], ts[j + 1], rid);
  }

  /** Pages keep their place in the chain, and their slots keep theirs. */
  ghost predicate Grows(t: Table, t': Table) {
    && |t| <= |t'|
    && (forall i | 0 <= i < |t| :: t'[i].id == t[i].id && |t[i].slots| <= |t'[i].slots|)
    && (forall i | 0 <= i < |t| - 1 :: |t[i].slots| == |t'[i].slots|)
    && (forall i, j | 0 <= i < |t| && 0 <= j < |t[i].slots| :: t[i].slots[j].None? ==> t'[i].slots[j].None?)
  }

  lemma StepGrows(t: Table, step: Step, t': Table)
    requires Next(t, step, t')
    ensures Grows(t, t')
  {
    match step
    case Nothing =>
    case Insert(r, row) =>
    case Update(r, row) =>
      var i: nat :| i < |t| && ReplacedIn(t, t', i, r, Some(row));
    case Delete(r) =>
      var i: nat :| i < |t| && ReplacedIn(t, t', i, r, None);
  }
}
