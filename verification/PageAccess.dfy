/** Pinning one page of a table, looking at it, and letting it go. */
module PageAccess {
  import opened Bytes
  import opened Core
  import opened Schemas
  import opened Codec
  import opened SlottedPages
  import opened Buffer
  import opened TableModel
  import opened Chains
  import Disk
  import PoolModel
  import Layout

  /** p is pinned, and this pin may be dropped without reporting a change. */
  ghost predicate Pinned(pool: BufferPoolManager, f: Frame, p: PageId)
    reads pool.disk, pool.disk.file, pool.Footprint(), f
  {
    && pool.Valid() && pool.IsFrameOf(f, p)
    && p in pool.Pages() && p in pool.PinCounts() && f.data[..] == pool.Pages()[p]
    && (pool.PinCounts()[p] == 1 ==> p !in pool.Pending())
  }

  /** The pin counts once a pin of p is dropped. */
  ghost function Dropped(pins: map<PageId, nat>, p: PageId): map<PageId, nat>
    requires p in pins && pins[p] > 0
  {
    if pins[p] == 1 then pins - {p} else pins[p := pins[p] - 1]
  }

  /** No I/O failed, and a frame could be had. */
  twostate predicate Unhindered(pool: BufferPoolManager)
    requires old(pool.Valid())
    reads pool.disk, pool.disk.file, pool.Footprint()
  {
    pool.disk.file.faults == old(pool.disk.file.faults) && old(|pool.PinCounts()|) < |pool.frames|
  }

  /** The page was resident, or a frame could be had and no I/O failed. */
  twostate predicate Got(pool: BufferPoolManager, p: PageId)
    requires old(pool.Valid())
    reads pool.disk, pool.disk.file, pool.Footprint()
  {
    p in old(pool.pageSlot) || Unhindered(pool)
  }

  /** The disk as it was, or, if p was not resident, with one other page written back. */
  twostate predicate WroteBack(pool: BufferPoolManager, p: PageId)
    requires old(pool.Valid())
    reads pool.disk, pool.disk.file, pool.Footprint()
  {
    && pool.disk.Valid()
    && PoolModel.AtMostOneWritten(old(pool.disk.Store()), pool.disk.Store(), old(pool.Pages()))
    && (p in old(pool.pageSlot) ==> pool.disk.Store() == old(pool.disk.Store()))
  }

  /** fetchPage, as every table operation uses it. */
  method Fetch(pool: BufferPoolManager, p: PageId) returns (r: Result<Frame>)
    requires pool.Valid() && p !in pool.disk.freeList
    modifies pool.Local(), pool.disk.file
    ensures old(pool.disk.file.faults) <= pool.disk.file.faults <= old(pool.disk.file.faults) + 1
    ensures pool.Valid() && pool.Pages() == old(pool.Pages()) && pool.Pending() == old(pool.Pending())
    ensures r.Success? ==>
              && pool.disk.file.faults == old(pool.disk.file.faults)
              && p in pool.Pages() && Pinned(pool, r.value, p) && pool.PinCounts()[p] > 0
              && Dropped(pool.PinCounts(), p) == old(pool.PinCounts())
    ensures r.Failure? ==> pool.PinCounts() == old(pool.PinCounts())
    ensures r.Success? <==> p in old(pool.Pages()) && Got(pool, p)
    ensures r.Failure? ==> p !in old(pool.pageSlot)
    ensures WroteBack(pool, p)
    ensures old(|pool.PinCounts()|) >= |pool.frames| ==> pool.disk.file.faults == old(pool.disk.file.faults)
    ensures r.Failure? ==>
              r.status == if old(|pool.PinCounts()|) >= |pool.frames| then Internal
                          else if pool.disk.file.faults > old(pool.disk.file.faults) then IOError else InvalidArgument
  {
    hide BufferPoolManager.Valid, BufferPoolManager.Pages, BufferPoolManager.PinCounts, BufferPoolManager.Pending,
         BufferPoolManager.View, BufferPoolManager.Footprint, BufferPoolManager.Local, Disk.DiskInv;
    pool.PendingArePinnedPages();
    pool.FrameAvailable();
    if p in pool.pageSlot {
      pool.ResidentIsAllocated(p);
    }
    PoolModel.PinThenUnpin(pool.PinCounts(), p, pool.PinCount(p));
    r := pool.FetchPage(p);
  }

  /** newPage, as every table operation uses it. */
  method FetchNew(pool: BufferPoolManager) returns (r: Result<Frame>)
    requires pool.Valid()
    modifies pool.Footprint()
    ensures old(pool.disk.file.faults) <= pool.disk.file.faults <= old(pool.disk.file.faults) + 2
    ensures r.Success? ==>
              && pool.disk.file.faults == old(pool.disk.file.faults) && pool.Valid()
              && var q := r.value.id;
                 && q !in old(pool.Pages()) && q != 0 && q != INVALID_PAGE_ID
                 && pool.Pages() == old(pool.Pages())[q := Zeros(PAGE_SIZE)] && pool.Pending() == old(pool.Pending())
                 && Pinned(pool, r.value, q) && pool.PinCounts()[q] > 0
                 && Dropped(pool.PinCounts(), q) == old(pool.PinCounts())
    ensures r.Failure? && pool.disk.file.faults <= old(pool.disk.file.faults) + 1 ==>
              && pool.Valid() && pool.Pages() == old(pool.Pages())
              && pool.PinCounts() == old(pool.PinCounts()) && pool.Pending() == old(pool.Pending())
    ensures r.Success? <==>
              old(|pool.PinCounts()| < |pool.frames| && pool.disk.CanAllocate()) && pool.disk.file.faults == old(pool.disk.file.faults)
    ensures r.Failure? ==> r.status == if pool.disk.file.faults == old(pool.disk.file.faults) then Internal else IOError
  {
    hide BufferPoolManager.Valid, BufferPoolManager.Pages, BufferPoolManager.PinCounts, BufferPoolManager.Pending,
         BufferPoolManager.View, BufferPoolManager.Footprint, BufferPoolManager.Local, Disk.DiskInv;
    pool.PendingArePinnedPages();
    pool.FrameAvailable();
    r := pool.NewPage();
    if r.Success? {
      PoolModel.PinThenUnpin(old(pool.PinCounts()), r.value.id, 0);
    }
  }

  ghost function SlotOf(m: Store, p: PageId, slotId: nat): Result<Bytes>
    requires p in m && WellFormed(m[p])
  {
    if slotId >= |Slots(m[p])| then Failure(InvalidArgument)
    else match Slots(m[p])[slotId] case None => Failure(NotFound) case Some(b) => Success(b)
  }

  /** What the page says at a slot is what the table says at the RID. */
  lemma CellFromSlot(m: Store, s: Schema, chain: seq<PageId>, rid: RID)
    requires Schemas.Valid(s) && IsChain(m, s, chain)
    ensures rid.pageId in chain ==> rid.pageId in m && WellFormed(m[rid.pageId])
    ensures rid.pageId in chain ==>
              match SlotOf(m, rid.pageId, rid.slotId)
              case Success(b) => Decodable(s, b) && |b| == Layout.EncodedSizeOf(s) && Get(TableOf(m, s, chain), rid) == Live(Decoded(s, b))
              case Failure(st) => st == if Get(TableOf(m, s, chain), rid).Deleted? then NotFound else InvalidArgument
    ensures rid.pageId in chain ==>
              (SlotOf(m, rid.pageId, rid.slotId).Success? <==> Get(TableOf(m, s, chain), rid).Live?)
    ensures rid.pageId !in chain ==> Get(TableOf(m, s, chain), rid) == Unused
  {
    TableOfIsTable(m, s, chain);
    if rid.pageId in chain {
      var i: nat :| i < |chain| && chain[i] == rid.pageId;
      CellOfSlot(m, s, chain, i, rid.slotId);
      assert RowPage(m, s, chain[i]);
      if rid.slotId < |Slots(m[chain[i]])| {
        assert PayloadOk(s, Slots(m[chain[i]])[rid.slotId]);
      }
    } else {
      var t := TableOf(m, s, chain);
      forall k | 0 <= k < |t|
        ensures t[k].id != rid.pageId
      {
        assert t[k] == PageAt(m, s, chain, k);
      }
      GetNowhere(t, rid);
    }
  }

  // ---------- RIDs are not checked against the table they are used with ----------

  /** The page of the RID is a table page, of this table or another, or is not in the store. */
  ghost predicate OnTablePage(m: Store, rid: RID) {
    rid.pageId in m ==> WellFormed(m[rid.pageId])
  }

  ghost function PayloadAt(m: Store, rid: RID): Result<Bytes>
    requires OnTablePage(m, rid)
  {
    if rid.pageId in m then SlotOf(m, rid.pageId, rid.slotId) else Failure(InvalidArgument)
  }

  /** The answer of readRow: the page decides, whoever it belongs to. */
  ghost function ReadAnswer(m: Store, s: Schema, rid: RID): Result<Row>
    requires Schemas.Valid(s) && OnTablePage(m, rid)
  {
    match PayloadAt(m, rid)
    case Failure(st) => Failure(st)
    case Success(b) => if Decodable(s, b) then Success(Decoded(s, b)) else Failure(InvalidArgument)
  }

  /** The answer of deleteRow, and of updateRow with a payload of the given size. */
  ghost function ChangeAnswer(m: Store, rid: RID, size: Option<nat>): Status
    requires OnTablePage(m, rid)
  {
    match PayloadAt(m, rid)
    case Failure(st) => st
    case Success(b) => if size.Some? && |b| != size.value then InvalidArgument else Status.Ok
  }

  /** On the table's own pages the answers are the table's; an update needs a payload of the size of its rows. */
  lemma OwnAnswers(m: Store, s: Schema, chain: seq<PageId>, rid: RID)
    requires Schemas.Valid(s) && IsChain(m, s, chain) && (rid.pageId in chain || rid.pageId !in m)
    ensures OnTablePage(m, rid)
    ensures var cell := Get(TableOf(m, s, chain), rid);
            && ReadAnswer(m, s, rid) == ReadOutcome(cell)
            && ChangeAnswer(m, rid, None) == ChangeOutcome(cell)
            && forall n: nat ::
                 ChangeAnswer(m, rid, Some(n)) ==
                 if cell.Live? && n != Layout.EncodedSizeOf(s) then InvalidArgument else ChangeOutcome(cell)
  {
    hide IsChain, TableOf, Decodable, Decoded, WellFormed, Slots, Layout.EncodedSizeOf;
    CellFromSlot(m, s, chain, rid);
    ChainIsStored(m, s, chain);
  }

  /**
     With any RID on a table page, the answer of readRow is the table's own
     exactly if the page is on its chain, or the slot holds something the schema
     cannot read, or the page has no such slot.
   */
  lemma ForeignRidReadsForeignBytes(m: Store, s: Schema, chain: seq<PageId>, rid: RID)
    requires Schemas.Valid(s) && IsChain(m, s, chain) && rid.pageId in m && WellFormed(m[rid.pageId])
    ensures var slots := Slots(m[rid.pageId]);
            ReadAnswer(m, s, rid) == ReadOutcome(Get(TableOf(m, s, chain), rid)) <==>
            || rid.pageId in chain
            || rid.slotId >= |slots|
            || (slots[rid.slotId].Some? && !Decodable(s, slots[rid.slotId].value))
  {
    hide IsChain, TableOf, Decodable, Decoded, WellFormed, Slots, Layout.EncodedSizeOf;
    CellFromSlot(m, s, chain, rid);
  }

  method ReadAndUnpin(pool: BufferPoolManager, f: Frame, p: PageId, slotId: SlotId) returns (r: Result<Bytes>)
    requires Pinned(pool, f, p) && WellFormed(pool.Pages()[p]) && pool.PinCounts()[p] > 0
    modifies pool.Local(), pool.disk.file
    ensures pool.disk.file.faults == old(pool.disk.file.faults)
    ensures pool.Valid() && pool.PinCounts() == old(Dropped(pool.PinCounts(), p)) && pool.Pending() == old(pool.Pending())
    ensures pool.Pages() == old(pool.Pages()) && r == SlotOf(old(pool.Pages()), p, slotId)
    ensures pool.disk.Valid() && pool.disk.Store() == old(pool.disk.Store())
  {
    hide BufferPoolManager.Valid, BufferPoolManager.Pages, BufferPoolManager.PinCounts, BufferPoolManager.Pending,
         BufferPoolManager.View, BufferPoolManager.Footprint, BufferPoolManager.Local, Disk.DiskInv, WellFormed, Slots;
    var sp := new SlottedPage(f.data);
    r := sp.ReadRow(slotId);
    TablePagesAreNotFree(f.data[..]);
    pool.Edited(p);
    var st := pool.UnpinPage(p, false);
    if !st.Ok? {
      return Failure(st);
    }
  }
}
