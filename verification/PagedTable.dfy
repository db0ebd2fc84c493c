/** A table: rows encoded into a growing chain of slotted pages. */
module PagedTables {
  import opened Bytes
  import opened Core
  import opened Schemas
  import opened Codec
  import opened SlottedPages
  import opened Buffer
  import opened TableModel
  import opened Chains
  import opened PageAccess
  import Disk
  import Layout

  class PagedTable {
    const pool: BufferPoolManager
    const schema: Schema
    const firstPageId: PageId
    var lastPageId: PageId
    ghost var chain: seq<PageId>

    constructor (pool: BufferPoolManager, schema: Schema, firstPageId: PageId, lastPageId: PageId, ghost chain: seq<PageId>)
      ensures this.pool == pool && this.schema == schema
      ensures this.firstPageId == firstPageId && this.lastPageId == lastPageId && this.chain == chain
    {
      this.pool, this.schema, this.firstPageId, this.lastPageId := pool, schema, firstPageId, lastPageId;
      this.chain := chain;
    }

    ghost predicate Valid()
      reads this, pool.disk, pool.disk.file, pool.Footprint()
    {
      && pool.Valid()
      && Schemas.Valid(schema)
      && IsChain(pool.Pages(), schema, chain)
      && chain[0] == firstPageId && chain[|chain| - 1] == lastPageId
    }

    /** The table as pages of rows. */
    ghost function View(): Table
      requires Valid()
      reads this, pool.disk, pool.disk.file, pool.Footprint()
    {
      TableOf(pool.Pages(), schema, chain)
    }

    /** The pool never writes to the table object. */
    lemma OutsidePool()
      ensures this as object !in pool.Footprint() && this as object !in pool.Local() && this as object != pool.disk.file
    {
    }

    /** Insert into the pinned page and drop the pin. */
    method InsertAndUnpin(f: Frame, p: PageId, payload: Bytes) returns (r: Result<SlotId>)
      requires Pinned(pool, f, p) && WellFormed(pool.Pages()[p]) && payload != []
      requires pool.PinCounts()[p] > 0
      modifies pool.Local(), pool.disk.file
      ensures pool.disk.file.faults == old(pool.disk.file.faults)
      ensures pool.Valid() && pool.PinCounts() == old(Dropped(pool.PinCounts(), p)) && pool.Pending() <= old(pool.Pending())
      ensures r.Success? <==> old(HasSpace(pool.Pages()[p], |payload|))
      ensures r.Success? ==> FitsEmptyPage(|payload|)
      ensures r.Success? ==> p in pool.Pages() && InsertedInto(old(pool.Pages()), pool.Pages(), p, r.value, payload)
      ensures r.Failure? ==> r.status == InvalidArgument && pool.Pages() == old(pool.Pages())
    {
      hide BufferPoolManager.Valid, BufferPoolManager.Pages, BufferPoolManager.PinCounts, BufferPoolManager.Pending,
           BufferPoolManager.View, BufferPoolManager.Footprint, BufferPoolManager.Local, Disk.DiskInv, WellFormed, Slots;
      if HasSpace(pool.Pages()[p], |payload|) {
        RoomOnEmptyPage(pool.Pages()[p], |payload|);
      }
      var sp := new SlottedPage(f.data);
      r := sp.InsertRow(payload);
      TablePagesAreNotFree(f.data[..]);
      pool.Edited(p);
      var st := pool.UnpinPage(p, r.Success?);
      if !st.Ok? {
        return Failure(st);
      }
    }

    static ghost predicate InsertedInto(m: Store, m': Store, p: PageId, slotId: SlotId, payload: Bytes) {
      && p in m && p in m' && m' == m[p := m'[p]]
      && WellFormed(m[p]) && WellFormed(m'[p]) && NextOf(m'[p]) == NextOf(m[p]) && IdOf(m'[p]) == IdOf(m[p])
      && slotId == |Slots(m[p])| && Slots(m'[p]) == Slots(m[p]) + [Some(payload)]
      && FreeEndOf(m'[p]) == FreeEndOf(m[p]) - |payload|
    }

    /** Turn a new page into a table page holding one payload, and drop the pin. */
    method FillAndUnpin(f: Frame, q: PageId, payload: Bytes) returns (r: Result<SlotId>)
      requires Pinned(pool, f, q) && pool.PinCounts()[q] > 0 && payload != []
      modifies pool.Local(), pool.disk.file
      ensures pool.disk.file.faults == old(pool.disk.file.faults)
      ensures pool.Valid() && pool.PinCounts() == old(Dropped(pool.PinCounts(), q)) && pool.Pending() <= old(pool.Pending())
      ensures q in pool.Pages() && pool.Pages() == old(pool.Pages())[q := pool.Pages()[q]]
      ensures r.Success? <==> FitsEmptyPage(|payload|)
      ensures r.Success? ==> r.value == 0 && NewTablePage(pool.Pages()[q], q, payload)
      ensures r.Failure? ==> r.status == InvalidArgument && EmptyTablePage(pool.Pages()[q], q)
    {
      hide BufferPoolManager.Valid, BufferPoolManager.Pages, BufferPoolManager.PinCounts, BufferPoolManager.Pending,
           BufferPoolManager.View, BufferPoolManager.Footprint, BufferPoolManager.Local, Disk.DiskInv;
      SlottedPage.Initialize(f.data, q);
      var sp := new SlottedPage(f.data);
      r := sp.InsertRow(payload);
      TablePagesAreNotFree(f.data[..]);
      pool.Edited(q);
      hide WellFormed, Slots;
      var st := pool.UnpinPage(q, true);
      if !st.Ok? {
        return Failure(st);
      }
    }

    /** A new page holding the payload.  A payload too big for any page leaves the new page allocated and empty. */
    method AddPage(payload: Bytes) returns (r: Result<PageId>)
      requires pool.Valid() && payload != []
      modifies pool.Footprint()
      ensures old(pool.disk.file.faults) <= pool.disk.file.faults <= old(pool.disk.file.faults) + 2
      ensures pool.disk.file.faults <= old(pool.disk.file.faults) + 1 ==>
                pool.Valid() && pool.PinCounts() == old(pool.PinCounts()) && pool.Pending() <= old(pool.Pending())
      ensures r.Success? <==>
                && Unhindered(pool) && old(pool.disk.CanAllocate())
                && FitsEmptyPage(|payload|)
      ensures r.Success? ==>
                && var q := r.value;
                && q != 0 && q != INVALID_PAGE_ID && OneMorePage(old(pool.Pages()), pool.Pages(), q)
                && NewTablePage(pool.Pages()[q], q, payload)
      ensures r.Failure? ==>
                r.status == if pool.disk.file.faults > old(pool.disk.file.faults) then IOError
                            else if Unhindered(pool) && old(pool.disk.CanAllocate()) then InvalidArgument else Internal
      ensures r.Failure? && r.status == InvalidArgument ==>
                exists q :: OneMorePage(old(pool.Pages()), pool.Pages(), q) && EmptyTablePage(pool.Pages()[q], q)
      ensures r.Failure? && r.status != InvalidArgument && pool.disk.file.faults <= old(pool.disk.file.faults) + 1 ==>
                pool.Pages() == old(pool.Pages())
    {
      hide BufferPoolManager.Valid, BufferPoolManager.Pages, BufferPoolManager.PinCounts, BufferPoolManager.Pending,
           BufferPoolManager.View, BufferPoolManager.Footprint, BufferPoolManager.Local, Disk.DiskInv, NewTablePage, EmptyTablePage, Pinned, Dropped;
      pool.InFootprint(0);
      var f := FetchNew(pool);
      if f.Failure? {
        return Failure(f.status);
      }
      var q := f.value.id;
      var slot := FillAndUnpin(f.value, q, payload);
      if slot.Failure? {
        return Failure(slot.status);
      }
      return Success(q);
    }

    /** Point the pinned page at the page behind it, and drop the pin. */
    method LinkAndUnpin(f: Frame, p: PageId, next: PageId) returns (st: Status)
      requires Pinned(pool, f, p) && pool.PinCounts()[p] > 0 && WellFormed(pool.Pages()[p])
      modifies pool.Local(), pool.disk.file
      ensures st.Ok? && pool.disk.file.faults == old(pool.disk.file.faults)
      ensures pool.Valid() && pool.PinCounts() == old(Dropped(pool.PinCounts(), p)) && pool.Pending() <= old(pool.Pending())
      ensures p in pool.Pages() && pool.Pages() == old(pool.Pages())[p := pool.Pages()[p]]
      ensures var (b, b') := (old(pool.Pages()[p]), pool.Pages()[p]);
              && WellFormed(b') && NextOf(b') == next && IdOf(b') == IdOf(b) && Slots(b') == Slots(b)
              && FreeEndOf(b') == FreeEndOf(b)
    {
      hide BufferPoolManager.Valid, BufferPoolManager.Pages, BufferPoolManager.PinCounts, BufferPoolManager.Pending,
           BufferPoolManager.View, BufferPoolManager.Footprint, BufferPoolManager.Local, Disk.DiskInv, WellFormed, Slots;
      var sp := new SlottedPage(f.data);
      sp.SetNextPageId(next);
      TablePagesAreNotFree(f.data[..]);
      pool.Edited(p);
      st := pool.UnpinPage(p, true);
    }

    /** A row of this schema fits on an empty page. */
    ghost predicate FitsPage() {
      FitsEmptyPage(Layout.EncodedSizeOf(schema))
    }

    /** A row of this schema fits behind the others on the last page. */
    ghost predicate LastHasRoom()
      requires pool.Valid()
      reads this, pool.disk, pool.disk.file, pool.Footprint()
    {
      RoomOn(pool.Pages(), lastPageId, Layout.EncodedSizeOf(schema))
    }

    /** Every page of the chain was filled row by row, as on chains only this code wrote. */
    ghost predicate IsPacked()
      requires pool.Valid()
      reads this, pool.disk, pool.disk.file, pool.Footprint()
    {
      Packed(pool.Pages(), schema, chain)
    }

    /** On such a chain the last page has room exactly while it has had fewer rows than a page takes. */
    lemma RoomInRows()
      requires Valid() && IsPacked()
      ensures LastHasRoom() <==> |View()[|chain| - 1].slots| < 4072 / (Layout.EncodedSizeOf(schema) + 4)
      ensures FitsPage() <==> Layout.EncodedSizeOf(schema) <= 4068
    {
      hide IsChain, WellFormed, Slots, HasSpace, Layout.EncodedSizeOf;
      LastPage(pool.Pages(), schema, chain);
      var n := |chain| - 1;
      assert View()[n] == PageAt(pool.Pages(), schema, chain, n);
      assert PackedPage(pool.Pages()[chain[n]], Layout.EncodedSizeOf(schema));
      PackedRoom(pool.Pages()[chain[n]], Layout.EncodedSizeOf(schema));
      RoomInBytes(pool.Pages()[chain[n]], Layout.EncodedSizeOf(schema));
    }

    /** Room on the last page is room on an empty one. */
    lemma RoomIsOnPages()
      requires Valid()
      ensures LastHasRoom() ==> FitsPage()
    {
      LastPage(pool.Pages(), schema, chain);
      if LastHasRoom() {
        RoomOnEmptyPage(pool.Pages()[lastPageId], Layout.EncodedSizeOf(schema));
      }
    }

    /**
     What an insert does to the page store m and the chain c: the new row and
     nothing else on success, no change of the table on failure; pages of other
     chains keep their bytes either way.
     */
    static ghost predicate InsertOutcome(m: Store, m': Store, s: Schema, c: seq<PageId>, c': seq<PageId>,
                                         row: Row, r: Result<RID>)
      requires Schemas.Valid(s) && IsChain(m, s, c)
    {
      && IsChain(m', s, c') && Keeps(m, m', c)
      && (Packed(m, s, c) ==> Packed(m', s, c'))
      && (r.Failure? ==> c' == c && TableOf(m', s, c) == TableOf(m, s, c))
      && (r.Success? ==>
            && Next(TableOf(m, s, c), Insert(r.value, CutRow(row)), TableOf(m', s, c'))
            && (c' == c || (c' == c + [r.value.pageId] && r.value.pageId !in m)))
    }

    static lemma OutcomePacked(m: Store, m': Store, s: Schema, c: seq<PageId>, c': seq<PageId>, row: Row, r: Result<RID>)
      requires Schemas.Valid(s) && IsChain(m, s, c) && InsertOutcome(m, m', s, c, c', row, r)
      ensures Packed(m, s, c) ==> Packed(m', s, c')
    {
    }

    /** There is a place for a row: on the last page, or on a page that can still be allocated. */
    ghost predicate HasPlace()
      requires pool.Valid()
      reads this, pool.disk, pool.disk.file, pool.Footprint()
    {
      LastHasRoom() || (FitsPage() && pool.disk.CanAllocate())
    }

    /** A row in the right form goes in: the last page has room and could be fetched, or a page could be added. */
    twostate predicate CouldInsert()
      requires old(pool.Valid())
      reads this, pool.disk, pool.disk.file, pool.Footprint()
    {
      if old(LastHasRoom()) then Got(pool, old(lastPageId)) else Unhindered(pool) && FitsPage() && old(pool.disk.CanAllocate())
    }

    /** The status of an insert that failed. */
    twostate function InsertFailure(row: Row): Status
      requires old(pool.Valid())
      reads pool.disk, pool.disk.file, pool.Footprint()
    {
      if !Encodable(schema, row) then InvalidArgument
      else if pool.disk.file.faults > old(pool.disk.file.faults) then IOError
      else if Unhindered(pool) && old(pool.disk.CanAllocate()) then InvalidArgument
      else Internal
    }

    /**
     The pages an insert leaves: on success only the last page changed and a
     page was added exactly if the chain grew.  A row too big for any page leaves
     an empty page behind; an I/O failure leaves nothing, or, if it came when the
     new page was to be linked, the new page with the row.
     */
    static ghost predicate InsertPages(m: Store, m': Store, s: Schema, c: seq<PageId>, c': seq<PageId>, row: Row, r: Result<RID>)
      requires Schemas.Valid(s)
    {
      match r
      case Success(rid) =>
        c != [] && Keeps(m, m', [c[|c| - 1]]) && m'.Keys == if c' == c then m.Keys else m.Keys + {rid.pageId}
      case Failure(st) =>
        || (m' == m && !(st.InvalidArgument? && Encodable(s, row)))
        || exists q :: OneMorePage(m, m', q) && LeftBehind(m'[q], q, s, row, st)
    }

    static ghost predicate LeftBehind(b: Page, q: PageId, s: Schema, row: Row, st: Status)
      requires Schemas.Valid(s)
    {
      && Encodable(s, row)
      && (st.InvalidArgument? || st.IOError?)
      && (st.InvalidArgument? ==> EmptyTablePage(b, q))
      && (st.IOError? ==> NewTablePage(b, q, Encoded(s, row)))
    }

    method InsertRow(row: Row) returns (r: Result<RID>)
      requires Valid()
      modifies this`lastPageId, this`chain, pool.Footprint()
      ensures old(pool.disk.file.faults) <= pool.disk.file.faults <= old(pool.disk.file.faults) + 2
      ensures r.Success? ==> pool.disk.file.faults == old(pool.disk.file.faults) && Encodable(schema, row) && old(HasPlace())
      ensures pool.disk.file.faults <= old(pool.disk.file.faults) + 1 ==>
                && Valid() && pool.PinCounts() == old(pool.PinCounts()) && pool.Pending() <= old(pool.Pending())
                && InsertOutcome(old(pool.Pages()), pool.Pages(), schema, old(chain), chain, row, r)
                && InsertPages(old(pool.Pages()), pool.Pages(), schema, old(chain), chain, row, r)
                && (old(IsPacked()) ==> IsPacked())
      ensures !Encodable(schema, row) ==> pool.disk.file.faults == old(pool.disk.file.faults)
      ensures r.Success? ==> (chain == old(chain) <==> old(LastHasRoom()))
      ensures r.Success? <==> Encodable(schema, row) && CouldInsert()
      ensures r.Failure? ==>
                r.status == if !Encodable(schema, row) then InvalidArgument
                            else if pool.disk.file.faults > old(pool.disk.file.faults) then IOError
                            else if old(|pool.PinCounts()|) >= |pool.frames| || !old(pool.disk.CanAllocate()) then Internal
                            else InvalidArgument
      ensures Unhindered(pool) && Encodable(schema, row) ==>
                (r.Failure? && pool.Pages() != old(pool.Pages()) <==> !FitsPage() && old(pool.disk.CanAllocate()))
    {
      hide BufferPoolManager.Valid, BufferPoolManager.Pages, BufferPoolManager.PinCounts, BufferPoolManager.Pending,
           BufferPoolManager.View, BufferPoolManager.Footprint, BufferPoolManager.Local, Disk.DiskInv;
      hide InsertOutcome, InsertPages, IsChain, TableOf, Encodable, Encoded, HasSpace, Packed, Layout.EncodedSizeOf;
      OutsidePool();
      pool.InFootprint(0);
      var encodedRow := Codec.Encode(schema, row);
      pool.Untouched();
      if encodedRow.Failure? {
        NoInsert(pool.Pages(), pool.Pages(), schema, chain, row, encodedRow.status);
        SamePages(pool.Pages(), schema, chain, row, encodedRow.status);
        return Failure(encodedRow.status);
      }
      ghost var m, c := pool.Pages(), chain;
      r := InsertEncoded(row, encodedRow.value);
      if pool.disk.file.faults <= old(pool.disk.file.faults) + 1 {
        OutcomePacked(m, pool.Pages(), schema, c, chain, row, r);
      }
    }

    method InsertEncoded(row: Row, encodedRow: Bytes) returns (r: Result<RID>)
      requires Valid() && Encodable(schema, row) && encodedRow == Encoded(schema, row)
      modifies this`lastPageId, this`chain, pool.Footprint()
      ensures old(pool.disk.file.faults) <= pool.disk.file.faults <= old(pool.disk.file.faults) + 2
      ensures r.Success? ==> pool.disk.file.faults == old(pool.disk.file.faults) && old(HasPlace())
      ensures pool.disk.file.faults <= old(pool.disk.file.faults) + 1 ==>
                && Valid() && pool.PinCounts() == old(pool.PinCounts()) && pool.Pending() <= old(pool.Pending())
                && InsertOutcome(old(pool.Pages()), pool.Pages(), schema, old(chain), chain, row, r)
                && InsertPages(old(pool.Pages()), pool.Pages(), schema, old(chain), chain, row, r)
      ensures r.Success? ==> (chain == old(chain) <==> old(LastHasRoom()))
      ensures r.Success? <==> CouldInsert()
      ensures r.Failure? ==> r.status == InsertFailure(row)
      ensures Unhindered(pool) ==>
                (r.Failure? && pool.Pages() != old(pool.Pages()) <==> !FitsPage() && old(pool.disk.CanAllocate()))
    {
      hide BufferPoolManager.Valid, BufferPoolManager.Pages, BufferPoolManager.PinCounts, BufferPoolManager.Pending,
           BufferPoolManager.View, BufferPoolManager.Footprint, BufferPoolManager.Local, Disk.DiskInv;
      hide InsertOutcome, InsertPages, IsChain, TableOf, Encodable, Encoded, Pinned, Dropped, Keeps, WellFormed, Slots, HasSpace, InsertedInto;
      pool.InFootprint(0);
      OutsidePool();
      RoomIsOnPages();
      var full;
      r, full := InsertIntoLast(row, encodedRow);
      if full {
        r := Grow(row, encodedRow, lastPageId);
      }
    }

    /** First attempt of insertRow: the page at the end of the chain, unless it is full. */
    method InsertIntoLast(row: Row, encodedRow: Bytes) returns (r: Result<RID>, full: bool)
      requires Valid() && Encodable(schema, row) && encodedRow == Encoded(schema, row)
      modifies pool.Local(), pool.disk.file
      ensures old(pool.disk.file.faults) <= pool.disk.file.faults <= old(pool.disk.file.faults) + 1
      ensures r.Success? || full ==> pool.disk.file.faults == old(pool.disk.file.faults)
      ensures Valid() && pool.PinCounts() == old(pool.PinCounts()) && pool.Pending() <= old(pool.Pending())
      ensures lastPageId == old(lastPageId) && chain == old(chain)
      ensures InsertOutcome(old(pool.Pages()), pool.Pages(), schema, chain, chain, row, r)
      ensures !full ==> InsertPages(old(pool.Pages()), pool.Pages(), schema, chain, chain, row, r)
      ensures r.Success? ==> FitsPage()
      ensures (full ==> !old(LastHasRoom())) && (r.Success? ==> old(LastHasRoom()))
      ensures r.Success? || full <==> Got(pool, old(lastPageId))
      ensures r.Failure? ==> pool.Pages() == old(pool.Pages())
      ensures r.Failure? && !full ==> r.status == if pool.disk.file.faults > old(pool.disk.file.faults) then IOError else Internal
    {
      hide BufferPoolManager.Valid, BufferPoolManager.Pages, BufferPoolManager.PinCounts, BufferPoolManager.Pending,
           BufferPoolManager.View, BufferPoolManager.Footprint, BufferPoolManager.Local, Disk.DiskInv;
      hide InsertOutcome, InsertPages, IsChain, TableOf, Encodable, Encoded, Pinned, Dropped, Keeps, WellFormed, Slots, HasSpace,
           InsertedInto, Layout.EncodedSizeOf, Schemas.Valid, FitsEmptyPage, WroteBack;
      pool.PendingArePinnedPages();
      OutsidePool();
      ghost var m := pool.Pages();
      LastPage(m, schema, chain);
      StoredRow(schema, row);
      NoInsert(m, m, schema, chain, row, IOError);
      var oldLastPageId := lastPageId;
      var lastPage := Fetch(pool, oldLastPageId);
      if lastPage.Failure? {
        NotInserted(m, m, schema, chain, row, IOError, lastPage.status);
        SamePages(m, schema, chain, row, lastPage.status);
        return Failure(lastPage.status), false;
      }
      var slot := InsertAndUnpin(lastPage.value, oldLastPageId, encodedRow);
      if slot.Success? {
        AppendInserted(m, pool.Pages(), schema, chain, row, slot.value);
        return Success(RID(oldLastPageId, slot.value)), false;
      }
      NotInserted(m, m, schema, chain, row, IOError, slot.status);
      return Failure(slot.status), true;
    }

    /** The last page is full: add a page, then link it behind the last one. */
    method Grow(row: Row, encodedRow: Bytes, oldLastPageId: PageId) returns (r: Result<RID>)
      requires Valid() && Encodable(schema, row) && encodedRow == Encoded(schema, row) && oldLastPageId == lastPageId
      modifies this`lastPageId, this`chain, pool.Footprint()
      ensures old(pool.disk.file.faults) <= pool.disk.file.faults <= old(pool.disk.file.faults) + 2
      ensures r.Success? ==> pool.disk.file.faults == old(pool.disk.file.faults) && FitsPage() && old(pool.disk.CanAllocate())
      ensures pool.disk.file.faults <= old(pool.disk.file.faults) + 1 ==>
                && Valid() && pool.PinCounts() == old(pool.PinCounts()) && pool.Pending() <= old(pool.Pending())
                && InsertOutcome(old(pool.Pages()), pool.Pages(), schema, old(chain), chain, row, r)
                && InsertPages(old(pool.Pages()), pool.Pages(), schema, old(chain), chain, row, r)
      ensures r.Success? ==> chain != old(chain)
      ensures r.Failure? ==> r.status == InsertFailure(row)
      ensures r.Success? <==> Unhindered(pool) && FitsPage() && old(pool.disk.CanAllocate())
      ensures r.Failure? && r.status.InvalidArgument? ==> !FitsPage() && pool.Pages() != old(pool.Pages())
      ensures r.Failure? && r.status.Internal? ==> pool.Pages() == old(pool.Pages())
    {
      hide BufferPoolManager.Valid, BufferPoolManager.Pages, BufferPoolManager.PinCounts, BufferPoolManager.Pending,
           BufferPoolManager.View, BufferPoolManager.Footprint, BufferPoolManager.Local, Disk.DiskInv;
      hide InsertOutcome, InsertPages, IsChain, TableOf, NewTablePage, EmptyTablePage, LinkedTo, Encodable, Encoded, Keeps,
           WellFormed, Slots, Layout.EncodedSizeOf, Schemas.Valid;
      ghost var m, c := pool.Pages(), chain;
      pool.InFootprint(0);
      OutsidePool();
      StoredRow(schema, row);
      var newPage := AddPage(encodedRow);
      if newPage.Failure? {
        if pool.disk.file.faults <= old(pool.disk.file.faults) + 1 {
          PagesAdded(m, pool.Pages());
          NoInsert(m, pool.Pages(), schema, c, row, newPage.status);
          PageLeft(m, pool.Pages(), schema, c, row, newPage.status);
        }
        return Failure(newPage.status);
      }
      ghost var m1 := pool.Pages();
      PagesAdded(m, m1);
      NoInsert(m, m1, schema, c, row, IOError);
      LastPage(m1, schema, c);
      var st := LinkPage(oldLastPageId, newPage.value);
      if !st.Ok? {
        NotInserted(m, m1, schema, c, row, IOError, st);
        PageLeft(m, m1, schema, c, row, st);
        return Failure(st);
      }
      lastPageId := newPage.value;
      chain := chain + [newPage.value];
      LinkAdded(m, m1, pool.Pages(), schema, c, newPage.value, row);
      return Success(RID(newPage.value, 0));
    }

    static ghost predicate LinkedTo(m: Store, m': Store, p: PageId, next: PageId) {
      && p in m && p in m' && m' == m[p := m'[p]]
      && WellFormed(m[p]) && WellFormed(m'[p]) && NextOf(m'[p]) == next && IdOf(m'[p]) == IdOf(m[p])
      && Slots(m'[p]) == Slots(m[p]) && FreeEndOf(m'[p]) == FreeEndOf(m[p])
    }

    method LinkPage(p: PageId, next: PageId) returns (st: Status)
      requires pool.Valid() && p in pool.Pages() && WellFormed(pool.Pages()[p])
      modifies pool.Local(), pool.disk.file
      ensures old(pool.disk.file.faults) <= pool.disk.file.faults <= old(pool.disk.file.faults) + 1
      ensures pool.Valid() && pool.PinCounts() == old(pool.PinCounts()) && pool.Pending() <= old(pool.Pending())
      ensures st.Ok? ==> pool.disk.file.faults == old(pool.disk.file.faults) && LinkedTo(old(pool.Pages()), pool.Pages(), p, next)
      ensures !st.Ok? ==> pool.Pages() == old(pool.Pages())
      ensures !st.Ok? ==> st == if pool.disk.file.faults > old(pool.disk.file.faults) then IOError else Internal
      ensures st.Ok? <==> Got(pool, p)
    {
      hide BufferPoolManager.Valid, BufferPoolManager.Pages, BufferPoolManager.PinCounts, BufferPoolManager.Pending,
           BufferPoolManager.View, BufferPoolManager.Footprint, BufferPoolManager.Local, Disk.DiskInv, WellFormed, Slots, Pinned, Dropped, WroteBack;
      pool.PendingArePinnedPages();
      var page := Fetch(pool, p);
      if page.Failure? {
        return page.status;
      }
      st := LinkAndUnpin(page.value, p, next);
    }

    static lemma NotInserted(m: Store, m': Store, s: Schema, c: seq<PageId>, row: Row, st: Status, st': Status)
      requires Schemas.Valid(s) && IsChain(m, s, c) && InsertOutcome(m, m', s, c, c, row, Failure(st))
      ensures InsertOutcome(m, m', s, c, c, row, Failure(st'))
    {
    }

    /** An insert that changed no page, and one that left a page behind. */
    static lemma SamePages(m: Store, s: Schema, c: seq<PageId>, row: Row, st: Status)
      requires Schemas.Valid(s) && !(st.InvalidArgument? && Encodable(s, row))
      ensures InsertPages(m, m, s, c, c, row, Failure(st))
    {
    }

    static lemma PageLeft(m: Store, m': Store, s: Schema, c: seq<PageId>, row: Row, st: Status)
      requires Schemas.Valid(s) && Encodable(s, row)
      requires || (m' == m && !st.InvalidArgument?)
               || exists q :: OneMorePage(m, m', q) && LeftBehind(m'[q], q, s, row, st)
      ensures InsertPages(m, m', s, c, c, row, Failure(st))
      ensures st.InvalidArgument? ==> m' != m
    {
    }

    static lemma PagesAdded(m: Store, m': Store)
      requires m' == m || exists q :: OneMorePage(m, m', q)
      ensures Keeps(m, m', [])
    {
    }

    static lemma NoInsert(m: Store, m': Store, s: Schema, chain: seq<PageId>, row: Row, st: Status)
      requires Schemas.Valid(s) && IsChain(m, s, chain) && (m' == m || Keeps(m, m', []))
      ensures InsertOutcome(m, m', s, chain, chain, row, Failure(st)) && IsChain(m', s, chain)
    {
      forall i: nat | i < |chain|
        ensures chain[i] in m
      {
        assert RowPage(m, s, chain[i]);
      }
      SameChain(m, m', s, chain);
      if Packed(m, s, chain) {
        StaysPacked(m, m', s, chain);
      }
    }

    static lemma LastPage(m: Store, s: Schema, chain: seq<PageId>)
      requires Schemas.Valid(s) && IsChain(m, s, chain)
      ensures chain != [] && chain[|chain| - 1] in m && WellFormed(m[chain[|chain| - 1]])
    {
    }

    static lemma AppendInserted(m: Store, m': Store, s: Schema, chain: seq<PageId>, row: Row, slotId: SlotId)
      requires Schemas.Valid(s) && IsChain(m, s, chain) && Encodable(s, row)
      requires chain != [] && InsertedInto(m, m', chain[|chain| - 1], slotId, Encoded(s, row))
      ensures IsChain(m', s, chain)
      ensures InsertOutcome(m, m', s, chain, chain, row, Success(RID(chain[|chain| - 1], slotId)))
      ensures InsertPages(m, m', s, chain, chain, row, Success(RID(chain[|chain| - 1], slotId)))
    {
      AppendToLast(m, m', s, chain, row);
      if Packed(m, s, chain) {
        AppendedStaysPacked(m, m', s, chain, row, slotId);
      }
    }

    static lemma AppendedStaysPacked(m: Store, m': Store, s: Schema, chain: seq<PageId>, row: Row, slotId: SlotId)
      requires Schemas.Valid(s) && Packed(m, s, chain) && Encodable(s, row)
      requires chain != [] && InsertedInto(m, m', chain[|chain| - 1], slotId, Encoded(s, row))
      ensures Packed(m', s, chain)
    {
      hide WellFormed, Slots, Encodable, Layout.EncodedSizeOf;
      var (p, size) := (chain[|chain| - 1], Layout.EncodedSizeOf(s));
      forall i: nat | i < |chain|
        ensures chain[i] in m' && PackedPage(m'[chain[i]], size)
      {
        assert chain[i] in m && PackedPage(m[chain[i]], size);
        if chain[i] == p {
          PackedMore(m[p], m'[p], size);
        }
      }
    }

    /** m, then m1 with the new page q, then m' with the link to it. */
    static lemma LinkAdded(m: Store, m1: Store, m': Store, s: Schema, chain: seq<PageId>, q: PageId, row: Row)
      requires Schemas.Valid(s) && IsChain(m, s, chain) && Encodable(s, row) && chain != []
      requires q !in m && q in m1 && q != INVALID_PAGE_ID && m1 == m[q := m1[q]] && NewTablePage(m1[q], q, Encoded(s, row))
      requires LinkedTo(m1, m', chain[|chain| - 1], q)
      ensures IsChain(m', s, chain + [q])
      ensures InsertOutcome(m, m', s, chain, chain + [q], row, Success(RID(q, 0)))
      ensures InsertPages(m, m', s, chain, chain + [q], row, Success(RID(q, 0)))
    {
      var p := chain[|chain| - 1];
      assert RowPage(m, s, p);
      assert p != q && m1[p] == m[p] && m'[q] == m1[q];
      LinkNewPage(m, m', s, chain, q, row);
      if Packed(m, s, chain) {
        StaysPacked(m, m', s, chain);
        assert PackedPage(m'[q], Layout.EncodedSizeOf(s));
      }
    }

    // ---------- reading and changing rows ----------

    /**
     The RIDs that may be asked for.  The page need not be of this table: it is
     a table page of any table, or not in the store at all.
     */
    ghost predicate Addressable(rid: RID)
      requires pool.Valid()
      reads this, pool.disk, pool.disk.file, pool.Footprint()
    {
      rid.pageId !in pool.disk.freeList && OnTablePage(pool.Pages(), rid)
    }

    /** The cell of the table at rid. */
    ghost function CellOf(rid: RID): Cell
      requires Valid()
      reads this, pool.disk, pool.disk.file, pool.Footprint()
    {
      Get(TableOf(pool.Pages(), schema, chain), rid)
    }

    /** The RID names a page of this table, or no page. */
    ghost predicate IsOwn(rid: RID)
      requires pool.Valid()
      reads this, pool.disk, pool.disk.file, pool.Footprint()
    {
      rid.pageId in chain || rid.pageId !in pool.Pages()
    }

    /** What the page of the RID answers to a read, a delete, and an update with a row of this schema. */
    ghost function PageAnswer(rid: RID): Result<Row>
      requires pool.Valid() && Schemas.Valid(schema) && Addressable(rid)
      reads this, pool.disk, pool.disk.file, pool.Footprint()
    {
      ReadAnswer(pool.Pages(), schema, rid)
    }

    ghost function DeleteAnswer(rid: RID): Status
      requires pool.Valid() && Addressable(rid)
      reads this, pool.disk, pool.disk.file, pool.Footprint()
    {
      ChangeAnswer(pool.Pages(), rid, None)
    }

    ghost function UpdateAnswer(rid: RID): Status
      requires pool.Valid() && Addressable(rid)
      reads this, pool.disk, pool.disk.file, pool.Footprint()
    {
      ChangeAnswer(pool.Pages(), rid, Some(Layout.EncodedSizeOf(schema)))
    }

    ghost function RawAnswer(rid: RID): Result<Bytes>
      requires pool.Valid() && Addressable(rid)
      reads this, pool.disk, pool.disk.file, pool.Footprint()
    {
      PayloadAt(pool.Pages(), rid)
    }

    method ReadRow(rid: RID) returns (r: Result<Row>)
      requires Valid() && Addressable(rid)
      modifies pool.Local(), pool.disk.file
      ensures old(pool.disk.file.faults) <= pool.disk.file.faults <= old(pool.disk.file.faults) + 1
      ensures Valid() && lastPageId == old(lastPageId) && chain == old(chain)
      ensures pool.Pages() == old(pool.Pages())
      ensures pool.PinCounts() == old(pool.PinCounts()) && pool.Pending() == old(pool.Pending())
      ensures WroteBack(pool, rid.pageId)
      ensures r == if Got(pool, rid.pageId) then old(PageAnswer(rid))
                   else Failure(if pool.disk.file.faults > old(pool.disk.file.faults) then IOError else Internal)
      ensures IsOwn(rid) ==> old(PageAnswer(rid)) == ReadOutcome(CellOf(rid))
    {
      hide BufferPoolManager.Valid, BufferPoolManager.Pages, BufferPoolManager.PinCounts, BufferPoolManager.Pending,
           BufferPoolManager.View, BufferPoolManager.Footprint, BufferPoolManager.Local, Disk.DiskInv;
      hide IsChain, TableOf, Decodable, Decoded, SlotOf, Pinned, Dropped, WellFormed, PayloadAt;
      pool.PendingArePinnedPages();
      if IsOwn(rid) {
        OwnAnswers(pool.Pages(), schema, chain, rid);
      }
      var raw := ReadRaw(rid);
      if raw.Failure? {
        return Failure(raw.status);
      }
      label Read:
      r := Codec.Decode(schema, raw.value);
      pool.Untouched@Read();
    }

    /** The payload bytes under a RID. */
    method ReadRaw(rid: RID) returns (r: Result<Bytes>)
      requires Valid() && Addressable(rid)
      modifies pool.Local(), pool.disk.file
      ensures old(pool.disk.file.faults) <= pool.disk.file.faults <= old(pool.disk.file.faults) + 1
      ensures Valid() && lastPageId == old(lastPageId) && chain == old(chain)
      ensures pool.Pages() == old(pool.Pages())
      ensures pool.PinCounts() == old(pool.PinCounts()) && pool.Pending() == old(pool.Pending())
      ensures WroteBack(pool, rid.pageId)
      ensures r == if Got(pool, rid.pageId) then old(RawAnswer(rid))
                   else Failure(if pool.disk.file.faults > old(pool.disk.file.faults) then IOError else Internal)
    {
      hide BufferPoolManager.Valid, BufferPoolManager.Pages, BufferPoolManager.PinCounts, BufferPoolManager.Pending,
           BufferPoolManager.View, BufferPoolManager.Footprint, BufferPoolManager.Local, Disk.DiskInv;
      hide IsChain, SlotOf, Pinned, Dropped, WellFormed;
      OutsidePool();
      pool.PendingArePinnedPages();
      var page := Fetch(pool, rid.pageId);
      if page.Failure? {
        return Failure(page.status);
      }
      r := ReadAndUnpin(pool, page.value, rid.pageId, rid.slotId);
    }

    method DeleteAndUnpin(f: Frame, p: PageId, slotId: SlotId) returns (st: Status)
      requires Pinned(pool, f, p) && WellFormed(pool.Pages()[p]) && pool.PinCounts()[p] > 0
      modifies pool.Local(), pool.disk.file
      ensures pool.disk.file.faults == old(pool.disk.file.faults)
      ensures pool.Valid() && pool.PinCounts() == old(Dropped(pool.PinCounts(), p)) && pool.Pending() <= old(pool.Pending())
      ensures st == match old(SlotOf(pool.Pages(), p, slotId)) case Success(_) => Status.Ok case Failure(e) => e
      ensures st.Ok? ==> SlotChanged(old(pool.Pages()), pool.Pages(), p, slotId, None)
      ensures !st.Ok? ==> pool.Pages() == old(pool.Pages())
      ensures pool.disk.Valid() && pool.disk.Store() == old(pool.disk.Store())
    {
      hide BufferPoolManager.Valid, BufferPoolManager.Pages, BufferPoolManager.PinCounts, BufferPoolManager.Pending,
           BufferPoolManager.View, BufferPoolManager.Footprint, BufferPoolManager.Local, Disk.DiskInv, WellFormed, Slots;
      var sp := new SlottedPage(f.data);
      st := sp.DeleteRow(slotId);
      TablePagesAreNotFree(f.data[..]);
      pool.Edited(p);
      var unpinned := pool.UnpinPage(p, st.Ok?);
      if !unpinned.Ok? {
        return unpinned;
      }
    }

    method UpdateAndUnpin(f: Frame, p: PageId, slotId: SlotId, payload: Bytes) returns (st: Status)
      requires Pinned(pool, f, p) && WellFormed(pool.Pages()[p]) && pool.PinCounts()[p] > 0
      modifies pool.Local(), pool.disk.file
      ensures pool.disk.file.faults == old(pool.disk.file.faults)
      ensures pool.Valid() && pool.PinCounts() == old(Dropped(pool.PinCounts(), p)) && pool.Pending() <= old(pool.Pending())
      ensures st == match old(SlotOf(pool.Pages(), p, slotId))
                    case Success(b) => if |b| == |payload| then Status.Ok else InvalidArgument
                    case Failure(e) => e
      ensures st.Ok? ==> SlotChanged(old(pool.Pages()), pool.Pages(), p, slotId, Some(payload))
      ensures !st.Ok? ==> pool.Pages() == old(pool.Pages())
      ensures pool.disk.Valid() && pool.disk.Store() == old(pool.disk.Store())
    {
      hide BufferPoolManager.Valid, BufferPoolManager.Pages, BufferPoolManager.PinCounts, BufferPoolManager.Pending,
           BufferPoolManager.View, BufferPoolManager.Footprint, BufferPoolManager.Local, Disk.DiskInv, WellFormed, Slots;
      var sp := new SlottedPage(f.data);
      st := sp.UpdateRow(slotId, payload);
      TablePagesAreNotFree(f.data[..]);
      pool.Edited(p);
      var unpinned := pool.UnpinPage(p, st.Ok?);
      if !unpinned.Ok? {
        return unpinned;
      }
    }

    /** What a change of one slot of one page does to this table: a step if the page is its own, else nothing. */
    static lemma ChangeSeen(m: Store, m': Store, s: Schema, chain: seq<PageId>, rid: RID, payload: Option<Bytes>)
      requires Schemas.Valid(s) && IsChain(m, s, chain) && PayloadOk(s, payload)
      requires SlotChanged(m, m', rid.pageId, rid.slotId, payload)
      ensures IsChain(m', s, chain)
      ensures rid.pageId in chain ==> Next(TableOf(m, s, chain), SlotStep(s, rid, payload), TableOf(m', s, chain))
      ensures rid.pageId !in chain ==> TableOf(m', s, chain) == TableOf(m, s, chain)
      ensures Packed(m, s, chain) ==> Packed(m', s, chain)
    {
      hide IsChain, TableOf, WellFormed, Slots, Decodable, Decoded, Next;
      if rid.pageId in chain {
        SlotChangeIsStep(m, m', s, chain, rid, payload);
      } else {
        ChainIsStored(m, s, chain);
        SameChain(m, m', s, chain);
      }
      if Packed(m, s, chain) {
        StaysPacked(m, m', s, chain);
      }
    }

    method DeleteRow(rid: RID) returns (st: Status)
      requires Valid() && Addressable(rid)
      modifies pool.Local(), pool.disk.file
      ensures old(pool.disk.file.faults) <= pool.disk.file.faults <= old(pool.disk.file.faults) + 1
      ensures Valid() && lastPageId == old(lastPageId) && chain == old(chain)
      ensures pool.PinCounts() == old(pool.PinCounts()) && pool.Pending() <= old(pool.Pending())
      ensures WroteBack(pool, rid.pageId)
      ensures st == if Got(pool, rid.pageId) then old(DeleteAnswer(rid))
                    else if pool.disk.file.faults > old(pool.disk.file.faults) then IOError else Internal
      ensures !st.Ok? ==> pool.Pages() == old(pool.Pages())
      ensures st.Ok? ==> SlotChanged(old(pool.Pages()), pool.Pages(), rid.pageId, rid.slotId, None)
      ensures st.Ok? && rid.pageId in chain ==> Next(old(View()), Delete(rid), View())
      ensures rid.pageId !in chain ==> View() == old(View())
      ensures old(IsPacked()) ==> IsPacked()
      ensures old(IsOwn(rid)) ==> old(DeleteAnswer(rid)) == old(ChangeOutcome(CellOf(rid)))
    {
      hide BufferPoolManager.Valid, BufferPoolManager.Pages, BufferPoolManager.PinCounts, BufferPoolManager.Pending,
           BufferPoolManager.View, BufferPoolManager.Footprint, BufferPoolManager.Local, Disk.DiskInv;
      hide IsChain, TableOf, SlotChanged, WellFormed, Next, ChangeAnswer, Packed;
      if IsOwn(rid) {
        OwnAnswers(pool.Pages(), schema, chain, rid);
      }
      st := DeleteOnPage(rid);
    }

    method DeleteOnPage(rid: RID) returns (st: Status)
      requires Valid() && Addressable(rid)
      modifies pool.Local(), pool.disk.file
      ensures old(pool.disk.file.faults) <= pool.disk.file.faults <= old(pool.disk.file.faults) + 1
      ensures Valid() && lastPageId == old(lastPageId) && chain == old(chain)
      ensures pool.PinCounts() == old(pool.PinCounts()) && pool.Pending() <= old(pool.Pending())
      ensures WroteBack(pool, rid.pageId)
      ensures st == if Got(pool, rid.pageId) then old(DeleteAnswer(rid))
                    else if pool.disk.file.faults > old(pool.disk.file.faults) then IOError else Internal
      ensures !st.Ok? ==> pool.Pages() == old(pool.Pages())
      ensures st.Ok? ==> SlotChanged(old(pool.Pages()), pool.Pages(), rid.pageId, rid.slotId, None)
      ensures st.Ok? && rid.pageId in chain ==> Next(old(View()), Delete(rid), View())
      ensures rid.pageId !in chain ==> View() == old(View())
      ensures old(IsPacked()) ==> IsPacked()
    {
      hide BufferPoolManager.Valid, BufferPoolManager.Pages, BufferPoolManager.PinCounts, BufferPoolManager.Pending,
           BufferPoolManager.View, BufferPoolManager.Footprint, BufferPoolManager.Local, Disk.DiskInv;
      hide IsChain, TableOf, SlotOf, SlotChanged, Pinned, Dropped, WellFormed, Next, Packed;
      OutsidePool();
      pool.PendingArePinnedPages();
      ghost var m := pool.Pages();
      var page := Fetch(pool, rid.pageId);
      if page.Failure? {
        return page.status;
      }
      st := DeleteAndUnpin(page.value, rid.pageId, rid.slotId);
      if st.Ok? {
        ChangeSeen(m, pool.Pages(), schema, chain, rid, None);
      }
    }

    /** Every encoded row has the size of the schema, so on the table's own pages sizes never differ. */
    method UpdateRow(rid: RID, row: Row) returns (st: Status)
      requires Valid() && Addressable(rid)
      modifies pool.Local(), pool.disk.file
      ensures old(pool.disk.file.faults) <= pool.disk.file.faults <= old(pool.disk.file.faults) + 1
      ensures Valid() && lastPageId == old(lastPageId) && chain == old(chain)
      ensures pool.PinCounts() == old(pool.PinCounts()) && pool.Pending() <= old(pool.Pending())
      ensures WroteBack(pool, rid.pageId)
      ensures !Encodable(schema, row) ==> st == InvalidArgument && pool.disk.file.faults == old(pool.disk.file.faults)
      ensures Encodable(schema, row) ==>
                st == if Got(pool, rid.pageId) then old(UpdateAnswer(rid))
                      else if pool.disk.file.faults > old(pool.disk.file.faults) then IOError else Internal
      ensures !st.Ok? ==> pool.Pages() == old(pool.Pages())
      ensures st.Ok? ==>
                && Encodable(schema, row)
                && SlotChanged(old(pool.Pages()), pool.Pages(), rid.pageId, rid.slotId, Some(Encoded(schema, row)))
      ensures st.Ok? && rid.pageId in chain ==> Next(old(View()), Update(rid, CutRow(row)), View())
      ensures rid.pageId !in chain ==> View() == old(View())
      ensures old(IsPacked()) ==> IsPacked()
      ensures old(IsOwn(rid)) ==> old(UpdateAnswer(rid)) == old(ChangeOutcome(CellOf(rid)))
    {
      hide BufferPoolManager.Valid, BufferPoolManager.Pages, BufferPoolManager.PinCounts, BufferPoolManager.Pending,
           BufferPoolManager.View, BufferPoolManager.Footprint, BufferPoolManager.Local, Disk.DiskInv;
      hide IsChain, TableOf, Encodable, Encoded, Next, SlotChanged, WellFormed, ChangeAnswer, Packed;
      if IsOwn(rid) {
        OwnAnswers(pool.Pages(), schema, chain, rid);
      }
      var encodedRow := Codec.Encode(schema, row);
      pool.Untouched();
      pool.ValidParts();
      if encodedRow.Failure? {
        return encodedRow.status;
      }
      st := UpdateEncoded(rid, row, encodedRow.value);
    }

    method UpdateEncoded(rid: RID, row: Row, encodedRow: Bytes) returns (st: Status)
      requires Valid() && Addressable(rid) && Encodable(schema, row) && encodedRow == Encoded(schema, row)
      modifies pool.Local(), pool.disk.file
      ensures old(pool.disk.file.faults) <= pool.disk.file.faults <= old(pool.disk.file.faults) + 1
      ensures Valid() && lastPageId == old(lastPageId) && chain == old(chain)
      ensures pool.PinCounts() == old(pool.PinCounts()) && pool.Pending() <= old(pool.Pending())
      ensures WroteBack(pool, rid.pageId)
      ensures st == if Got(pool, rid.pageId) then old(UpdateAnswer(rid))
                    else if pool.disk.file.faults > old(pool.disk.file.faults) then IOError else Internal
      ensures !st.Ok? ==> pool.Pages() == old(pool.Pages())
      ensures st.Ok? ==> SlotChanged(old(pool.Pages()), pool.Pages(), rid.pageId, rid.slotId, Some(encodedRow))
      ensures st.Ok? && rid.pageId in chain ==> Next(old(View()), Update(rid, CutRow(row)), View())
      ensures rid.pageId !in chain ==> View() == old(View())
      ensures old(IsPacked()) ==> IsPacked()
    {
      hide BufferPoolManager.Valid, BufferPoolManager.Pages, BufferPoolManager.PinCounts, BufferPoolManager.Pending,
           BufferPoolManager.View, BufferPoolManager.Footprint, BufferPoolManager.Local, Disk.DiskInv;
      hide IsChain, TableOf, Decodable, Decoded, Encodable, Encoded, SlotOf, SlotChanged, Pinned, Dropped, WellFormed, Next, CutRow,
           Packed;
      OutsidePool();
      pool.PendingArePinnedPages();
      ghost var m := pool.Pages();
      RowRoundTrip(schema, row);
      var page := Fetch(pool, rid.pageId);
      if page.Failure? {
        return page.status;
      }
      st := UpdateAndUnpin(page.value, rid.pageId, rid.slotId, encodedRow);
      if st.Ok? {
        ChangeSeen(m, pool.Pages(), schema, chain, rid, Some(encodedRow));
      }
    }
  }
}
