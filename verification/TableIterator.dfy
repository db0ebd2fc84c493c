/** The resumable scan: a page id, a slot and at most one row loaded ahead. */
module TableIterators {
  import opened Bytes
  import opened Core
  import opened Schemas
  import opened Codec
  import opened SlottedPages
  import opened Buffer
  import opened TableModel
  import opened Chains
  import opened PageAccess
  import opened ScanModel
  import Disk

  /** What a page says at a slot: nothing further, a tombstone, or a payload. */
  datatype Look = NoMore(next: PageId) | Tombstone | Payload(b: Bytes)

  ghost function LookOf(m: Store, p: PageId, slotId: nat): Look
    requires p in m && WellFormed(m[p])
  {
    if slotId >= |Slots(m[p])| then NoMore(NextOf(m[p]))
    else match Slots(m[p])[slotId] case None => Tombstone case Some(b) => Payload(b)
  }

  /** The iterator's page and slot name a position of the table, `page` being its index. */
  ghost predicate Placed(m: Store, s: Schema, chain: seq<PageId>, pageId: PageId, slotId: SlotId, page: nat)
    requires Schemas.Valid(s) && IsChain(m, s, chain)
  {
    pageId != INVALID_PAGE_ID ==>
      && page < |chain| && chain[page] == pageId
      && slotId <= |TableOf(m, s, chain)[page].slots|
  }

  ghost function CursorOf(pageId: PageId, slotId: SlotId, page: nat): Cursor {
    if pageId == INVALID_PAGE_ID || slotId == INVALID_SLOT_ID then Done else At(page, slotId)
  }

  lemma PlacedInTable(m: Store, s: Schema, chain: seq<PageId>, pageId: PageId, slotId: SlotId, page: nat)
    requires Schemas.Valid(s) && IsChain(m, s, chain) && Placed(m, s, chain, pageId, slotId, page)
    ensures IsTable(TableOf(m, s, chain)) && InTable(TableOf(m, s, chain), CursorOf(pageId, slotId, page))
    ensures pageId != INVALID_PAGE_ID ==> pageId in m && WellFormed(m[pageId]) && page < |chain|
    ensures pageId != INVALID_PAGE_ID ==> slotId != INVALID_SLOT_ID && slotId <= |Slots(m[pageId])| <= MAX_SLOTS
  {
  }

  /** Whatever a table operation does, the iterator still names a position. */
  lemma PlacedAfterChange(m: Store, m': Store, s: Schema, chain: seq<PageId>, chain': seq<PageId>, step: Step,
                          pageId: PageId, slotId: SlotId, page: nat)
    requires Schemas.Valid(s) && IsChain(m, s, chain) && IsChain(m', s, chain')
    requires Next(TableOf(m, s, chain), step, TableOf(m', s, chain'))
    requires Placed(m, s, chain, pageId, slotId, page)
    ensures Placed(m', s, chain', pageId, slotId, page)
  {
    StepGrows(TableOf(m, s, chain), step, TableOf(m', s, chain'));
    if pageId != INVALID_PAGE_ID {
      assert TableOf(m, s, chain)[page] == PageAt(m, s, chain, page);
      assert TableOf(m', s, chain')[page] == PageAt(m', s, chain', page);
    }
  }

  /** What looking at one slot tells about the table. */
  lemma LookMeans(m: Store, s: Schema, chain: seq<PageId>, page: nat, slotId: nat)
    requires Schemas.Valid(s) && IsChain(m, s, chain) && page < |chain| && slotId < INVALID_SLOT_ID
    ensures IsTable(TableOf(m, s, chain)) && chain[page] in m && WellFormed(m[chain[page]])
    ensures var t := TableOf(m, s, chain);
            t[page].id == chain[page] &&
            match LookOf(m, chain[page], slotId)
            case NoMore(next) =>
              slotId >= |t[page].slots| && next == if page + 1 < |chain| then chain[page + 1] else INVALID_PAGE_ID
            case Tombstone => slotId < |t[page].slots| && !LiveAt(t, page, slotId)
            case Payload(b) => Decodable(s, b) && LiveAt(t, page, slotId) && t[page].slots[slotId] == Some(Decoded(s, b))
    ensures page + 1 < |chain| ==> chain[page + 1] != INVALID_PAGE_ID
  {
    TableOfIsTable(m, s, chain);
    assert RowPage(m, s, chain[page]) && Linked(m, chain, page);
    assert TableOf(m, s, chain)[page] == PageAt(m, s, chain, page);
    if slotId < |Slots(m[chain[page]])| {
      assert PayloadOk(s, Slots(m[chain[page]])[slotId]);
    }
    if page + 1 < |chain| {
      assert RowPage(m, s, chain[page + 1]);
    }
  }

  lemma SkipSlot(t: Table, c0: Cursor, page: nat, slotId: nat)
    requires Skips(t, c0, At(page, slotId)) && !LiveAt(t, page, slotId)
    ensures Skips(t, c0, At(page, slotId + 1))
  {
  }

  lemma SkipPage(t: Table, c0: Cursor, page: nat, slotId: nat)
    requires Skips(t, c0, At(page, slotId)) && page < |t| && slotId >= |t[page].slots|
    ensures page + 1 < |t| ==> Skips(t, c0, At(page + 1, 0))
    ensures page + 1 == |t| ==> Skips(t, c0, Done)
  {
  }

  lemma FoundHere(t: Table, c0: Cursor, page: nat, slotId: SlotId, row: Row)
    requires IsTable(t) && Skips(t, c0, At(page, slotId)) && LiveAt(t, page, slotId)
    requires t[page].slots[slotId] == Some(row)
    ensures Loads(t, c0, At(page, slotId + 1), Found(Entry(RID(t[page].id, slotId), row)))
  {
    assert FoundAt(t, c0, At(page, slotId + 1), Entry(RID(t[page].id, slotId), row), page, slotId);
  }

  lemma FoundNothing(t: Table, c0: Cursor, c: Cursor, o: Outcome)
    requires IsTable(t) && Skips(t, c0, c) && InTable(t, c) && !o.Found? && (o.Exhausted? ==> c.Done?)
    ensures Loads(t, c0, c, o)
  {
  }

  method LookAndUnpin(pool: BufferPoolManager, f: Frame, p: PageId, slotId: SlotId) returns (r: Result<Look>)
    requires Pinned(pool, f, p) && WellFormed(pool.Pages()[p]) && pool.PinCounts()[p] > 0
    modifies pool.Local(), pool.disk.file
    ensures pool.disk.file.faults == old(pool.disk.file.faults)
    ensures pool.Valid() && pool.PinCounts() == old(Dropped(pool.PinCounts(), p)) && pool.Pending() == old(pool.Pending())
    ensures pool.disk.Valid() && pool.disk.Store() == old(pool.disk.Store())
    ensures pool.Pages() == old(pool.Pages()) && r == Success(LookOf(old(pool.Pages()), p, slotId))
  {
    hide BufferPoolManager.Valid, BufferPoolManager.Pages, BufferPoolManager.PinCounts, BufferPoolManager.Pending,
         BufferPoolManager.View, BufferPoolManager.Footprint, BufferPoolManager.Local, Disk.DiskInv;
    var count, next := U16(f.data[..], 12), U32(f.data[..], 8);
    if slotId >= count {
      var st := pool.UnpinPage(p, false);
      return if st.Ok? then Success(NoMore(next)) else Failure(st);
    }
    var payload := ReadAndUnpin(pool, f, p, slotId);
    match payload {
      case Success(b) => return Success(Payload(b));
      case Failure(st) => return if st == NotFound then Success(Tombstone) else Failure(st);
    }
  }

  /** Fetch a page, look at one slot, unpin. */
  method Peek(pool: BufferPoolManager, p: PageId, slotId: SlotId) returns (r: Result<Look>)
    requires pool.Valid() && p in pool.Pages() && WellFormed(pool.Pages()[p])
    modifies pool.Local(), pool.disk.file
    ensures old(pool.disk.file.faults) <= pool.disk.file.faults <= old(pool.disk.file.faults) + 1
    ensures pool.Valid() && pool.Pages() == old(pool.Pages())
    ensures pool.PinCounts() == old(pool.PinCounts()) && pool.Pending() == old(pool.Pending())
    ensures WroteBack(pool, p)
    ensures r.Success? ==> pool.disk.file.faults == old(pool.disk.file.faults) && r.value == LookOf(old(pool.Pages()), p, slotId)
    ensures r.Failure? ==> r.status == if pool.disk.file.faults > old(pool.disk.file.faults) then IOError else Internal
    ensures r.Success? <==> Got(pool, p)
    ensures old(|pool.PinCounts()|) < |pool.frames| && pool.disk.file.faults == old(pool.disk.file.faults) ==> r.Success?
  {
    hide BufferPoolManager.Valid, BufferPoolManager.Pages, BufferPoolManager.PinCounts, BufferPoolManager.Pending,
         BufferPoolManager.View, BufferPoolManager.Footprint, BufferPoolManager.Local, Disk.DiskInv, WellFormed, Slots, Pinned, Dropped, LookOf;
    pool.PendingArePinnedPages();
    var fetched := Fetch(pool, p);
    if fetched.Failure? {
      return Failure(fetched.status);
    }
    r := LookAndUnpin(pool, fetched.value, p, slotId);
  }

  method DecodePayload(pool: BufferPoolManager, s: Schema, b: Bytes) returns (r: Result<Row>)
    requires pool.Valid() && Schemas.Valid(s)
    ensures r.Success? <==> Decodable(s, b)
    ensures r.Success? ==> r.value == Decoded(s, b)
    ensures r.Failure? ==> r.status == InvalidArgument
    ensures pool.Valid() && pool.Pages() == old(pool.Pages())
    ensures pool.PinCounts() == old(pool.PinCounts()) && pool.Pending() == old(pool.Pending())
  {
    hide BufferPoolManager.Valid, BufferPoolManager.Pages, BufferPoolManager.PinCounts, BufferPoolManager.Pending,
         BufferPoolManager.View, BufferPoolManager.Footprint, BufferPoolManager.Local, Disk.DiskInv;
    r := Codec.Decode(s, b);
    pool.Untouched();
  }

  class TableIterator {
    const pool: BufferPoolManager
    const schema: Schema
    var nextPageId: PageId
    var nextSlotId: SlotId
    var cachedEntry: Option<Entry>
    ghost var page: nat

    constructor (pool: BufferPoolManager, schema: Schema, firstPageId: PageId)
      ensures this.pool == pool && this.schema == schema && cachedEntry == None
      ensures nextPageId == firstPageId && nextSlotId == 0 && page == 0
    {
      this.pool, this.schema, nextPageId, nextSlotId := pool, schema, firstPageId, 0;
      cachedEntry, page := None, 0;
    }

    ghost function Cursor(): ScanModel.Cursor
      reads this
    {
      CursorOf(nextPageId, nextSlotId, page)
    }

    /** The iterator is over the table whose pages are `chain`. */
    ghost predicate Valid(chain: seq<PageId>)
      reads this, pool.disk, pool.disk.file, pool.Footprint()
    {
      && pool.Valid() && Schemas.Valid(schema)
      && IsChain(pool.Pages(), schema, chain)
      && Placed(pool.Pages(), schema, chain, nextPageId, nextSlotId, page)
    }

    ghost function Table(chain: seq<PageId>): TableModel.Table
      requires Valid(chain)
      reads this, pool.disk, pool.disk.file, pool.Footprint()
    {
      TableOf(pool.Pages(), schema, chain)
    }

    lemma OutsidePool()
      ensures this as object !in pool.Footprint() && this as object !in pool.Local() && this as object != pool.disk.file
    {
    }

    static function OutcomeOf(r: Result<Entry>): Outcome {
      match r
      case Success(e) => Found(e)
      case Failure(st) => if st.NotFound? then Exhausted else Failed(st)
    }

    method LoadNext(ghost chain: seq<PageId>) returns (r: Result<Entry>)
      requires Valid(chain)
      modifies this`nextPageId, this`nextSlotId, this`page, pool.Local(), pool.disk.file
      ensures old(pool.disk.file.faults) <= pool.disk.file.faults <= old(pool.disk.file.faults) + 1
      ensures Valid(chain) && cachedEntry == old(cachedEntry)
      ensures pool.Pages() == old(pool.Pages()) && pool.PinCounts() == old(pool.PinCounts()) && pool.Pending() == old(pool.Pending())
      ensures Loads(Table(chain), old(Cursor()), Cursor(), OutcomeOf(r))
      ensures r.Failure? && r.status != NotFound ==> r.status == if pool.disk.file.faults > old(pool.disk.file.faults) then IOError else Internal
      ensures pool.disk.file.faults > old(pool.disk.file.faults) ==> r == Failure(IOError)
      ensures pool.disk.file.faults == old(pool.disk.file.faults) && old(|pool.PinCounts()|) < |pool.frames| ==>
                r.Success? || r.status == NotFound
    {
      hide BufferPoolManager.Valid, BufferPoolManager.Pages, BufferPoolManager.PinCounts, BufferPoolManager.Pending,
           BufferPoolManager.View, BufferPoolManager.Footprint, BufferPoolManager.Local, Disk.DiskInv;
      hide IsChain, TableOf, Skips, LookOf, WellFormed, Slots, Decodable, Decoded, IsTable, Schemas.Valid, Loads, LiveAt, InTable, Got, WroteBack;
      OutsidePool();
      ghost var m, t, c0 := pool.Pages(), Table(chain), Cursor();
      PlacedInTable(m, schema, chain, nextPageId, nextSlotId, page);
      SkipsNothing(t, c0);
      while nextPageId != INVALID_PAGE_ID && nextSlotId != INVALID_SLOT_ID
        invariant Valid(chain) && cachedEntry == old(cachedEntry)
        invariant pool.Pages() == m && pool.PinCounts() == old(pool.PinCounts()) && pool.Pending() == old(pool.Pending())
        invariant pool.disk.file.faults == old(pool.disk.file.faults)
        invariant Skips(t, c0, Cursor())
        decreases if nextPageId == INVALID_PAGE_ID then 0 else |chain| - page + 1, INVALID_SLOT_ID - nextSlotId
      {
        PlacedInTable(m, schema, chain, nextPageId, nextSlotId, page);
        LookMeans(m, schema, chain, page, nextSlotId);
        var look := Peek(pool, nextPageId, nextSlotId);
        if look.Failure? {
          FoundNothing(t, c0, Cursor(), Failed(look.status));
          return Failure(look.status);
        }
        match look.value {
          case NoMore(next) =>
            SkipPage(t, c0, page, nextSlotId);
            nextPageId := next;
            nextSlotId := if next == INVALID_PAGE_ID then INVALID_SLOT_ID else 0;
            page := page + 1;
          case Tombstone =>
            SkipSlot(t, c0, page, nextSlotId);
            nextSlotId := nextSlotId + 1;
          case Payload(b) =>
            var row := DecodePayload(pool, schema, b);
            if row.Failure? {
              return Failure(row.status);
            }
            FoundHere(t, c0, page, nextSlotId, row.value);
            r := Success(Entry(RID(nextPageId, nextSlotId), row.value));
            nextSlotId := nextSlotId + 1;
            return;
        }
      }
      PlacedInTable(m, schema, chain, nextPageId, nextSlotId, page);
      FoundNothing(t, c0, Cursor(), Exhausted);
      return Failure(NotFound);
    }

    static lemma SkipsNothing(t: TableModel.Table, c: ScanModel.Cursor)
      ensures Skips(t, c, c)
    {
    }

    /** hasNext loads one row ahead unless one is already there. */
    method HasNext(ghost chain: seq<PageId>) returns (r: Result<bool>)
      requires Valid(chain)
      modifies this`nextPageId, this`nextSlotId, this`page, this`cachedEntry, pool.Local(), pool.disk.file
      ensures old(pool.disk.file.faults) <= pool.disk.file.faults <= old(pool.disk.file.faults) + 1
      ensures Valid(chain)
      ensures pool.Pages() == old(pool.Pages()) && pool.PinCounts() == old(pool.PinCounts()) && pool.Pending() == old(pool.Pending())
      ensures r == Success(true) <==> cachedEntry.Some?
      ensures r.Failure? ==> r.status == if pool.disk.file.faults > old(pool.disk.file.faults) then IOError else Internal
      ensures pool.disk.file.faults > old(pool.disk.file.faults) ==> r == Failure(IOError)
      ensures old(cachedEntry).Some? ==> cachedEntry == old(cachedEntry) && Cursor() == old(Cursor())
      ensures old(cachedEntry).None? ==>
                Loads(Table(chain), old(Cursor()), Cursor(),
                      match r case Success(more) => (if more && cachedEntry.Some? then Found(cachedEntry.value) else Exhausted)
                              case Failure(st) => Failed(st))
      ensures pool.disk.file.faults == old(pool.disk.file.faults) && old(|pool.PinCounts()|) < |pool.frames| ==> r.Success?
    {
      hide BufferPoolManager.Valid, BufferPoolManager.Pages, BufferPoolManager.PinCounts, BufferPoolManager.Pending,
           BufferPoolManager.View, BufferPoolManager.Footprint, BufferPoolManager.Local, Disk.DiskInv;
      hide IsChain, TableOf, Loads, IsTable, Placed, Schemas.Valid;
      OutsidePool();
      if cachedEntry.Some? {
        return Success(true);
      }
      var loaded := LoadNext(chain);
      if loaded.Failure? {
        if loaded.status == NotFound {
          return Success(false);
        } else {
          return Failure(loaded.status);
        }
      }
      cachedEntry := Some(loaded.value);
      return Success(true);
    }

    /** next hands over the row loaded ahead, loading it first if need be. */
    method Next(ghost chain: seq<PageId>) returns (r: Result<Entry>)
      requires Valid(chain)
      modifies this`nextPageId, this`nextSlotId, this`page, this`cachedEntry, pool.Local(), pool.disk.file
      ensures old(pool.disk.file.faults) <= pool.disk.file.faults <= old(pool.disk.file.faults) + 1
      ensures Valid(chain)
      ensures pool.Pages() == old(pool.Pages()) && pool.PinCounts() == old(pool.PinCounts()) && pool.Pending() == old(pool.Pending())
      ensures cachedEntry == None
      ensures old(cachedEntry).Some? ==> r == Success(old(cachedEntry).value) && Cursor() == old(Cursor())
      ensures old(cachedEntry).None? ==> Loads(Table(chain), old(Cursor()), Cursor(), OutcomeOf(r))
      ensures r.Failure? && r.status != NotFound ==> r.status == if pool.disk.file.faults > old(pool.disk.file.faults) then IOError else Internal
      ensures pool.disk.file.faults > old(pool.disk.file.faults) ==> r == Failure(IOError)
      ensures pool.disk.file.faults == old(pool.disk.file.faults) && old(|pool.PinCounts()|) < |pool.frames| ==>
                r.Success? || r.status == NotFound
    {
      hide BufferPoolManager.Valid, BufferPoolManager.Pages, BufferPoolManager.PinCounts, BufferPoolManager.Pending,
           BufferPoolManager.View, BufferPoolManager.Footprint, BufferPoolManager.Local, Disk.DiskInv;
      hide IsChain, TableOf, Loads, IsTable, Placed, Schemas.Valid;
      OutsidePool();
      var more := HasNext(chain);
      if more.Failure? {
        return Failure(more.status);
      }
      if !more.value {
        return Failure(NotFound);
      }
      r := Success(cachedEntry.value);
      cachedEntry := None;
    }
  }

  /** Every load by the iterator is a load step of the scan model. */
  lemma LoadIsScanStep(t: Table, c: Cursor, c': Cursor, o: Outcome, seen: seq<Place>) returns (s': Scan)
    requires IsTable(t) && Loads(t, c, c', o)
    ensures ScanStep(Scan(t, c, seen, false), Loaded(o), s')
    ensures s'.table == t && s'.cursor == c' && s'.cached == o.Found?
  {
    if o.Found? {
      var i: nat, j: nat :| FoundAt(t, c, c', o.entry, i, j);
      s' := Scan(t, c', seen + [Place(i, j, o.entry)], true);
      assert s'.seen[..|seen|] == seen;
    } else {
      s' := Scan(t, c', seen, false);
    }
  }
}
