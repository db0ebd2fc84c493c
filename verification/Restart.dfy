/** Saving every page, dropping all memory, and opening the same files again. */
module Restarts {
  import opened Bytes
  import opened Core
  import opened Schemas
  import opened Codec
  import opened SlottedPages
  import opened TableModel
  import opened Disk
  import opened Buffer
  import opened PageAccess
  import opened CatalogFormat
  import opened CatalogFile
  import opened Databases
  import opened TableManagers
  import Layout

  lemma HeaderOfDisk(magic: Bytes, s: DiskState)
    requires DiskInv(magic, s)
    ensures |magic| == 4 && 0 in s.pages && s.pages[0][..4] == magic
    ensures s == DiskState(s.pages, U32(s.pages[0], 8), U32(s.pages[0], 12), U32(s.pages[0], 16), s.freeList)
  {
  }

  /** Nothing a client of the pool stored is lost, whatever the sizes of the two pools. */
  method ReopenPool(pool: BufferPoolManager, poolSize: nat) returns (r: Result<BufferPoolManager>)
    requires pool.Valid() && pool.Pending() == {}
    modifies pool.disk.file, set i | 0 <= i < |pool.frames| :: pool.frames[i]
    ensures r.Success? <==> pool.disk.file.faults == old(pool.disk.file.faults)
    ensures r.Success? ==>
              && var again := r.value;
              && fresh(again) && fresh(again.disk) && fresh(again.Local()) && again.disk.file == pool.disk.file
              && |again.frames| == poolSize
              && again.Valid() && again.Pages() == old(pool.Pages())
              && again.PinCounts() == map[] && again.Pending() == {}
              && again.disk.State() == pool.disk.State()
              && again.disk.freeList == old(pool.disk.freeList) && again.disk.pageCount == old(pool.disk.pageCount)
  {
    hide BufferPoolManager.Pages, BufferPoolManager.PinCounts, BufferPoolManager.Pending,
         BufferPoolManager.View, BufferPoolManager.Footprint, BufferPoolManager.Local;
    hide DiskInv, Contents;
    var disk := pool.disk;
    var saved := pool.SaveAllPagesToDisk();
    if !saved.Ok? {
      return Failure(saved);
    }
    pool.ValidParts();
    HeaderOfDisk(disk.magic, disk.State());
    var reopened := DiskManager.Open(disk.file, disk.magic, disk.freeList);
    if reopened.Failure? {
      return Failure(reopened.status);
    }
    var again := new BufferPoolManager(poolSize, reopened.value);
    return Success(again);
  }

  /** Two indexes of the same tables are the same map. */
  lemma SameIndex(a: map<Bytes, nat>, b: map<Bytes, nat>, ts: seq<TableMeta>)
    requires IndexOf(a, ts) && IndexOf(b, ts)
    ensures a == b
  {
  }

  /** Every table, row and id is there again, provided the catalog was saved and all changes were reported. */
  method ReopenDatabase(tm: TableManager, poolSize: nat) returns (r: Result<TableManager>)
    requires tm.Valid() && tm.IdsOk() && tm.Saved()
    requires tm.pool.Pending() == {}
    modifies tm.metaFile, tm.pool.disk.file, set i | 0 <= i < |tm.pool.frames| :: tm.pool.frames[i]
    ensures r.Success? <==>
              tm.pool.disk.file.faults == old(tm.pool.disk.file.faults) && tm.metaFile.faults == old(tm.metaFile.faults)
    ensures r.Success? ==>
              && var again := r.value;
              && fresh(again) && fresh(again.pool) && fresh(again.pool.Local()) && again.metaFile == tm.metaFile
              && again.pool.disk.file == tm.pool.disk.file && |again.pool.frames| == poolSize
              && again.Valid() && again.pool.PinCounts() == map[] && again.IdsOk() && again.Saved()
              && again.View() == old(tm.View()) && (old(tm.IsPacked()) ==> again.IsPacked())
              && again.State() == old(tm.State()) && again.index == old(tm.index) && again.chains == old(tm.chains)
  {
    hide BufferPoolManager.Valid, BufferPoolManager.Pages, BufferPoolManager.PinCounts, BufferPoolManager.Pending,
         BufferPoolManager.View, BufferPoolManager.Footprint, BufferPoolManager.Local;
    hide ParseCatalog, Serialized, MetasOk, TablesOk, Named, IndexOf, IdsDistinct, IdsBelow;
    tm.SavedIsLoadableIff();
    var reopened := ReopenPool(tm.pool, poolSize);
    if reopened.Failure? {
      return Failure(reopened.status);
    }
    r := TableManager.Open(tm.metaFile, reopened.value, tm.chains);
    if r.Success? {
      SameIndex(r.value.index, tm.index, tm.tables);
    }
  }

  /** A new table takes every row that fits its schema and a page. */
  lemma NewTableAccepts(tm: TableManager, t: TableMeta, row: Row)
    requires tm.Valid() && |tm.tables| > 0 && tm.tables[|tm.tables| - 1] == t
    requires t.lastPageId in tm.pool.Pages() && EmptyTablePage(tm.pool.Pages()[t.lastPageId], t.lastPageId)
    requires Schemas.Valid(t.schema) && Encodable(t.schema, row) && FitsEmptyPage(Layout.EncodedSizeOf(t.schema))
    ensures tm.LastHasRoom(t.name)
  {
    hide TablesOk, Encodable, Layout.EncodedSizeOf, MetaOk;
    assert tm.index[t.name] == |tm.tables| - 1;
  }

  /** A row of a table just created is there, in the pages in memory. */
  method CreateAndInsert(tm: TableManager, name: Bytes, schema: Schema, row: Row) returns (r: Result<RID>)
    requires tm.Valid() && tm.IdsOk() && tm.nextTableId < 0xFFFF_FFFF && tm.pool.PinCounts() == map[] && tm.pool.Pending() == {}
    requires name != [] && |name| <= MAX_NAME && name !in tm.index
    requires Schemas.Valid(schema) && Encodable(schema, row) && FitsEmptyPage(Layout.EncodedSizeOf(schema))
    modifies tm, tm.metaFile, tm.pool.Footprint()
    ensures r.Success? ==>
              && tm.Valid() && tm.IdsOk() && tm.Saved() && tm.pool.PinCounts() == map[] && tm.pool.Pending() == {}
              && CellIn(tm.View(), name, r.value) == Live(CutRow(row))
    ensures r.Success? <==>
              && Unhindered(tm.pool) && tm.metaFile.faults == old(tm.metaFile.faults)
              && old(tm.pool.disk.CanAllocate())
  {
    hide BufferPoolManager.Valid, BufferPoolManager.Pages, BufferPoolManager.PinCounts, BufferPoolManager.Pending,
         BufferPoolManager.View, BufferPoolManager.Footprint, BufferPoolManager.Local;
    hide TableManager.Valid, TableManager.View, TableManager.Saved, Encodable, Layout.EncodedSizeOf, Next, CutRow, Schemas.Valid,
         EmptyTablePage;
    var st := tm.CreateTable(name, schema);
    if !st.Ok? {
      return Failure(st);
    }
    NewTableAccepts(tm, tm.tables[|tm.tables| - 1], row);
    ghost var db := tm.View();
    r := tm.InsertRow(name, row);
    if r.Success? {
      StepOnMap(db[name], Insert(r.value, CutRow(row)), tm.View()[name], r.value);
    }
  }

  /**
     From nothing: create a table, insert a row, save, open everything again with
     a pool of another size, and read the row back.
   */
  method WriteAndReadBack(file: PageFile, metaFile: MetaFile, magic: Bytes, sizes: (nat, nat), name: Bytes, schema: Schema, row: Row)
    returns (r: Result<Row>)
    requires |magic| == 4 && !file.present && !metaFile.present && sizes.0 > 0 && sizes.1 > 0
    requires name != [] && |name| <= MAX_NAME
    requires Schemas.Valid(schema) && Encodable(schema, row) && FitsEmptyPage(Layout.EncodedSizeOf(schema))
    modifies file, metaFile
    ensures r.Success? ==> r.value == CutRow(row)
    ensures file.faults == old(file.faults) && metaFile.faults == old(metaFile.faults) ==> r.Success?
  {
    hide BufferPoolManager.Valid, BufferPoolManager.Pages, BufferPoolManager.PinCounts, BufferPoolManager.Pending,
         BufferPoolManager.View, BufferPoolManager.Footprint, BufferPoolManager.Local;
    hide TableManager.Valid, TableManager.View, TableManager.Saved, Encodable, Layout.EncodedSizeOf, CutRow, Schemas.Valid, DiskInv;
    var disk := DiskManager.Open(file, magic, []);
    if disk.Failure? {
      return Failure(disk.status);
    }
    var pool := new BufferPoolManager(sizes.0, disk.value);
    var tm := TableManager.Open(metaFile, pool, []);
    if tm.Failure? {
      return Failure(tm.status);
    }
    var rid := CreateAndInsert(tm.value, name, schema, row);
    if rid.Failure? {
      return Failure(rid.status);
    }
    forall i | 0 <= i < |pool.frames|
      ensures pool.frames[i] in pool.Footprint()
    {
      pool.InFootprint(i);
    }
    var again := ReopenDatabase(tm.value, sizes.1);
    if again.Failure? {
      return Failure(again.status);
    }
    again.value.UsedIsOwned(name, rid.value);
    r := again.value.ReadRow(name, rid.value);
  }
}
