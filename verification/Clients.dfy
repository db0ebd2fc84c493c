/** Short runs of the engine, as its tests make them, whatever the bytes, names and I/O failures. */
module Clients {
  import opened Bytes
  import opened Core
  import opened Schemas
  import opened Disk
  import opened Buffer
  import opened TableManagers
  import CatalogFormat
  import Databases
  import SlottedPages

  /** Fill the bytes of a page that is pinned once, and drop the pin. */
  method FillAndUnpin(pool: BufferPoolManager, f: Frame, p: PageId, data: Page)
    requires pool.Valid() && pool.IsFrameOf(f, p) && p in pool.PinCounts() && pool.PinCounts()[p] == 1
    requires Kind(data) != FREE_PAGE_KIND && pool.Pending() <= {p}
    modifies pool.Local()
    ensures pool.Valid() && pool.Pages() == old(pool.Pages())[p := data] && pool.Pending() == {}
    ensures pool.PinCounts() == old(pool.PinCounts()) - {p}
    ensures pool.disk.file.faults == old(pool.disk.file.faults)
    ensures pool.disk.Valid() && pool.disk.Store() == old(pool.disk.Store()) && pool.freeSlots == old(pool.freeSlots)
    ensures p in pool.pageSlot
  {
    hide BufferPoolManager.Valid, BufferPoolManager.Pages, BufferPoolManager.PinCounts, BufferPoolManager.Pending,
         BufferPoolManager.View, BufferPoolManager.Footprint, BufferPoolManager.Local;
    CopyInto(f.data, 0, data);
    assert f.data[..] == data;
    pool.Edited(p);
    pool.ValidParts();
    pool.ViewOf(0);
    var st := pool.UnpinPage(p, true);
    pool.ViewOf(0);
  }

  /** A new page with the given bytes; the disk has zeros for it. */
  method AddPage(pool: BufferPoolManager, data: Page) returns (r: Result<PageId>)
    requires pool.Valid() && pool.Pending() == {} && Kind(data) != FREE_PAGE_KIND && pool.freeSlots != []
    modifies pool.Footprint()
    ensures r.Failure? ==> r.status in {IOError, Internal}
    ensures r.Success? ==>
              && pool.Valid() && pool.Pending() == {} && r.value in pool.pageSlot
              && r.value !in old(pool.Pages()) && pool.Pages() == old(pool.Pages())[r.value := data]
              && pool.disk.Valid() && pool.disk.Store() == old(pool.disk.Store())[r.value := Zeros(PAGE_SIZE)]
              && pool.freeSlots == old(pool.freeSlots)[..|old(pool.freeSlots)| - 1]
  {
    hide BufferPoolManager.Valid, BufferPoolManager.Pages, BufferPoolManager.PinCounts, BufferPoolManager.Pending,
         BufferPoolManager.View, BufferPoolManager.Footprint, BufferPoolManager.Local;
    pool.InFootprint(0);
    pool.ValidParts();
    pool.ViewOf(0);
    var f := pool.NewPage();
    if f.Failure? {
      return Failure(f.status);
    }
    pool.ValidParts();
    pool.ViewOf(0);
    var p := f.value.id;
    FillAndUnpin(pool, f.value, p, data);
    return Success(p);
  }

  /** Two dirty pages in a pool of two, and the first is saved: the disk has its bytes, and zeros for the second. */
  method SaveOneOfTwo(disk: DiskManager, data: (Page, Page)) returns (st: Status, first: PageId, second: PageId)
    requires disk.Valid() && Kind(data.0) != FREE_PAGE_KIND && Kind(data.1) != FREE_PAGE_KIND
    modifies disk, disk.file
    ensures st.Ok? ==>
              && first != second && first !in old(disk.Store()) && second !in old(disk.Store())
              && disk.Valid() && disk.Store() == old(disk.Store())[first := data.0][second := Zeros(PAGE_SIZE)]
  {
    hide BufferPoolManager.Valid, BufferPoolManager.Pages, BufferPoolManager.PinCounts, BufferPoolManager.Pending,
         BufferPoolManager.View, BufferPoolManager.Footprint, BufferPoolManager.Local;
    hide DiskInv, Contents, DiskManager.Valid, Zeros;
    first, second := 0, 0;
    var pool := new BufferPoolManager(2, disk);
    var p := AddPage(pool, data.0);
    if p.Failure? {
      return p.status, first, second;
    }
    first := p.value;
    p := AddPage(pool, data.1);
    if p.Failure? {
      return p.status, first, second;
    }
    second := p.value;
    forall i | 0 <= i < |pool.frames|
      ensures pool.frames[i] in pool.Local()
    {
      pool.InFootprint(i);
    }
    st := pool.SavePageToDisk(first);
    pool.ValidParts();
  }

  /** The second createTable of a name answers AlreadyExists and changes nothing. */
  method CreateTwice(tm: TableManager, name: Bytes, schema: Schema, other: Schema) returns (st: Status, again: Status)
    requires tm.Valid() && Schemas.Valid(schema) && Schemas.Valid(other)
    modifies tm, tm.metaFile, tm.pool.Footprint()
    ensures st.Ok? ==> again == AlreadyExists && tm.Valid() && tm.Saved()
    ensures st.Ok? ==> tm.State().tables != old(tm.State().tables) && |tm.State().tables| == |old(tm.State().tables)| + 1
    ensures name == [] ==> st == again == InvalidArgument
  {
    hide BufferPoolManager.Valid, BufferPoolManager.Pages, BufferPoolManager.PinCounts, BufferPoolManager.Pending,
         BufferPoolManager.View, BufferPoolManager.Footprint, BufferPoolManager.Local;
    hide TableManager.Valid, TableManager.View, TableManager.IdsOk, TableManager.IsPacked, Schemas.Valid,
         CatalogFormat.InOrder, CatalogFormat.MetaOk, CatalogFormat.MetasOk, CatalogFormat.Serialized, SlottedPages.EmptyTablePage, Databases.Creates;
    st := tm.CreateTable(name, schema);
    if st.Ok? || name == [] {
      again := tm.CreateTable(name, other);
    } else {
      again := st;
    }
  }
}
