/**
 The table catalog over the buffer pool: named tables, their page chains, and
 the file tables.meta the catalog is saved to.
 */
module TableManagers {
  import opened Bytes
  import opened Core
  import opened Schemas
  import opened Codec
  import opened SlottedPages
  import opened Buffer
  import opened TableModel
  import opened Chains
  import opened PageAccess
  import opened PagedTables
  import opened TableIterators
  import opened CatalogFormat
  import opened CatalogFile
  import opened Databases
  import Disk
  import Layout
  import ScanModel

  /** The file tables.meta.  Saving truncates first: a save that fails may leave any bytes. */
  class MetaFile {
    var present: bool
    var bytes: Bytes
    ghost var faults: nat

    constructor ()
      ensures !present && faults == 0
    {
      present, bytes, faults := false, [], 0;
    }

    method Save(b: Bytes) returns (ok: bool)
      modifies this
      ensures ok ==> present && bytes == b
      ensures faults == old(faults) + if ok then 0 else 1
    {
      ok := *;
      if !ok {
        faults := faults + 1;
        return;
      }
      present, bytes := true, *;
      ok := *;
      if ok {
        bytes := b;
      } else {
        faults := faults + 1;
      }
    }

    method Load() returns (ok: bool, b: Bytes)
      modifies this`faults
      ensures b == bytes
      ensures faults == old(faults) + if ok then 0 else 1
    {
      ok, b := *, bytes;
      if !ok { faults := faults + 1; }
    }
  }

  class TableManager {
    const pool: BufferPoolManager
    const metaFile: MetaFile
    var nextTableId: uint32
    var tables: seq<TableMeta>
    var index: map<Bytes, nat>
    ghost var chains: seq<seq<PageId>>

    constructor (pool: BufferPoolManager, metaFile: MetaFile, catalog: Catalog, index: map<Bytes, nat>, ghost chains: seq<seq<PageId>>)
      ensures this.pool == pool && this.metaFile == metaFile && State() == catalog && this.index == index && this.chains == chains
    {
      this.pool, this.metaFile, this.index, this.chains := pool, metaFile, index, chains;
      nextTableId, tables := catalog.nextTableId, catalog.tables;
    }

    function State(): Catalog
      reads this
    {
      Catalog(nextTableId, tables)
    }

    ghost predicate MetasAreOk()
      reads this
    {
      forall i | 0 <= i < |tables| :: MetaOk(tables[i])
    }

    /**
     Kept by every operation except an insert that grew a table and could not
     save the catalog.  Table ids are a matter of their own: see IdsOk.
     */
    ghost predicate Valid()
      reads this, pool.disk, pool.disk.file, pool.Footprint()
    {
      && pool.Valid()
      && MetasAreOk() && IndexOf(index, tables)
      && TablesOk(pool.Pages(), tables, chains)
    }

    /** Table ids are distinct and below the next one, which is not 0. */
    ghost predicate IdsOk()
      reads this
    {
      IdsDistinct(tables) && 0 < nextTableId && IdsBelow(tables, nextTableId)
    }

    /** tables.meta holds the catalog as it is in memory. */
    ghost predicate Saved()
      reads this, metaFile
    {
      metaFile.present && MetasOk(State()) && metaFile.bytes == Serialized(State())
    }

    /** The tables by name. */
    ghost function View(): Database
      requires Valid()
      reads this, pool.disk, pool.disk.file, pool.Footprint()
    {
      Named(pool.Pages(), tables, chains, index)
    }

    lemma OutsidePool()
      ensures this as object !in pool.Footprint() && this as object !in pool.Local() && this as object != pool.disk.file
      ensures metaFile as object !in pool.Footprint() && metaFile as object !in pool.Local() && metaFile as object != pool.disk.file
    {
    }

    /** The catalog can be written, and there are fewer tables than page ids. */
    lemma StateFits()
      requires MetasAreOk() && pool.Valid() && TablesOk(pool.Pages(), tables, chains)
      ensures MetasOk(State()) && |tables| <= INVALID_PAGE_ID - 1
    {
      pool.PendingArePinnedPages();
      TablesFit(pool.Pages(), tables, chains);
      forall i | 0 <= i < |tables|
        ensures |tables[i].schema| <= MAX_COLUMNS
      {
        SchemaBounds(tables[i].schema);
      }
    }

    /** With ids in order, as every run from the empty catalog has them, the catalog is sound. */
    lemma StateIsOk()
      requires Valid() && InOrder(State())
      ensures CatalogOk(State()) && IdsOk()
    {
      InOrderIds(State());
      IndexIsInjective(index, tables);
    }

    /** What was saved is then accepted by load and read back as it was. */
    lemma SavedIsLoadable()
      requires Valid() && Saved() && InOrder(State())
      ensures ParseCatalog(metaFile.bytes) == Parsed(State(), |metaFile.bytes|)
    {
      StateIsOk();
      SavedFileParses(State());
    }

    /** Of any catalog load accepted: what was saved is read back exactly when the table ids are good. */
    lemma SavedIsLoadableIff()
      requires Valid() && Saved()
      ensures ParseCatalog(metaFile.bytes) == if IdsOk() then Parsed(State(), |metaFile.bytes|) else Corrupt
    {
      IndexIsInjective(index, tables);
      SavedFileParses(State());
    }

    method Save() returns (st: Status)
      requires MetasOk(State()) && pool.Valid()
      modifies metaFile
      ensures st == if metaFile.faults == old(metaFile.faults) then Ok else IOError
      ensures old(metaFile.faults) <= metaFile.faults <= old(metaFile.faults) + 1
      ensures st.Ok? ==> Saved()
      ensures pool.Valid() && pool.Pages() == old(pool.Pages())
      ensures pool.PinCounts() == old(pool.PinCounts()) && pool.Pending() == old(pool.Pending())
    {
      hide BufferPoolManager.Valid, BufferPoolManager.Pages, BufferPoolManager.PinCounts, BufferPoolManager.Pending,
           BufferPoolManager.View, BufferPoolManager.Footprint, BufferPoolManager.Local;
      hide Serialized, MetasOk;
      OutsidePool();
      var fileBytesToSave := BuildFile(State());
      var ok := metaFile.Save(fileBytesToSave);
      pool.Untouched();
      return if ok then Ok else IOError;
    }

    /** Every page of every table was filled row by row, as in files only this code wrote. */
    ghost predicate IsPacked()
      requires pool.Valid()
      reads this, pool.disk, pool.disk.file, pool.Footprint()
    {
      AllPacked(pool.Pages(), tables, chains)
    }

    /** The last page of a table then has room exactly while it has had fewer rows than a page takes. */
    lemma RoomInRows(tableName: Bytes)
      requires Valid() && IsPacked() && tableName in index
      ensures tableName in View() && View()[tableName] != []
      ensures var t := View()[tableName];
              LastHasRoom(tableName) <==> |t[|t| - 1].slots| < 4072 / (Layout.EncodedSizeOf(SchemaOf(tableName)) + 4)
    {
      hide TablesOk, TableOk, Named, IndexOf, IsChain, WellFormed, Slots, HasSpace, Layout.EncodedSizeOf;
      NamedParts(pool.Pages(), tables, chains, index, tableName);
      var t, c := tables[index[tableName]], chains[index[tableName]];
      PagedTable.LastPage(pool.Pages(), t.schema, c);
      var n := |c| - 1;
      assert View()[tableName][n] == PageAt(pool.Pages(), t.schema, c, n);
      assert Packed(pool.Pages(), t.schema, c);
      assert PackedPage(pool.Pages()[c[n]], Layout.EncodedSizeOf(t.schema));
      PackedRoom(pool.Pages()[c[n]], Layout.EncodedSizeOf(t.schema));
    }

    // ---------- createTable ----------

    method InitializeAndUnpin(f: Frame, q: PageId) returns (st: Status)
      requires Pinned(pool, f, q) && pool.PinCounts()[q] > 0
      modifies pool.Local(), pool.disk.file
      ensures st.Ok? && pool.disk.file.faults == old(pool.disk.file.faults)
      ensures pool.Valid() && pool.PinCounts() == old(Dropped(pool.PinCounts(), q)) && pool.Pending() <= old(pool.Pending())
      ensures q in pool.Pages() && pool.Pages() == old(pool.Pages())[q := pool.Pages()[q]]
      ensures EmptyTablePage(pool.Pages()[q], q)
    {
      hide BufferPoolManager.Valid, BufferPoolManager.Pages, BufferPoolManager.PinCounts, BufferPoolManager.Pending,
           BufferPoolManager.View, BufferPoolManager.Footprint, BufferPoolManager.Local;
      SlottedPage.Initialize(f.data, q);
      TablePagesAreNotFree(f.data[..]);
      pool.Edited(q);
      hide WellFormed, Slots;
      st := pool.UnpinPage(q, true);
    }

    /** A new page, filled in as an empty table page. */
    method NewFirstPage() returns (r: Result<PageId>)
      requires pool.Valid()
      modifies pool.Footprint()
      ensures old(pool.disk.file.faults) <= pool.disk.file.faults <= old(pool.disk.file.faults) + 2
      ensures pool.disk.file.faults <= old(pool.disk.file.faults) + 1 ==>
                pool.Valid() && pool.PinCounts() == old(pool.PinCounts()) && pool.Pending() <= old(pool.Pending())
      ensures r.Success? <==> Unhindered(pool) && old(pool.disk.CanAllocate())
      ensures r.Success? ==>
                && var q := r.value;
                && q != 0 && q != INVALID_PAGE_ID && OneMorePage(old(pool.Pages()), pool.Pages(), q)
                && EmptyTablePage(pool.Pages()[q], q)
      ensures r.Failure? && pool.disk.file.faults <= old(pool.disk.file.faults) + 1 ==> pool.Pages() == old(pool.Pages())
      ensures r.Failure? ==> r.status == if pool.disk.file.faults == old(pool.disk.file.faults) then Internal else IOError
    {
      hide BufferPoolManager.Valid, BufferPoolManager.Pages, BufferPoolManager.PinCounts, BufferPoolManager.Pending,
           BufferPoolManager.View, BufferPoolManager.Footprint, BufferPoolManager.Local, EmptyTablePage, Pinned, Dropped;
      pool.InFootprint(0);
      var f := FetchNew(pool);
      if f.Failure? {
        return Failure(f.status);
      }
      var q := f.value.id;
      var st := InitializeAndUnpin(f.value, q);
      return if st.Ok? then Success(q) else Failure(st);
    }

    method CreateTable(name: Bytes, schema: Schema) returns (st: Status)
      requires Valid() && Schemas.Valid(schema)
      modifies this, metaFile, pool.Footprint()
      ensures old(pool.disk.file.faults) <= pool.disk.file.faults <= old(pool.disk.file.faults) + 2
      ensures old(metaFile.faults) <= metaFile.faults <= old(metaFile.faults) + 1
      ensures name == [] ==> st == InvalidArgument
      ensures name != [] && name in old(index) ==> st == AlreadyExists
      ensures name !in old(index) && |name| > 0xFFFF ==> st == InvalidArgument
      ensures name != [] && name !in old(index) && |name| <= 0xFFFF ==>
                st == if pool.disk.file.faults > old(pool.disk.file.faults) || metaFile.faults > old(metaFile.faults) then IOError
                      else if old(|pool.PinCounts()|) >= |pool.frames| || !old(pool.disk.CanAllocate()) then Internal
                      else Status.Ok
      ensures name == [] || name in old(index) || |name| > 0xFFFF ==>
                unchanged(metaFile) && pool.disk.file.faults == old(pool.disk.file.faults)
      ensures st.Ok? ==> index == old(index)[name := |old(tables)|]
      ensures pool.disk.file.faults <= old(pool.disk.file.faults) + 1 ==>
                && Valid() && pool.PinCounts() == old(pool.PinCounts()) && pool.Pending() <= old(pool.Pending())
                && (old(IsPacked()) ==> IsPacked())
      ensures st.Ok? ==>
                && pool.disk.file.faults == old(pool.disk.file.faults) && metaFile.faults == old(metaFile.faults) && Saved()
                && exists q ::
                     && OneMorePage(old(pool.Pages()), pool.Pages(), q) && EmptyTablePage(pool.Pages()[q], q)
                     && Created(old(State()), State(), name, schema, q)
                     && Creates(old(View()), View(), name, q)
      ensures old(InOrder(State())) ==> InOrder(State()) && (st.Ok? ==> old(nextTableId) < 0xFFFF_FFFF)
      ensures st.Ok? && old(IdsOk()) ==> (IdsOk() <==> old(nextTableId) < 0xFFFF_FFFF)
      ensures !st.Ok? ==> State() == old(State()) && index == old(index) && chains == old(chains)
      ensures !st.Ok? && pool.disk.file.faults <= old(pool.disk.file.faults) + 1 ==> View() == old(View())
      ensures metaFile.faults > old(metaFile.faults) ==>
                && pool.disk.file.faults == old(pool.disk.file.faults) && pool.Valid()
                && exists q :: OneMorePage(old(pool.Pages()), pool.Pages(), q) && EmptyTablePage(pool.Pages()[q], q)
      ensures !st.Ok? && metaFile.faults == old(metaFile.faults) ==> unchanged(metaFile)
      ensures !st.Ok? && metaFile.faults == old(metaFile.faults) && pool.disk.file.faults <= old(pool.disk.file.faults) + 1 ==>
                pool.Pages() == old(pool.Pages())
    {
      hide BufferPoolManager.Valid, BufferPoolManager.Pages, BufferPoolManager.PinCounts, BufferPoolManager.Pending,
           BufferPoolManager.View, BufferPoolManager.Footprint, BufferPoolManager.Local;
      hide TablesOk, Named, EmptyTablePage, IndexOf, Serialized, MetasOk, IdsDistinct, IdsBelow, InOrder, OneMorePage, AllPacked, Keeps;
      OutsidePool();
      pool.InFootprint(0);
      if name == [] {
        return InvalidArgument;
      }
      if name in index {
        return AlreadyExists;
      }
      if |name| > MAX_NAME {
        return InvalidArgument;
      }
      var newPage := NewFirstPage();
      if newPage.Failure? {
        return newPage.status;
      }
      ghost var m, ts, cs := old(pool.Pages()), tables, chains;
      OneMoreKeeps(m, pool.Pages(), newPage.value);
      st := Register(name, schema, newPage.value, m);
      if AllPacked(m, ts, cs) {
        PackedAfterCreate(m, pool.Pages(), ts, cs, TableMeta(old(nextTableId), name, schema, newPage.value, newPage.value), newPage.value);
      }
    }

    /** Second half of createTable: the catalog entry, saved or taken back.  `m` is the page store before the new page. */
    method Register(name: Bytes, schema: Schema, q: PageId, ghost m: Store) returns (st: Status)
      requires pool.Valid() && MetasAreOk() && IndexOf(index, tables) && TablesOk(m, tables, chains)
      requires Schemas.Valid(schema) && |name| <= MAX_NAME && name !in index
      requires q != 0 && q != INVALID_PAGE_ID && OneMorePage(m, pool.Pages(), q) && EmptyTablePage(pool.Pages()[q], q)
      modifies this, metaFile
      ensures old(metaFile.faults) <= metaFile.faults <= old(metaFile.faults) + 1
      ensures st == if metaFile.faults == old(metaFile.faults) then Ok else IOError
      ensures Valid() && pool.PinCounts() == old(pool.PinCounts()) && pool.Pending() == old(pool.Pending())
      ensures pool.Pages() == old(pool.Pages())
      ensures old(InOrder(State())) ==> InOrder(State()) && (st.Ok? ==> old(nextTableId) < 0xFFFF_FFFF)
      ensures st.Ok? ==>
                && Created(old(State()), State(), name, schema, q) && Saved()
                && Creates(Named(m, old(tables), old(chains), old(index)), View(), name, q)
                && (old(IdsOk()) ==> (IdsOk() <==> old(nextTableId) < 0xFFFF_FFFF))
      ensures !st.Ok? ==>
                && State() == old(State()) && index == old(index) && chains == old(chains)
                && View() == Named(m, tables, chains, index)
      ensures st.Ok? ==> index == old(index)[name := |old(tables)|] && chains == old(chains) + [[q]]
    {
      hide BufferPoolManager.Valid, BufferPoolManager.Pages, BufferPoolManager.PinCounts, BufferPoolManager.Pending,
           BufferPoolManager.View, BufferPoolManager.Footprint, BufferPoolManager.Local;
      hide TablesOk, Named, EmptyTablePage, IndexOf, Keeps, Serialized, MetasOk, IdsDistinct, IdsBelow, Schemas.Valid, InOrder, AllPacked;
      OutsidePool();
      OneMoreKeeps(m, pool.Pages(), q);
      var newTableId := nextTableId;
      ghost var before, places := tables, index;
      var t := TableMeta(newTableId, name, schema, q, q);
      SameDatabase(m, pool.Pages(), before, chains, places, []);
      AddTable(m, pool.Pages(), before, chains, places, t, q);
      IdsAfterCreate(before, newTableId, t);
      nextTableId := (nextTableId + 1) % 0x1_0000_0000;
      tables := tables + [t];
      chains := chains + [[q]];
      pool.Untouched();
      StateFits();
      if old(InOrder(State())) {
        CreatedInOrder(old(State()), State(), name, schema, q);
      }
      var saveStatus := Save();
      if !saveStatus.Ok? {
        nextTableId := newTableId;
        tables := tables[..|tables| - 1];
        chains := chains[..|chains| - 1];
        assert tables == before && chains == old(chains);
        pool.Untouched();
        return saveStatus;
      }
      index := index[name := |tables| - 1];
      pool.Untouched();
      return Status.Ok;
    }

    // ---------- rows ----------

    /** The last page of a table has room for one more of its rows. */
    ghost predicate RoomAtEnd(t: TableMeta)
      requires pool.Valid()
      reads pool.disk, pool.disk.file, pool.Footprint()
    {
      RoomOn(pool.Pages(), t.lastPageId, Layout.EncodedSizeOf(t.schema))
    }

    /** A row that fits the schema goes in: there is room and the last page could be fetched, or a page could be added. */
    twostate predicate CouldInsertInto(t: TableMeta)
      requires old(pool.Valid())
      reads pool.disk, pool.disk.file, pool.Footprint()
    {
      if old(RoomAtEnd(t)) then Got(pool, t.lastPageId)
      else Unhindered(pool) && FitsEmptyPage(Layout.EncodedSizeOf(t.schema)) && old(pool.disk.CanAllocate())
    }

    /** The status of an insert that failed although the table exists. */
    twostate function InsertFailure(s: Schema, row: Row): Status
      requires old(pool.Valid())
      reads metaFile, pool.disk, pool.disk.file, pool.Footprint()
    {
      if !Encodable(s, row) then InvalidArgument
      else if pool.disk.file.faults > old(pool.disk.file.faults) || metaFile.faults > old(metaFile.faults) then IOError
      else if Unhindered(pool) && old(pool.disk.CanAllocate()) then InvalidArgument
      else Internal
    }

    /** insertRow on the pages of table k; `last` and `c` are where its chain now ends. */
    method InsertIntoTable(k: nat, row: Row) returns (r: Result<RID>, last: PageId, ghost c: seq<PageId>)
      requires Valid() && k < |tables|
      modifies pool.Footprint()
      ensures old(pool.disk.file.faults) <= pool.disk.file.faults <= old(pool.disk.file.faults) + 2
      ensures r.Success? ==>
                && pool.disk.file.faults == old(pool.disk.file.faults) && Encodable(tables[k].schema, row)
                && k < |chains| && (c == chains[k] <==> old(RoomAtEnd(tables[k])))
      ensures pool.disk.file.faults <= old(pool.disk.file.faults) + 1 ==>
                && pool.Valid() && pool.PinCounts() == old(pool.PinCounts()) && pool.Pending() <= old(pool.Pending())
                && TableOk(old(pool.Pages()), tables[k], chains[k])
                && PagedTable.InsertOutcome(old(pool.Pages()), pool.Pages(), tables[k].schema, chains[k], c, row, r)
                && PagedTable.InsertPages(old(pool.Pages()), pool.Pages(), tables[k].schema, chains[k], c, row, r)
                && |c| > 0 && last == c[|c| - 1]
      ensures r.Failure? ==> r.status == InsertFailure(tables[k].schema, row)
      ensures r.Success? <==> Encodable(tables[k].schema, row) && CouldInsertInto(tables[k])
    {
      hide BufferPoolManager.Valid, BufferPoolManager.Pages, BufferPoolManager.PinCounts, BufferPoolManager.Pending,
           BufferPoolManager.View, BufferPoolManager.Footprint, BufferPoolManager.Local;
      hide IsChain, PagedTable.InsertOutcome, PagedTable.InsertPages, Encodable, IndexOf, Schemas.Valid, Layout.EncodedSizeOf;
      OutsidePool();
      assert TableOk(pool.Pages(), tables[k], chains[k]);
      TableParts(pool.Pages(), tables[k], chains[k]);
      var meta := tables[k];
      var pagedTable := new PagedTable(pool, meta.schema, meta.firstPageId, meta.lastPageId, chains[k]);
      pool.Untouched();
      pagedTable.OutsidePool();
      r := pagedTable.InsertRow(row);
      last, c := pagedTable.lastPageId, pagedTable.chain;
      if pool.disk.file.faults <= old(pool.disk.file.faults) + 1 {
        PagedTable.LastPage(pool.Pages(), meta.schema, c);
      }
    }

    /** What an operation on table k's rows leaves alone in the catalog. */
    twostate predicate SameCatalog()
      reads this
    {
      && nextTableId == old(nextTableId) && index == old(index) && |tables| == old(|tables|)
      && forall i | 0 <= i < |tables| :: tables[i] == old(tables)[i].(lastPageId := tables[i].lastPageId)
    }

    ghost predicate LastHasRoom(tableName: Bytes)
      requires Valid()
      reads this, pool.disk, pool.disk.file, pool.Footprint()
    {
      tableName in index && RoomAtEnd(tables[index[tableName]])
    }

    /** The table exists, the row fits its schema, and it could be inserted. */
    twostate predicate CouldInsert(tableName: Bytes, row: Row)
      requires old(Valid())
      reads this, pool.disk, pool.disk.file, pool.Footprint()
    {
      && tableName in old(index) && Encodable(old(SchemaOf(tableName)), row)
      && CouldInsertInto(old(tables)[old(index)[tableName]])
    }

    ghost function ChainOf(tableName: Bytes): seq<PageId>
      reads this
    {
      if tableName in index && index[tableName] < |chains| then chains[index[tableName]] else []
    }

    /**
     The row goes into the named table and no other table sees anything.  If
     the table grew and the catalog could not be saved, the page stays linked
     although the catalog forgets it.
     */
    method InsertRow(tableName: Bytes, row: Row) returns (r: Result<RID>)
      requires Valid()
      modifies this, metaFile, pool.Footprint()
      ensures old(pool.disk.file.faults) <= pool.disk.file.faults <= old(pool.disk.file.faults) + 2
      ensures old(metaFile.faults) <= metaFile.faults <= old(metaFile.faults) + 1
      ensures SameCatalog() && (old(IdsOk()) ==> IdsOk()) && (old(InOrder(State())) ==> InOrder(State()))
      ensures tableName !in index ==>
                && r == Failure(NotFound) && unchanged(metaFile) && pool.disk.file.faults == old(pool.disk.file.faults)
      ensures pool.disk.file.faults <= old(pool.disk.file.faults) + 1 ==>
                pool.Valid() && pool.PinCounts() == old(pool.PinCounts()) && pool.Pending() <= old(pool.Pending())
      ensures pool.disk.file.faults <= old(pool.disk.file.faults) + 1 && metaFile.faults == old(metaFile.faults) ==>
                && Valid()
                && (r.Failure? ==> View() == old(View()) && tables == old(tables))
                && (r.Success? ==> tableName in index && Changes(old(View()), View(), tableName, Insert(r.value, CutRow(row))))
      ensures r.Success? ==>
                && pool.disk.file.faults == old(pool.disk.file.faults) && metaFile.faults == old(metaFile.faults)
                && (old(Saved()) || !old(LastHasRoom(tableName)) ==> Saved())
      ensures old(LastHasRoom(tableName)) ==> unchanged(metaFile)
      ensures metaFile.faults == old(metaFile.faults) && r.Failure? ==> unchanged(metaFile)
      ensures metaFile.faults > old(metaFile.faults) ==>
                && r == Failure(IOError) && tables == old(tables) && pool.Valid()
                && (forall cs :: !TablesOk(pool.Pages(), tables, cs))
                && exists q :: q !in old(pool.Pages()) && pool.Pages().Keys == old(pool.Pages()).Keys + {q}
      ensures tableName in index && r.Failure? ==>
                r.status == if !Encodable(old(SchemaOf(tableName)), row) then InvalidArgument
                            else if pool.disk.file.faults > old(pool.disk.file.faults) || metaFile.faults > old(metaFile.faults) then IOError
                            else if old(|pool.PinCounts()|) >= |pool.frames| || !old(pool.disk.CanAllocate()) then Internal
                            else InvalidArgument
      ensures r.Success? <==> CouldInsert(tableName, row) && metaFile.faults == old(metaFile.faults)
      ensures pool.disk.file.faults <= old(pool.disk.file.faults) + 1 && metaFile.faults == old(metaFile.faults) && old(IsPacked()) ==>
                IsPacked()
      ensures tableName in index && metaFile.faults == old(metaFile.faults) && pool.disk.file.faults <= old(pool.disk.file.faults) + 1 ==>
                PagedTable.InsertPages(old(pool.Pages()), pool.Pages(), old(SchemaOf(tableName)), old(ChainOf(tableName)),
                                       ChainOf(tableName), row, r)
    {
      hide BufferPoolManager.Valid, BufferPoolManager.Pages, BufferPoolManager.PinCounts, BufferPoolManager.Pending,
           BufferPoolManager.View, BufferPoolManager.Footprint, BufferPoolManager.Local;
      hide TablesOk, TableOk, Named, IndexOf, Serialized, MetasOk, IdsDistinct, IdsBelow, Next, MetasAreOk, Encodable,
           Layout.EncodedSizeOf, PagedTable.InsertOutcome, PagedTable.InsertPages, RoomAtEnd, AllPacked, InOrder;
      OutsidePool();
      if tableName !in index {
        return Failure(NotFound);
      }
      var k := index[tableName];
      IndexInRange(index, tables, tableName);
      var oldLastPageId := tables[k].lastPageId;
      ghost var m, ts, cs := pool.Pages(), tables, chains;
      var last;
      ghost var c;
      r, last, c := InsertIntoTable(k, row);
      if r.Failure? {
        if pool.disk.file.faults <= old(pool.disk.file.faults) + 1 {
          InsertIntoNamed(m, pool.Pages(), ts, cs, index, tableName, c, row, r);
          InsertStaysPacked(m, pool.Pages(), ts, cs, k, c, row, r);
        }
        return;
      }
      InsertIntoNamed(m, pool.Pages(), ts, cs, index, tableName, c, row, r);
      InsertStaysPacked(m, pool.Pages(), ts, cs, k, c, row, r);
      var st := Grown(k, last, c);
      if !st.Ok? {
        GrewByOne(m, pool.Pages(), ts[k], cs[k], c, row, r);
        return Failure(st);
      }
      SameIds(ts, tables, nextTableId);
      SameOrder(old(State()), State());
    }

    /** Note where the chain of table k ends now; save the catalog if that changed, or take it back. */
    method Grown(k: nat, last: PageId, ghost c: seq<PageId>) returns (st: Status)
      requires k < |tables| == |chains| && MetasAreOk() && pool.Valid() && |c| > 0 && last == c[|c| - 1]
      requires TablesOk(pool.Pages(), tables[k := tables[k].(lastPageId := last)], chains[k := c])
      modifies this`tables, this`chains, metaFile
      ensures old(metaFile.faults) <= metaFile.faults <= old(metaFile.faults) + 1
      ensures st == if metaFile.faults == old(metaFile.faults) then Ok else IOError
      ensures pool.Valid() && pool.Pages() == old(pool.Pages()) && MetasAreOk()
      ensures pool.PinCounts() == old(pool.PinCounts()) && pool.Pending() == old(pool.Pending())
      ensures chains == old(chains)[k := c]
      ensures st.Ok? ==>
                && tables == old(tables)[k := old(tables)[k].(lastPageId := last)]
                && (old(Saved()) || last != old(tables)[k].lastPageId ==> Saved())
      ensures last == old(tables)[k].lastPageId ==> unchanged(metaFile)
      ensures !st.Ok? ==> tables == old(tables) && forall cs :: !TablesOk(pool.Pages(), tables, cs)
    {
      hide BufferPoolManager.Valid, BufferPoolManager.Pages, BufferPoolManager.PinCounts, BufferPoolManager.Pending,
           BufferPoolManager.View, BufferPoolManager.Footprint, BufferPoolManager.Local;
      hide TablesOk, Serialized, MetasOk, IsChain;
      OutsidePool();
      var meta := tables[k];
      tables := tables[k := meta.(lastPageId := last)];
      chains := chains[k := c];
      pool.Untouched();
      if meta.lastPageId != last {
        pool.PendingArePinnedPages();
        ChainPageIds(pool.Pages(), tables, chains, k);
        StateFits();
        st := Save();
        if !st.Ok? {
          forall cs
            ensures !TablesOk(pool.Pages(), old(tables), cs)
          {
            LostGrowth(pool.Pages(), old(tables), tables, cs, chains, k);
          }
          tables := tables[k := meta];
          assert tables == old(tables);
          pool.Untouched();
          return;
        }
      } else {
        assert tables == old(tables);
      }
      pool.Untouched();
      return Status.Ok;
    }

    /**
     The RIDs that may be asked for.  The page need not be of the named table: it
     is a table page of any table, or not in the store at all.
     */
    ghost predicate Addressable(rid: RID)
      requires pool.Valid()
      reads this, pool.disk, pool.disk.file, pool.Footprint()
    {
      rid.pageId !in pool.disk.freeList && OnTablePage(pool.Pages(), rid)
    }

    /** The table whose page the RID names. */
    ghost function Owner(rid: RID): (o: Option<Bytes>)
      requires Valid()
      reads this, pool.disk, pool.disk.file, pool.Footprint()
      ensures o.Some? ==> o.value in index
    {
      OwnerOf(pool.Pages(), tables, chains, index, rid.pageId)
    }

    ghost function SchemaOf(tableName: Bytes): (s: Schema)
      requires Valid() && tableName in index
      reads this, pool.disk, pool.disk.file, pool.Footprint()
      ensures Schemas.Valid(s)
    {
      assert MetaOk(tables[index[tableName]]);
      tables[index[tableName]].schema
    }

    /** What readRow, deleteRow and updateRow say: the page decides, whichever table was named. */
    ghost function ReadAnswerOf(tableName: Bytes, rid: RID): Result<Row>
      requires Valid() && Addressable(rid)
      reads this, pool.disk, pool.disk.file, pool.Footprint()
    {
      if tableName in index then ReadAnswer(pool.Pages(), SchemaOf(tableName), rid) else Failure(NotFound)
    }

    ghost function DeleteAnswerOf(tableName: Bytes, rid: RID): Status
      requires Valid() && Addressable(rid)
      reads this, pool.disk, pool.disk.file, pool.Footprint()
    {
      if tableName in index then ChangeAnswer(pool.Pages(), rid, None) else NotFound
    }

    ghost function UpdateAnswerOf(tableName: Bytes, rid: RID, row: Row): Status
      requires Valid() && Addressable(rid)
      reads this, pool.disk, pool.disk.file, pool.Footprint()
    {
      if tableName !in index then NotFound
      else if !Encodable(SchemaOf(tableName), row) then InvalidArgument
      else ChangeAnswer(pool.Pages(), rid, Some(Layout.EncodedSizeOf(SchemaOf(tableName))))
    }

    /** The row as the named table encodes it. */
    ghost function PayloadOf(tableName: Bytes, row: Row): Bytes
      requires Valid()
      reads this, pool.disk, pool.disk.file, pool.Footprint()
    {
      if tableName in index && Encodable(SchemaOf(tableName), row) then Encoded(SchemaOf(tableName), row) else []
    }

    /** The owner of the page can read that encoding, and what it reads. */
    ghost predicate OwnerCanRead(tableName: Bytes, rid: RID, row: Row)
      requires Valid()
      reads this, pool.disk, pool.disk.file, pool.Footprint()
    {
      Owner(rid).Some? && Decodable(SchemaOf(Owner(rid).value), PayloadOf(tableName, row))
    }

    ghost function RowForOwner(tableName: Bytes, rid: RID, row: Row): Row
      requires Valid()
      reads this, pool.disk, pool.disk.file, pool.Footprint()
    {
      if OwnerCanRead(tableName, rid, row) then Decoded(SchemaOf(Owner(rid).value), PayloadOf(tableName, row)) else []
    }

    /** The answers in terms of the owner's cell: an update also needs rows of one size. */
    lemma OwnerAnswers(tableName: Bytes, rid: RID)
      requires Valid() && Owner(rid).Some? && Addressable(rid) && tableName in index
      ensures var o := Owner(rid).value;
              var cell := CellIn(View(), o, rid);
              && ReadAnswer(pool.Pages(), SchemaOf(o), rid) == ReadOutcome(cell)
              && DeleteAnswerOf(tableName, rid) == ChangeOutcome(cell)
              && forall row | Encodable(SchemaOf(tableName), row) ::
                   UpdateAnswerOf(tableName, rid, row) ==
                   if cell.Live? && Layout.EncodedSizeOf(SchemaOf(tableName)) != Layout.EncodedSizeOf(SchemaOf(o))
                   then InvalidArgument else ChangeOutcome(cell)
    {
      hide TablesOk, TableOk, Named, IndexOf, IsChain, TableOf, ReadAnswer, ChangeAnswer, OwnerOf, Encodable, Layout.EncodedSizeOf;
      var o := Owner(rid).value;
      NamedParts(pool.Pages(), tables, chains, index, o);
      OwnerOfPage(pool.Pages(), tables, chains, index, rid.pageId);
      OwnAnswers(pool.Pages(), tables[index[o]].schema, chains[index[o]], rid);
    }

    /** A RID under which the table ever held a row may be asked for, and the table owns its page. */
    lemma UsedIsOwned(tableName: Bytes, rid: RID)
      requires Valid() && !CellIn(View(), tableName, rid).Unused?
      ensures tableName in index && Owner(rid) == Some(tableName) && Addressable(rid)
    {
      hide TablesOk, TableOk, Named, IndexOf, IsChain, TableOf, WellFormed, Slots;
      pool.PendingArePinnedPages();
      NamedUnfold(pool.Pages(), tables, chains, index);
      NamedParts(pool.Pages(), tables, chains, index, tableName);
      var t := tables[index[tableName]];
      CellFromSlot(pool.Pages(), t.schema, chains[index[tableName]], rid);
    }

    method ReadRow(tableName: Bytes, rid: RID) returns (r: Result<Row>)
      requires Valid() && Addressable(rid)
      modifies pool.Local(), pool.disk.file
      ensures old(pool.disk.file.faults) <= pool.disk.file.faults <= old(pool.disk.file.faults) + 1
      ensures Valid() && View() == old(View()) && pool.Pages() == old(pool.Pages())
      ensures pool.PinCounts() == old(pool.PinCounts()) && pool.Pending() == old(pool.Pending())
      ensures WroteBack(pool, rid.pageId)
      ensures tableName !in index ==> r == Failure(NotFound) && pool.disk.file.faults == old(pool.disk.file.faults)
      ensures tableName in index ==>
                r == if Got(pool, rid.pageId) then old(ReadAnswerOf(tableName, rid))
                     else Failure(if pool.disk.file.faults > old(pool.disk.file.faults) then IOError else Internal)
      ensures Unhindered(pool) ==> r == old(ReadAnswerOf(tableName, rid))
      ensures old(Owner(rid)) == Some(tableName) ==>
                old(ReadAnswerOf(tableName, rid)) == ReadOutcome(CellIn(old(View()), tableName, rid))
    {
      hide BufferPoolManager.Valid, BufferPoolManager.Pages, BufferPoolManager.PinCounts, BufferPoolManager.Pending,
           BufferPoolManager.View, BufferPoolManager.Footprint, BufferPoolManager.Local, Disk.DiskInv;
      hide TablesOk, TableOk, Named, IndexOf, MetasAreOk, IsChain, TableOf, Schemas.Valid, OwnerOf, ReadAnswer;
      OutsidePool();
      pool.ValidParts();
      if Owner(rid).Some? && tableName in index {
        OwnerAnswers(tableName, rid);
      }
      if tableName !in index {
        return Failure(NotFound);
      }
      var k := index[tableName];
      NamedParts(pool.Pages(), tables, chains, index, tableName);
      var meta := tables[k];
      var pagedTable := new PagedTable(pool, meta.schema, meta.firstPageId, meta.lastPageId, chains[k]);
      pool.Untouched();
      pagedTable.OutsidePool();
      r := pagedTable.ReadRow(rid);
    }

    /**
     Rows are deleted through the page: the table that owns it loses the row,
     whichever table was named.
     */
    method DeleteRow(tableName: Bytes, rid: RID) returns (st: Status)
      requires Valid() && Addressable(rid)
      modifies pool.Local(), pool.disk.file
      ensures old(pool.disk.file.faults) <= pool.disk.file.faults <= old(pool.disk.file.faults) + 1
      ensures Valid() && pool.PinCounts() == old(pool.PinCounts()) && pool.Pending() <= old(pool.Pending())
      ensures WroteBack(pool, rid.pageId)
      ensures tableName !in index ==> st == NotFound && pool.disk.file.faults == old(pool.disk.file.faults)
      ensures tableName in index ==>
                st == if Got(pool, rid.pageId) then old(DeleteAnswerOf(tableName, rid))
                      else if pool.disk.file.faults > old(pool.disk.file.faults) then IOError else Internal
      ensures old(IsPacked()) ==> IsPacked()
      ensures tableName in index && old(Owner(rid)).Some? ==>
                old(DeleteAnswerOf(tableName, rid)) == ChangeOutcome(CellIn(old(View()), old(Owner(rid)).value, rid))
      ensures st.Ok? && old(Owner(rid)).Some? ==> Changes(old(View()), View(), old(Owner(rid)).value, Delete(rid))
      ensures forall n :: TableIn(View(), n) != TableIn(old(View()), n) <==> st.Ok? && old(Owner(rid)) == Some(n)
    {
      hide BufferPoolManager.Valid, BufferPoolManager.Pages, BufferPoolManager.PinCounts, BufferPoolManager.Pending,
           BufferPoolManager.View, BufferPoolManager.Footprint, BufferPoolManager.Local, Disk.DiskInv;
      hide TablesOk, TableOk, Named, IndexOf, MetasAreOk, IsChain, TableOf, Schemas.Valid, OwnerOf, ChangeAnswer, SlotChanged, Next, AllPacked;
      OutsidePool();
      pool.ValidParts();
      if Owner(rid).Some? && tableName in index {
        OwnerAnswers(tableName, rid);
      }
      if tableName !in index {
        return NotFound;
      }
      var k := index[tableName];
      NamedParts(pool.Pages(), tables, chains, index, tableName);
      ghost var m, db := pool.Pages(), View();
      var meta := tables[k];
      var pagedTable := new PagedTable(pool, meta.schema, meta.firstPageId, meta.lastPageId, chains[k]);
      pool.Untouched();
      pagedTable.OutsidePool();
      st := pagedTable.DeleteRow(rid);
      if st.Ok? {
        SlotChangeInNamed(m, pool.Pages(), tables, chains, index, rid, None);
        if AllPacked(m, tables, chains) {
          PackedAfterSlot(m, pool.Pages(), tables, chains, rid.pageId, rid.slotId, None);
        }
        if old(Owner(rid)).Some? {
          DeleteIsSeen(db, View(), old(Owner(rid)).value, rid);
        }
      }
    }

    /**
     Rows are overwritten through the page as well.  If the page is another
     table's, the row must have the size of that table's rows; the table stays
     sound exactly if its schema can read the new bytes.
     */
    method UpdateRow(tableName: Bytes, rid: RID, row: Row) returns (st: Status)
      requires Valid() && Addressable(rid)
      modifies pool.Local(), pool.disk.file
      ensures old(pool.disk.file.faults) <= pool.disk.file.faults <= old(pool.disk.file.faults) + 1
      ensures pool.Valid() && pool.PinCounts() == old(pool.PinCounts()) && pool.Pending() <= old(pool.Pending())
      ensures WroteBack(pool, rid.pageId)
      ensures tableName !in index ==> st == NotFound && pool.disk.file.faults == old(pool.disk.file.faults)
      ensures tableName in index && !Encodable(old(SchemaOf(tableName)), row) ==>
                st == InvalidArgument && pool.disk.file.faults == old(pool.disk.file.faults)
      ensures tableName in index && Encodable(old(SchemaOf(tableName)), row) ==>
                st == if Got(pool, rid.pageId) then old(UpdateAnswerOf(tableName, rid, row))
                      else if pool.disk.file.faults > old(pool.disk.file.faults) then IOError else Internal
      ensures old(IsPacked()) ==> IsPacked()
      ensures !st.Ok? || old(Owner(rid)).None? ==> Valid() && View() == old(View())
      ensures st.Ok? && old(Owner(rid)).Some? ==> (Valid() <==> old(OwnerCanRead(tableName, rid, row)))
      ensures st.Ok? && old(Owner(rid)).Some? && Valid() ==>
                Changes(old(View()), View(), old(Owner(rid)).value, Update(rid, old(RowForOwner(tableName, rid, row))))
      ensures st.Ok? && !Valid() ==> forall cs :: !TablesOk(pool.Pages(), tables, cs)
      ensures old(Owner(rid)) == Some(tableName) ==>
                Valid() && (st.Ok? ==> Changes(old(View()), View(), tableName, Update(rid, CutRow(row))))
    {
      hide BufferPoolManager.Valid, BufferPoolManager.Pages, BufferPoolManager.PinCounts, BufferPoolManager.Pending,
           BufferPoolManager.View, BufferPoolManager.Footprint, BufferPoolManager.Local, Disk.DiskInv;
      hide TablesOk, TableOk, Named, IndexOf, MetasAreOk, IsChain, TableOf, Schemas.Valid, OwnerOf, ChangeAnswer, SlotChanged, Next,
           Encoded, Decodable, Decoded, CutRow, Layout.EncodedSizeOf, AllPacked;
      OutsidePool();
      pool.ValidParts();
      if Owner(rid).Some? && tableName in index {
        OwnerAnswers(tableName, rid);
      }
      if tableName !in index {
        return NotFound;
      }
      var k := index[tableName];
      NamedParts(pool.Pages(), tables, chains, index, tableName);
      ghost var m := pool.Pages();
      var meta := tables[k];
      var pagedTable := new PagedTable(pool, meta.schema, meta.firstPageId, meta.lastPageId, chains[k]);
      pool.Untouched();
      pagedTable.OutsidePool();
      st := pagedTable.UpdateRow(rid, row);
      if st.Ok? {
        RowRoundTrip(meta.schema, row);
        SlotChangeInNamed(m, pool.Pages(), tables, chains, index, rid, Some(Encoded(meta.schema, row)));
        if AllPacked(m, tables, chains) {
          PackedAfterSlot(m, pool.Pages(), tables, chains, rid.pageId, rid.slotId, Some(Encoded(meta.schema, row)));
        }
      }
    }

    /** A scan starts before the first row of the named table. */
    method ScanTable(tableName: Bytes) returns (r: Result<TableIterator>)
      requires Valid()
      ensures r.Success? <==> tableName in index
      ensures r.Failure? ==> r.status == NotFound
      ensures Valid() && View() == old(View())
      ensures r.Success? ==>
                && var it := r.value;
                && fresh(it) && it.pool == pool && it.Valid(chains[index[tableName]])
                && it.Cursor() == ScanModel.At(0, 0) && it.cachedEntry == None
                && it.Table(chains[index[tableName]]) == View()[tableName]
    {
      hide BufferPoolManager.Valid, BufferPoolManager.Pages, BufferPoolManager.PinCounts, BufferPoolManager.Pending,
           BufferPoolManager.View, BufferPoolManager.Footprint, BufferPoolManager.Local;
      hide TablesOk, TableOk, Named, IndexOf, MetasAreOk, IsChain, Schemas.Valid;
      OutsidePool();
      if tableName !in index {
        return Failure(NotFound);
      }
      NamedParts(pool.Pages(), tables, chains, index, tableName);
      var meta := tables[index[tableName]];
      var it := new TableIterator(pool, meta.schema, meta.firstPageId);
      pool.Untouched();
      StartIsPlaced(pool.Pages(), meta, chains[index[tableName]]);
      return Success(it);
    }

    // ---------- opening ----------

    /**
     load, after writing the initial file if there is none.  `chains` names the
     page chains of the tables in an existing file.
     */
    static method Open(metaFile: MetaFile, pool: BufferPoolManager, ghost chains: seq<seq<PageId>>) returns (r: Result<TableManager>)
      requires pool.Valid()
      requires metaFile.present ==> !ParseCatalog(metaFile.bytes).OutOfBounds?
      modifies metaFile
      ensures pool.Valid() && pool.Pages() == old(pool.Pages())
      ensures pool.PinCounts() == old(pool.PinCounts()) && pool.Pending() == old(pool.Pending())
      ensures old(metaFile.faults) <= metaFile.faults <= old(metaFile.faults) + 1
      ensures r.Success? <==>
                metaFile.faults == old(metaFile.faults) && (old(metaFile.present) ==> ParseCatalog(old(metaFile.bytes)).Parsed?)
      ensures r.Failure? ==> r.status == if metaFile.faults > old(metaFile.faults) then IOError else Corruption
      ensures r.Success? ==>
                && fresh(r.value) && r.value.pool == pool && r.value.metaFile == metaFile
                && CatalogOk(r.value.State()) && IndexOf(r.value.index, r.value.tables)
      ensures r.Success? && old(metaFile.present) ==>
                && metaFile.present && metaFile.bytes == old(metaFile.bytes)
                && r.value.State() == ParseCatalog(metaFile.bytes).value && r.value.chains == chains
                && (r.value.Valid() <==> TablesOk(pool.Pages(), r.value.tables, chains))
      ensures r.Success? && !old(metaFile.present) ==>
                && r.value.State() == Catalog(1, []) && InOrder(r.value.State())
                && r.value.Saved() && r.value.Valid() && r.value.View() == map[]
    {
      hide BufferPoolManager.Valid, BufferPoolManager.Pages, BufferPoolManager.PinCounts, BufferPoolManager.Pending,
           BufferPoolManager.View, BufferPoolManager.Footprint, BufferPoolManager.Local;
      hide ParseCatalog, Serialized, IndexOf, TablesOk, IdsDistinct, IdsBelow, NamesDistinct, MetaOk;
      MetaOutsidePool(metaFile, pool);
      EmptyCatalog(pool.Pages());
      ghost var cs := if metaFile.present then chains else [];
      if !metaFile.present {
        var initial := InitialFile();
        var written := metaFile.Save(initial);
        if !written {
          pool.Untouched();
          return Failure(IOError);
        }
      }
      var ok, fileBytes := metaFile.Load();
      pool.Untouched();
      if !ok {
        return Failure(IOError);
      }
      var catalog, index := ParseFile(fileBytes);
      if catalog.Failure? {
        pool.Untouched();
        return Failure(catalog.status);
      }
      ParsedIsOk(fileBytes);
      var tm := new TableManager(pool, metaFile, catalog.value, index, cs);
      pool.Untouched();
      return Success(tm);
    }
  }

  lemma OneMoreKeeps(m: Store, m': Store, q: PageId)
    requires OneMorePage(m, m', q)
    ensures Keeps(m, m', []) && q in m'
  {
  }

  /** The new id keeps ids distinct and below the next one, unless the next one wraps. */
  lemma IdsAfterCreate(ts: seq<TableMeta>, next: uint32, t: TableMeta)
    requires t.tableId == next
    ensures IdsDistinct(ts) && 0 < next && IdsBelow(ts, next) ==>
              var next' := (next + 1) % 0x1_0000_0000;
              IdsDistinct(ts + [t]) && (0 < next' && IdsBelow(ts + [t], next') <==> next < 0xFFFF_FFFF)
  {
  }

  lemma IndexIsInjective(index: map<Bytes, nat>, ts: seq<TableMeta>)
    requires IndexOf(index, ts)
    ensures NamesDistinct(ts)
  {
  }

  lemma SameIds(ts: seq<TableMeta>, ts': seq<TableMeta>, next: nat)
    requires |ts'| == |ts| && forall i | 0 <= i < |ts| :: ts'[i].tableId == ts[i].tableId
    ensures IdsDistinct(ts) ==> IdsDistinct(ts')
    ensures IdsBelow(ts, next) ==> IdsBelow(ts', next)
  {
  }

  lemma GrewByOne(m: Store, m': Store, t: TableMeta, c: seq<PageId>, c': seq<PageId>, row: Row, r: Result<RID>)
    requires TableOk(m, t, c) && r.Success? && c' != c
    requires PagedTable.InsertOutcome(m, m', t.schema, c, c', row, r) && PagedTable.InsertPages(m, m', t.schema, c, c', row, r)
    ensures r.value.pageId !in m && m'.Keys == m.Keys + {r.value.pageId}
  {
  }

  lemma SameOrder(c: Catalog, c': Catalog)
    requires c'.nextTableId == c.nextTableId && |c'.tables| == |c.tables|
    requires forall i | 0 <= i < |c.tables| :: c'.tables[i].tableId == c.tables[i].tableId
    ensures InOrder(c) ==> InOrder(c')
  {
  }

  lemma IndexInRange(index: map<Bytes, nat>, ts: seq<TableMeta>, name: Bytes)
    requires IndexOf(index, ts) && name in index
    ensures index[name] < |ts| && ts[index[name]].name == name
  {
  }

  /** The chain of a table ends elsewhere exactly if it grew. */
  lemma EndOfGrown(m: Store, m': Store, t: TableMeta, c: seq<PageId>, c': seq<PageId>, row: Row, r: Result<RID>)
    requires TableOk(m, t, c) && |c'| > 0 && PagedTable.InsertOutcome(m, m', t.schema, c, c', row, r)
    ensures (r.Failure? ==> c' == c) && (c' == c <==> c'[|c'| - 1] == t.lastPageId)
  {
    ChainIsStored(m, t.schema, c);
  }

  /** An insert, as the whole database sees it. */
  lemma InsertIntoNamed(m: Store, m': Store, ts: seq<TableMeta>, chains: seq<seq<PageId>>, index: map<Bytes, nat>,
                        name: Bytes, c: seq<PageId>, row: Row, r: Result<RID>)
    requires TablesOk(m, ts, chains) && IndexOf(index, ts) && name in index && index[name] < |ts|
    requires var k := index[name];
             && TableOk(m, ts[k], chains[k]) && |c| > 0
             && PagedTable.InsertOutcome(m, m', ts[k].schema, chains[k], c, row, r)
    ensures var k := index[name];
            var ts' := ts[k := ts[k].(lastPageId := c[|c| - 1])];
            && |chains| == |ts| && TablesOk(m', ts', chains[k := c]) && IndexOf(index, ts')
            && (r.Failure? ==> c == chains[k]) && (c == chains[k] <==> c[|c| - 1] == ts[k].lastPageId)
            && (r.Failure? ==> TablesOk(m', ts, chains) && Named(m', ts, chains, index) == Named(m, ts, chains, index))
            && (r.Success? ==>
                  Changes(Named(m, ts, chains, index), Named(m', ts', chains[k := c], index), name, Insert(r.value, CutRow(row))))
  {
    hide IsChain, TableOf, Next, Keeps;
    var k := index[name];
    ChangeTable(m, m', ts, chains, index, k, c);
    IndexFacts(index, ts, name, k);
    EndOfGrown(m, m', ts[k], chains[k], c, row, r);
    if r.Failure? {
      assert chains[k := c] == chains && ts[k := ts[k].(lastPageId := c[|c| - 1])] == ts;
    }
  }

  lemma InsertStaysPacked(m: Store, m': Store, ts: seq<TableMeta>, chains: seq<seq<PageId>>, k: nat, c: seq<PageId>, row: Row, r: Result<RID>)
    requires TablesOk(m, ts, chains) && k < |ts| && TableOk(m, ts[k], chains[k]) && |c| > 0
    requires PagedTable.InsertOutcome(m, m', ts[k].schema, chains[k], c, row, r)
    ensures AllPacked(m, ts, chains) ==> AllPacked(m', ts[k := ts[k].(lastPageId := c[|c| - 1])], chains[k := c])
    ensures AllPacked(m, ts, chains) && r.Failure? ==> AllPacked(m', ts, chains)
  {
    hide IsChain, TableOf, Next, Keeps, Packed;
    if AllPacked(m, ts, chains) {
      assert Packed(m, ts[k].schema, chains[k]);
      PackedAfterInsert(m, m', ts, chains, k, c, c[|c| - 1]);
      if r.Failure? {
        assert chains[k := c] == chains;
        assert ts[k := ts[k].(lastPageId := c[|c| - 1])][k].schema == ts[k].schema;
      }
    }
  }

  lemma ChainPageIds(m: Store, ts: seq<TableMeta>, chains: seq<seq<PageId>>, k: nat)
    requires TablesOk(m, ts, chains) && k < |ts| && 0 !in m
    ensures GoodPageId(ts[k].firstPageId) && GoodPageId(ts[k].lastPageId)
  {
  }

  /** Once the chain has grown, the old last page id fits no chain. */
  lemma LostGrowth(m: Store, ts: seq<TableMeta>, ts': seq<TableMeta>, cs: seq<seq<PageId>>, cs': seq<seq<PageId>>, k: nat)
    requires TablesOk(m, ts', cs') && k < |ts| == |ts'| && ts'[k] == ts[k].(lastPageId := ts'[k].lastPageId)
    requires ts'[k].lastPageId != ts[k].lastPageId
    ensures !TablesOk(m, ts, cs)
  {
    if TablesOk(m, ts, cs) {
      ChainUnique(m, ts[k], ts'[k], cs[k], cs'[k]);
      assert false;
    }
  }

  lemma StartIsPlaced(m: Store, t: TableMeta, chain: seq<PageId>)
    requires Schemas.Valid(t.schema) && IsChain(m, t.schema, chain) && |chain| > 0 && chain[0] == t.firstPageId
    ensures Placed(m, t.schema, chain, t.firstPageId, 0, 0) && t.firstPageId != INVALID_PAGE_ID
  {
  }

  lemma MetaOutsidePool(metaFile: MetaFile, pool: BufferPoolManager)
    ensures metaFile as object !in pool.Footprint() && metaFile as object !in pool.Local() && metaFile as object != pool.disk.file
  {
  }

  /** The initial file is read back as no tables and next id 1. */
  lemma EmptyCatalog(m: Store)
    ensures var c := Catalog(1, []);
            MetasOk(c) && ParseCatalog(Serialized(c)) == Parsed(c, |Serialized(c)|)
    ensures TablesOk(m, [], []) && forall index | IndexOf(index, []) :: Named(m, [], [], index) == map[]
  {
    CatalogRoundTrip(Catalog(1, []));
  }
}
