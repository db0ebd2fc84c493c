/**
 All tables of the catalog over one page store: each has a page chain of its
 own, so what is done to one table no other table can see.
 */
module Databases {
  import opened Bytes
  import opened Core
  import opened Finite
  import opened Schemas
  import opened SlottedPages
  import opened TableModel
  import opened Chains
  import opened CatalogFormat
  import opened CatalogFile

  ghost predicate TableOk(m: Store, t: TableMeta, chain: seq<PageId>) {
    && Schemas.Valid(t.schema) && IsChain(m, t.schema, chain)
    && chain[0] == t.firstPageId && chain[|chain| - 1] == t.lastPageId
  }

  ghost predicate Apart(a: seq<PageId>, b: seq<PageId>) {
    forall p | p in a :: p !in b
  }

  /** Every table has its chain, and no page is on two chains. */
  ghost predicate TablesOk(m: Store, ts: seq<TableMeta>, chains: seq<seq<PageId>>) {
    && |chains| == |ts|
    && (forall i | 0 <= i < |ts| :: TableOk(m, ts[i], chains[i]))
    && (forall i, j | 0 <= i < |ts| && 0 <= j < |ts| && i != j :: Apart(chains[i], chains[j]))
  }

  ghost function TableAt(m: Store, ts: seq<TableMeta>, chains: seq<seq<PageId>>, i: nat): Table
    requires TablesOk(m, ts, chains) && i < |ts|
  {
    assert TableOk(m, ts[i], chains[i]);
    TableOf(m, ts[i].schema, chains[i])
  }

  type Database = map<Bytes, Table>

  /** One table operation under a name; no other name sees it. */
  ghost predicate Changes(db: Database, db': Database, name: Bytes, step: Step) {
    && name in db && name in db' && db' == db[name := db'[name]]
    && Next(db[name], step, db'[name])
  }

  ghost predicate Creates(db: Database, db': Database, name: Bytes, q: PageId) {
    name !in db && db' == db[name := [TablePage(q, [])]]
  }

  /** The database clients see: a table under each name. */
  ghost function Named(m: Store, ts: seq<TableMeta>, chains: seq<seq<PageId>>, index: map<Bytes, nat>): Database
    requires TablesOk(m, ts, chains) && IndexOf(index, ts)
  {
    map name | name in index :: TableAt(m, ts, chains, index[name])
  }

  /** A table none of whose pages changed. */
  lemma SameTable(m: Store, m': Store, t: TableMeta, chain: seq<PageId>, except: seq<PageId>)
    requires TableOk(m, t, chain) && Keeps(m, m', except) && Apart(except, chain)
    ensures TableOk(m', t, chain) && TableOf(m', t.schema, chain) == TableOf(m, t.schema, chain)
  {
    hide IsChain, TableOf;
    ChainIsStored(m, t.schema, chain);
    forall i: nat | i < |chain|
      ensures chain[i] in m && chain[i] in m' && m'[chain[i]] == m[chain[i]]
    {
      assert chain[i] in chain;
    }
    SameChain(m, m', t.schema, chain);
  }

  lemma SameTableAt(m: Store, ts: seq<TableMeta>, chains: seq<seq<PageId>>, m': Store, ts': seq<TableMeta>, chains': seq<seq<PageId>>,
                    i: nat, except: seq<PageId>)
    requires TablesOk(m, ts, chains) && TablesOk(m', ts', chains') && i < |ts| && i < |ts'|
    requires ts'[i].schema == ts[i].schema && chains'[i] == chains[i]
    requires Keeps(m, m', except) && Apart(except, chains[i])
    ensures TableAt(m', ts', chains', i) == TableAt(m, ts, chains, i)
  {
  }

  /** Pages were added, and none changed that is on a chain: the database is the same. */
  lemma SameDatabase(m: Store, m': Store, ts: seq<TableMeta>, chains: seq<seq<PageId>>, index: map<Bytes, nat>, except: seq<PageId>)
    requires TablesOk(m, ts, chains) && IndexOf(index, ts) && Keeps(m, m', except)
    requires forall i | 0 <= i < |chains| :: Apart(except, chains[i])
    ensures TablesOk(m', ts, chains) && Named(m', ts, chains, index) == Named(m, ts, chains, index)
  {
    hide TableOf, TableOk, Keeps, IsChain, Schemas.Valid, Apart;
    forall i | 0 <= i < |ts|
      ensures TableOk(m', ts[i], chains[i])
    {
      SameTable(m, m', ts[i], chains[i], except);
    }
    hide TableAt;
    forall i: nat | i < |ts|
      ensures TableAt(m', ts, chains, i) == TableAt(m, ts, chains, i)
    {
      SameTableAt(m, ts, chains, m', ts, chains, i, except);
    }
  }

  lemma TableParts(m: Store, t: TableMeta, chain: seq<PageId>)
    requires TableOk(m, t, chain)
    ensures Schemas.Valid(t.schema) && IsChain(m, t.schema, chain)
    ensures |chain| > 0 && chain[0] == t.firstPageId && chain[|chain| - 1] == t.lastPageId
    ensures t.firstPageId in chain
  {
  }

  /** The index after a table is added behind the others. */
  lemma IndexAdded(index: map<Bytes, nat>, ts: seq<TableMeta>, t: TableMeta)
    requires IndexOf(index, ts) && t.name !in index
    ensures IndexOf(index[t.name := |ts|], ts + [t])
  {
  }

  /** One empty page is a table without rows. */
  lemma NewTable(m: Store, t: TableMeta, q: PageId)
    requires q in m && q != INVALID_PAGE_ID && EmptyTablePage(m[q], q)
    requires Schemas.Valid(t.schema) && t.firstPageId == q == t.lastPageId
    ensures TableOk(m, t, [q]) && TableOf(m, t.schema, [q]) == [TablePage(q, [])]
  {
  }

  /** createTable: one more name, and every other table as it was. */
  lemma AddTable(m: Store, m': Store, ts: seq<TableMeta>, chains: seq<seq<PageId>>, index: map<Bytes, nat>, t: TableMeta, q: PageId)
    requires TablesOk(m, ts, chains) && IndexOf(index, ts) && t.name !in index
    requires Keeps(m, m', []) && q !in m && q in m' && q != INVALID_PAGE_ID && EmptyTablePage(m'[q], q)
    requires Schemas.Valid(t.schema) && t.firstPageId == q == t.lastPageId
    ensures TablesOk(m', ts + [t], chains + [[q]]) && IndexOf(index[t.name := |ts|], ts + [t])
    ensures Creates(Named(m, ts, chains, index), Named(m', ts + [t], chains + [[q]], index[t.name := |ts|]), t.name, q)
  {
    hide TableOf, TableOk, Keeps, EmptyTablePage, IsChain, Schemas.Valid, SlottedPages.WellFormed;
    SameDatabase(m, m', ts, chains, index, []);
    NewTable(m', t, q);
    IndexAdded(index, ts, t);
    forall i | 0 <= i < |ts|
      ensures Apart(chains[i], [q]) && Apart([q], chains[i])
    {
      TableParts(m, ts[i], chains[i]);
      ChainIsStored(m, ts[i].schema, chains[i]);
    }
    NamedAdded(m', ts, chains, index, t, [q]);
  }

  lemma NamedAdded(m: Store, ts: seq<TableMeta>, chains: seq<seq<PageId>>, index: map<Bytes, nat>, t: TableMeta, c: seq<PageId>)
    requires TablesOk(m, ts, chains) && IndexOf(index, ts) && t.name !in index
    requires TablesOk(m, ts + [t], chains + [c]) && IndexOf(index[t.name := |ts|], ts + [t])
    ensures Schemas.Valid(t.schema) && IsChain(m, t.schema, c)
    ensures Named(m, ts + [t], chains + [c], index[t.name := |ts|]) == Named(m, ts, chains, index)[t.name := TableOf(m, t.schema, c)]
  {
    hide TableOf, IsChain, Schemas.Valid;
    assert TableOk(m, (ts + [t])[|ts|], (chains + [c])[|ts|]);
    forall i: nat | i < |ts|
      ensures TableAt(m, ts + [t], chains + [c], i) == TableAt(m, ts, chains, i)
    {
    }
  }

  /** A change to the pages of table k only, its chain perhaps longer by one page. */
  lemma ChangeTable(m: Store, m': Store, ts: seq<TableMeta>, chains: seq<seq<PageId>>, index: map<Bytes, nat>, k: nat, c: seq<PageId>)
    requires TablesOk(m, ts, chains) && IndexOf(index, ts) && k < |ts| && Keeps(m, m', chains[k])
    requires Schemas.Valid(ts[k].schema) && IsChain(m', ts[k].schema, c)
    requires c == chains[k] || exists q :: q !in m && c == chains[k] + [q]
    ensures |c| > 0
    ensures var ts' := ts[k := ts[k].(lastPageId := c[|c| - 1])];
            && TablesOk(m', ts', chains[k := c]) && IndexOf(index, ts')
            && Named(m', ts', chains[k := c], index) == Named(m, ts, chains, index)[ts[k].name := TableOf(m', ts[k].schema, c)]
  {
    hide TableOf, TableOk, Keeps, IsChain, Apart, IndexOf, Schemas.Valid;
    TableParts(m, ts[k], chains[k]);
    var t' := ts[k].(lastPageId := c[|c| - 1]);
    var ts' := ts[k := t'];
    ChangedTable(m', t', c);
    forall i | 0 <= i < |ts| && i != k
      ensures TableOk(m', ts[i], chains[i])
      ensures Apart(c, chains[i]) && Apart(chains[i], c)
    {
      SameTable(m, m', ts[i], chains[i], chains[k]);
      StillApart(m, ts[i], chains[i], chains[k], c);
    }
    SameNames(index, ts, ts');
    forall i: nat | i < |ts| && i != k
      ensures TableAt(m', ts', chains[k := c], i) == TableAt(m, ts, chains, i)
    {
      SameTableAt(m, ts, chains, m', ts', chains[k := c], i, chains[k]);
    }
    NamedChanged(m, ts, chains, m', ts', chains[k := c], index, k);
  }

  lemma NamedChanged(m: Store, ts: seq<TableMeta>, chains: seq<seq<PageId>>, m': Store, ts': seq<TableMeta>, chains': seq<seq<PageId>>,
                     index: map<Bytes, nat>, k: nat)
    requires TablesOk(m, ts, chains) && TablesOk(m', ts', chains') && IndexOf(index, ts) && IndexOf(index, ts')
    requires k < |ts| == |ts'|
    requires forall i: nat | i < |ts| && i != k :: TableAt(m', ts', chains', i) == TableAt(m, ts, chains, i)
    ensures Named(m', ts', chains', index) == Named(m, ts, chains, index)[ts[k].name := TableAt(m', ts', chains', k)]
  {
    hide TablesOk, TableAt, IndexOf;
    IndexFacts(index, ts, ts[k].name, k);
    forall name | name in index
      ensures index[name] < |ts| && (index[name] == k <==> name == ts[k].name)
    {
      IndexFacts(index, ts, name, k);
    }
    NamedUnfold(m, ts, chains, index);
    NamedUnfold(m', ts', chains', index);
  }

  lemma NamedUnfold(m: Store, ts: seq<TableMeta>, chains: seq<seq<PageId>>, index: map<Bytes, nat>)
    requires TablesOk(m, ts, chains) && IndexOf(index, ts)
    ensures Named(m, ts, chains, index).Keys == index.Keys
    ensures forall name | name in index :: index[name] < |ts| && Named(m, ts, chains, index)[name] == TableAt(m, ts, chains, index[name])
  {
  }

  lemma ChangedTable(m: Store, t: TableMeta, c: seq<PageId>)
    requires Schemas.Valid(t.schema) && IsChain(m, t.schema, c) && |c| > 0 && c[0] == t.firstPageId && c[|c| - 1] == t.lastPageId
    ensures TableOk(m, t, c)
  {
  }

  lemma StillApart(m: Store, t: TableMeta, other: seq<PageId>, was: seq<PageId>, c: seq<PageId>)
    requires TableOk(m, t, other) && Apart(was, other) && (c == was || exists q :: q !in m && c == was + [q])
    ensures Apart(c, other) && Apart(other, c)
  {
  }

  lemma SameNames(index: map<Bytes, nat>, ts: seq<TableMeta>, ts': seq<TableMeta>)
    requires IndexOf(index, ts) && |ts'| == |ts| && forall i | 0 <= i < |ts| :: ts'[i].name == ts[i].name
    ensures IndexOf(index, ts')
  {
  }

  lemma IndexFacts(index: map<Bytes, nat>, ts: seq<TableMeta>, name: Bytes, k: nat)
    requires IndexOf(index, ts) && k < |ts|
    ensures name in index ==> index[name] < |ts| && ts[index[name]].name == name && (index[name] == k <==> name == ts[k].name)
    ensures ts[k].name in index && index[ts[k].name] == k
  {
  }

  lemma NamedParts(m: Store, ts: seq<TableMeta>, chains: seq<seq<PageId>>, index: map<Bytes, nat>, name: Bytes)
    requires TablesOk(m, ts, chains) && IndexOf(index, ts) && name in index
    ensures |chains| == |ts| && index[name] < |ts| && name in Named(m, ts, chains, index)
    ensures var (t, c) := (ts[index[name]], chains[index[name]]);
            && t.name == name && Schemas.Valid(t.schema) && IsChain(m, t.schema, c) && |c| > 0
            && c[0] == t.firstPageId && c[|c| - 1] == t.lastPageId
            && Named(m, ts, chains, index)[name] == TableOf(m, t.schema, c)
  {
  }

  /** A change of one table's rows, as the whole database sees it. */
  lemma ChangeNamed(m: Store, m': Store, ts: seq<TableMeta>, chains: seq<seq<PageId>>, index: map<Bytes, nat>, name: Bytes)
    requires TablesOk(m, ts, chains) && IndexOf(index, ts) && name in index && index[name] < |ts| == |chains|
    requires Keeps(m, m', chains[index[name]])
    requires Schemas.Valid(ts[index[name]].schema) && IsChain(m', ts[index[name]].schema, chains[index[name]])
    ensures TablesOk(m', ts, chains)
    ensures m' == m ==> Named(m', ts, chains, index) == Named(m, ts, chains, index)
    ensures var db' := Named(m', ts, chains, index);
            && name in db' && db' == Named(m, ts, chains, index)[name := db'[name]]
            && db'[name] == TableOf(m', ts[index[name]].schema, chains[index[name]])
  {
    hide IsChain, TableOf, Keeps;
    var k := index[name];
    TableParts(m, ts[k], chains[k]);
    ChangeTable(m, m', ts, chains, index, k, chains[k]);
    IndexFacts(index, ts, name, k);
    assert chains[k := chains[k]] == chains;
    assert ts[k := ts[k].(lastPageId := chains[k][|chains[k]| - 1])] == ts;
  }

  // ---------- chains this code alone wrote ----------

  /** Every page of every chain was filled row by row. */
  ghost predicate AllPacked(m: Store, ts: seq<TableMeta>, chains: seq<seq<PageId>>) {
    |chains| == |ts| && forall i: nat | i < |ts| :: Packed(m, ts[i].schema, chains[i])
  }

  lemma PackedElsewhere(m: Store, m': Store, ts: seq<TableMeta>, chains: seq<seq<PageId>>, except: seq<PageId>, i: nat)
    requires TablesOk(m, ts, chains) && AllPacked(m, ts, chains) && i < |ts|
    requires Keeps(m, m', except) && Apart(except, chains[i])
    ensures Packed(m', ts[i].schema, chains[i])
  {
    hide Packed;
    assert Packed(m, ts[i].schema, chains[i]);
    StaysPacked(m, m', ts[i].schema, chains[i]);
  }

  /** Packed after an insert into table k. */
  lemma PackedAfterInsert(m: Store, m': Store, ts: seq<TableMeta>, chains: seq<seq<PageId>>, k: nat, c: seq<PageId>, last: PageId)
    requires TablesOk(m, ts, chains) && AllPacked(m, ts, chains) && k < |ts|
    requires Keeps(m, m', chains[k]) && Packed(m', ts[k].schema, c)
    ensures AllPacked(m', ts[k := ts[k].(lastPageId := last)], chains[k := c])
  {
    forall i: nat | i < |ts| && i != k
      ensures Packed(m', ts[i].schema, chains[i])
    {
      hide Packed;
      PackedElsewhere(m, m', ts, chains, chains[k], i);
    }
  }

  /** After a new table, or only a new page. */
  lemma PackedAfterCreate(m: Store, m': Store, ts: seq<TableMeta>, chains: seq<seq<PageId>>, t: TableMeta, q: PageId)
    requires TablesOk(m, ts, chains) && AllPacked(m, ts, chains) && Keeps(m, m', [])
    requires q in m' && EmptyTablePage(m'[q], q)
    ensures AllPacked(m', ts, chains) && AllPacked(m', ts + [t], chains + [[q]])
  {
    forall i: nat | i < |ts|
      ensures Packed(m', ts[i].schema, chains[i])
    {
      hide Packed;
      PackedElsewhere(m, m', ts, chains, [], i);
    }
  }

  /** After a change of one slot, whoever owns the page. */
  lemma PackedAfterSlot(m: Store, m': Store, ts: seq<TableMeta>, chains: seq<seq<PageId>>, p: PageId, slotId: nat, payload: Option<Bytes>)
    requires AllPacked(m, ts, chains) && SlotChanged(m, m', p, slotId, payload)
    ensures AllPacked(m', ts, chains)
  {
    forall i: nat | i < |ts|
      ensures Packed(m', ts[i].schema, chains[i])
    {
      hide Packed;
      assert Packed(m, ts[i].schema, chains[i]);
      StaysPacked(m, m', ts[i].schema, chains[i]);
    }
  }

  /** The table that has page p on its chain. */
  ghost function OwnerOf(m: Store, ts: seq<TableMeta>, chains: seq<seq<PageId>>, index: map<Bytes, nat>, p: PageId): (o: Option<Bytes>)
    requires TablesOk(m, ts, chains) && IndexOf(index, ts)
    ensures o.Some? ==> o.value in index && p in chains[index[o.value]]
    ensures forall n | n in index && p in chains[index[n]] :: o == Some(n)
    ensures o.None? ==> forall i | 0 <= i < |ts| :: p !in chains[i]
  {
    if exists n :: n in index && p in chains[index[n]] then
      var n :| n in index && p in chains[index[n]];
      Some(n)
    else
      assert forall i | 0 <= i < |ts| :: ts[i].name in index && index[ts[i].name] == i;
      None
  }

  lemma OwnerOfPage(m: Store, ts: seq<TableMeta>, chains: seq<seq<PageId>>, index: map<Bytes, nat>, p: PageId)
    requires TablesOk(m, ts, chains) && IndexOf(index, ts) && OwnerOf(m, ts, chains, index, p).Some?
    ensures var o := OwnerOf(m, ts, chains, index, p).value;
            o in index && index[o] < |ts| == |chains| && p in chains[index[o]]
  {
  }

  /**
     One slot of one page changed, through whatever table: only the owner of the
     page sees it, and it stays a table exactly if its schema can read the payload.
   */
  lemma SlotChangeInNamed(m: Store, m': Store, ts: seq<TableMeta>, chains: seq<seq<PageId>>, index: map<Bytes, nat>,
                          rid: RID, payload: Option<Bytes>)
    requires TablesOk(m, ts, chains) && IndexOf(index, ts) && SlotChanged(m, m', rid.pageId, rid.slotId, payload)
    ensures match OwnerOf(m, ts, chains, index, rid.pageId)
            case None => TablesOk(m', ts, chains) && Named(m', ts, chains, index) == Named(m, ts, chains, index)
            case Some(o) =>
              && index[o] < |ts| && Schemas.Valid(ts[index[o]].schema)
              && var s := ts[index[o]].schema;
                 if PayloadOk(s, payload)
                 then TablesOk(m', ts, chains) &&
                      Changes(Named(m, ts, chains, index), Named(m', ts, chains, index), o, SlotStep(s, rid, payload))
                 else forall cs :: !TablesOk(m', ts, cs)
  {
    hide IsChain, TableOf, SlotChanged, Next, OwnerOf, IndexOf, TableOk;
    ChangedPageOnly(m, m', rid.pageId, rid.slotId, payload);
    match OwnerOf(m, ts, chains, index, rid.pageId)
    case None =>
      SameDatabase(m, m', ts, chains, index, [rid.pageId]);
    case Some(o) =>
      NamedParts(m, ts, chains, index, o);
      var k := index[o];
      var s := ts[k].schema;
      if PayloadOk(s, payload) {
        SlotChangeIsStep(m, m', s, chains[k], rid, payload);
        ChangeNamed(m, m', ts, chains, index, o);
      } else {
        forall cs
          ensures !TablesOk(m', ts, cs)
        {
          BrokenTable(m, m', ts, chains[k], k, rid, payload, cs);
        }
      }
  }

  lemma ChangedPageOnly(m: Store, m': Store, p: PageId, slotId: nat, payload: Option<Bytes>)
    requires SlotChanged(m, m', p, slotId, payload)
    ensures Keeps(m, m', [p])
  {
  }

  lemma BrokenTable(m: Store, m': Store, ts: seq<TableMeta>, chain: seq<PageId>, k: nat, rid: RID, payload: Option<Bytes>,
                    cs: seq<seq<PageId>>)
    requires k < |ts| && Schemas.Valid(ts[k].schema) && IsChain(m, ts[k].schema, chain)
    requires |chain| > 0 && chain[0] == ts[k].firstPageId && rid.pageId in chain
    requires SlotChanged(m, m', rid.pageId, rid.slotId, payload) && !PayloadOk(ts[k].schema, payload)
    ensures !TablesOk(m', ts, cs)
  {
    hide IsChain, SlotChanged;
    if TablesOk(m', ts, cs) {
      TableParts(m', ts[k], cs[k]);
      UndecodablePayloadBreaks(m, m', ts[k].schema, chain, rid, payload.value, cs[k]);
    }
  }

  /** A delete is always seen by the table it happens in. */
  lemma DeleteIsSeen(db: Database, db': Database, name: Bytes, rid: RID)
    requires Changes(db, db', name, Delete(rid))
    ensures db'[name] != db[name]
  {
    StepOnMap(db[name], Delete(rid), db'[name], rid);
  }

  /** A table's page chain is all there is to find from its first page. */
  lemma ChainUnique(m: Store, t: TableMeta, t': TableMeta, c: seq<PageId>, c': seq<PageId>)
    requires TableOk(m, t, c) && TableOk(m, t', c') && t.schema == t'.schema && t.firstPageId == t'.firstPageId
    ensures c == c' && t.lastPageId == t'.lastPageId
  {
    ChainFromBytes(m, t.schema, c, c');
  }

  /** There are no more tables than page ids a page can have. */
  lemma TablesFit(m: Store, ts: seq<TableMeta>, chains: seq<seq<PageId>>)
    requires TablesOk(m, ts, chains) && 0 !in m
    ensures |ts| <= INVALID_PAGE_ID - 1
  {
    forall i, j | 0 <= i < j < |ts|
      ensures ts[i].firstPageId != ts[j].firstPageId
    {
      TableParts(m, ts[i], chains[i]);
      TableParts(m, ts[j], chains[j]);
      assert Apart(chains[i], chains[j]);
    }
    forall i | 0 <= i < |ts|
      ensures 1 <= ts[i].firstPageId < INVALID_PAGE_ID
    {
      assert TableOk(m, ts[i], chains[i]) && RowPage(m, ts[i].schema, chains[i][0]);
    }
    PigeonHole(seq(|ts|, i requires 0 <= i < |ts| => ts[i].firstPageId), 1, INVALID_PAGE_ID);
  }

  // ---------- runs over the whole database ----------

  ghost function TableIn(db: Database, name: Bytes): Option<Table> {
    if name in db then Some(db[name]) else None
  }

  ghost function CellIn(db: Database, name: Bytes, rid: RID): Cell {
    if name in db then Get(db[name], rid) else Unused
  }

  datatype DbStep = OnTable(name: Bytes, step: Step) | NewTable(name: Bytes, page: PageId) | Quiet

  ghost predicate DbNext(db: Database, e: DbStep, db': Database) {
    match e
    case OnTable(name, step) => Changes(db, db', name, step)
    case NewTable(name, page) => Creates(db, db', name, page)
    case Quiet => db' == db
  }

  ghost predicate DbRun(dbs: seq<Database>, es: seq<DbStep>) {
    && |dbs| == |es| + 1
    && (forall k | 0 <= k < |es| :: DbNext(dbs[k], es[k], dbs[k + 1]))
  }

  /** The run as one table goes through it. */
  ghost function OneTable(dbs: seq<Database>, name: Bytes): (ts: seq<Table>)
    requires forall k | 0 <= k < |dbs| :: name in dbs[k]
    ensures |ts| == |dbs| && forall k | 0 <= k < |dbs| :: ts[k] == dbs[k][name]
  {
    seq(|dbs|, k requires 0 <= k < |dbs| => dbs[k][name])
  }

  function OwnStep(e: DbStep, name: Bytes): Step {
    if e.OnTable? && e.name == name then e.step else Nothing
  }

  ghost function OwnSteps(es: seq<DbStep>, name: Bytes): (ss: seq<Step>)
    ensures |ss| == |es| && forall k | 0 <= k < |es| :: ss[k] == OwnStep(es[k], name)
  {
    seq(|es|, k requires 0 <= k < |es| => OwnStep(es[k], name))
  }

  /** A table is never dropped. */
  lemma {:induction false} TablesStay(dbs: seq<Database>, es: seq<DbStep>, name: Bytes, n: nat)
    requires DbRun(dbs, es) && n <= |es| && name in dbs[0] && IsTable(dbs[0][name])
    ensures name in dbs[n] && IsTable(dbs[n][name])
    decreases n
  {
    if n == 0 {
    } else {
      TablesStay(dbs, es, name, n - 1);
      assert DbNext(dbs[n - 1], es[n - 1], dbs[n]);
    }
  }

  /** However operations on many tables interleave, each table sees a run of its own operations only. */
  lemma RunOfOneTable(dbs: seq<Database>, es: seq<DbStep>, name: Bytes)
    requires DbRun(dbs, es) && name in dbs[0] && IsTable(dbs[0][name])
    ensures forall k | 0 <= k < |dbs| :: name in dbs[k]
    ensures Run(OneTable(dbs, name), OwnSteps(es, name))
  {
    forall k: nat | k < |dbs|
      ensures name in dbs[k] && IsTable(dbs[k][name])
    {
      TablesStay(dbs, es, name, k);
    }
    var ts, ss := OneTable(dbs, name), OwnSteps(es, name);
    forall k: nat | k < |es|
      ensures Next(ts[k], ss[k], ts[k + 1])
    {
      TablesStay(dbs, es, name, k);
      TablesStay(dbs, es, name, k + 1);
      assert DbNext(dbs[k], es[k], dbs[k + 1]);
    }
  }

  /** So a read of any table gives the last write to that RID of that table. */
  lemma DatabaseIsMaps(dbs: seq<Database>, es: seq<DbStep>, name: Bytes, rid: RID)
    requires DbRun(dbs, es) && name in dbs[0] && IsTable(dbs[0][name])
    ensures CellIn(dbs[|es|], name, rid) == CellAfterAll(CellIn(dbs[0], name, rid), OwnSteps(es, name), rid)
  {
    RunOfOneTable(dbs, es, name);
    RunIsMap(OneTable(dbs, name), OwnSteps(es, name), rid);
  }
}
