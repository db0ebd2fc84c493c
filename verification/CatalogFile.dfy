/** The loops that size, build and read tables.meta, against the format they implement. */
module CatalogFile {
  import opened Bytes
  import opened Core
  import opened Schemas
  import opened Layout
  import opened CatalogFormat

  // ---------- sizes ----------

  lemma {:induction false} ColumnsLonger(acc: Bytes, cs: seq<Column>, i: nat, n: nat)
    requires i <= n <= |cs|
    ensures |PutColumns(acc, cs, i)| <= |PutColumns(acc, cs, n)|
    decreases n
  {
    hide PutColumns, ColumnBytes;
    if i == n {
    } else {
      ColumnsLonger(acc, cs, i, n - 1);
      PutColumnsStep(acc, cs, n);
    }
  }

  lemma {:induction false} TablesLonger(acc: Bytes, ts: seq<TableMeta>, i: nat, n: nat)
    requires i <= n <= |ts| && SchemasFit(ts)
    ensures |PutTables(acc, ts, i)| <= |PutTables(acc, ts, n)|
    decreases n
  {
    hide PutTable, PutColumns, Padded, AlignTo, TableHead;
    if i == n {
    } else {
      TablesLonger(acc, ts, i, n - 1);
      PutTableParts(PutTables(acc, ts, n - 1), ts[n - 1]);
    }
  }

  method SerializedSize(c: Catalog) returns (size: nat)
    requires Writable(c)
    ensures size == |Serialized(c)|
  {
    hide PutTable, PutColumns, Padded, TableHead;
    size := 4;
    size := size + 4;
    size := size + 4;
    size := size + 4;
    for i := 0 to |c.tables|
      invariant size == |PutTables(FileHead(c), c.tables, i)|
    {
      ghost var acc := PutTables(FileHead(c), c.tables, i);
      PutTableParts(acc, c.tables[i]);
      size := TableEnd(c.tables[i], size, acc);
    }
  }

  method TableEnd(t: TableMeta, start: nat, ghost acc: Bytes) returns (size: nat)
    requires |t.schema| <= MAX_COLUMNS && start == |acc|
    ensures size == |PutTable(acc, t)|
  {
    hide PutTable, PutColumns, Padded, TableHead;
    PutTableParts(acc, t);
    ghost var head := Padded(acc + TableHead(t), 4);
    ColumnsOfNothing(head, t.schema);
    size := start + 4 + 4 + 4 + 1 + 3 + 2;
    size := size + |t.name|;
    size := AlignTo(size, 4);
    for j := 0 to |t.schema|
      invariant size == |PutColumns(head, t.schema, j)|
    {
      PutColumnsStep(head, t.schema, j + 1);
      size := size + 1 + 1 + 2 + 2;
      size := size + |t.schema[j].name|;
      size := AlignTo(size, 4);
    }
    size := AlignTo(size, 8);
  }

  lemma ColumnsOfNothing(acc: Bytes, cs: seq<Column>)
    ensures PutColumns(acc, cs, 0) == acc
  {
  }

  // ---------- building the file in place ----------

  /** The buffer holds acc, and zeros behind it. */
  ghost predicate Filled(buf: Bytes, acc: Bytes) {
    |acc| <= |buf| && buf == acc + Zeros(|buf| - |acc|)
  }

  lemma FilledMore(buf: Bytes, buf': Bytes, acc: Bytes, x: Bytes)
    requires Filled(buf, acc) && |acc| + |x| <= |buf|
    requires buf' == buf[..|acc|] + x + buf[|acc| + |x|..]
    ensures Filled(buf', acc + x)
  {
  }

  lemma FilledZeros(buf: Bytes, acc: Bytes, n: nat)
    requires Filled(buf, acc) && |acc| + n <= |buf|
    ensures Filled(buf, acc + Zeros(n))
  {
  }

  method PutUint(a: array<byte>, offset: nat, v: nat, n: nat, ghost acc: Bytes)
    requires Filled(a[..], acc) && offset == |acc| && offset + n <= a.Length
    modifies a
    ensures Filled(a[..], acc + ToLE(v, n))
  {
    WriteUint(a, offset, v, n);
    FilledMore(old(a[..]), a[..], acc, ToLE(v, n));
  }

  method PutBytes(a: array<byte>, offset: nat, x: Bytes, ghost acc: Bytes)
    requires Filled(a[..], acc) && offset == |acc| && offset + |x| <= a.Length
    modifies a
    ensures Filled(a[..], acc + x)
  {
    CopyInto(a, offset, x);
    FilledMore(old(a[..]), a[..], acc, x);
  }

  method PutByte(a: array<byte>, offset: nat, x: byte, ghost acc: Bytes)
    requires Filled(a[..], acc) && offset == |acc| < a.Length
    modifies a
    ensures Filled(a[..], acc + [x])
  {
    a[offset] := x;
    FilledMore(old(a[..]), a[..], acc, [x]);
  }

  /** One column entry; the flags byte is OR-ed onto a zero byte. */
  method WriteColumn(a: array<byte>, start: nat, c: Column, ghost acc: Bytes) returns (offset: nat)
    requires Filled(a[..], acc) && start == |acc| && AlignTo(start + 6 + |c.name|, 4) <= a.Length
    requires |c.name| <= MAX_NAME
    modifies a
    ensures offset == AlignTo(start + 6 + |c.name|, 4)
    ensures Filled(a[..], Padded(acc + ColumnBytes(c), 4))
    ensures ColumnEntry(a[..], start, c) && NextMultiple(offset, 4, start + 6 + |c.name|) && ZerosIn(a[..], start + 6 + |c.name|, a.Length)
  {
    hide Filled, ToLE, AlignTo, ColumnEntry, ZerosIn, NextMultiple;
    offset := start;
    PutByte(a, offset, TypeCode(c.logicalType), acc);
    offset := offset + 1;
    PutByte(a, offset, Flags(c), acc + [TypeCode(c.logicalType)]);
    offset := offset + 1;
    ghost var acc1 := acc + [TypeCode(c.logicalType)] + [Flags(c)];
    PutUint(a, offset, c.stringCapacity, 2, acc1);
    offset := offset + 2;
    PutUint(a, offset, |c.name|, 2, acc1 + ToLE(c.stringCapacity, 2));
    offset := offset + 2;
    PutBytes(a, offset, c.name, acc1 + ToLE(c.stringCapacity, 2) + ToLE(|c.name|, 2));
    offset := offset + |c.name|;
    ghost var acc2 := acc1 + ToLE(c.stringCapacity, 2) + ToLE(|c.name|, 2) + c.name;
    assert acc2 == acc + ColumnBytes(c);
    FilledZeros(a[..], acc2, AlignTo(offset, 4) - offset);
    WrittenColumn(a[..], acc, c);
    offset := AlignTo(offset, 4);
  }

  lemma WrittenColumn(b: Bytes, acc: Bytes, c: Column)
    requires Filled(b, acc + ColumnBytes(c)) && |c.name| <= MAX_NAME
    ensures ColumnEntry(b, |acc|, c) && ZerosIn(b, |acc| + 6 + |c.name|, |b|)
    ensures NextMultiple(AlignTo(|acc| + 6 + |c.name|, 4), 4, |acc| + 6 + |c.name|)
  {
    hide ColumnBytes, ColumnEntry;
    AlignedUp(|acc| + 6 + |c.name|, 4);
    assert b[|acc|..|acc| + |ColumnBytes(c)|] == ColumnBytes(c);
    ColumnIsEntry(b, |acc|, c);
  }

  method WriteTableHead(a: array<byte>, start: nat, t: TableMeta, ghost acc: Bytes) returns (offset: nat)
    requires Filled(a[..], acc) && start == |acc| && AlignTo(start + 18 + |t.name|, 4) <= a.Length
    requires |t.name| <= MAX_NAME && |t.schema| <= MAX_COLUMNS
    modifies a
    ensures offset == AlignTo(start + 18 + |t.name|, 4)
    ensures Filled(a[..], Padded(acc + TableHead(t), 4))
    ensures TableEntry(a[..], start, t) && NextMultiple(offset, 4, start + 18 + |t.name|)
    ensures ZerosIn(a[..], start + 13, start + 16) && ZerosIn(a[..], start + 18 + |t.name|, a.Length)
  {
    hide Filled, ToLE, AlignTo, TableEntry, ZerosIn, NextMultiple;
    offset := start;
    PutUint(a, offset, t.tableId, 4, acc);
    offset := offset + 4;
    ghost var acc1 := acc + ToLE(t.tableId, 4);
    PutUint(a, offset, t.firstPageId, 4, acc1);
    offset := offset + 4;
    ghost var acc2 := acc1 + ToLE(t.firstPageId, 4);
    PutUint(a, offset, t.lastPageId, 4, acc2);
    offset := offset + 4;
    ghost var acc3 := acc2 + ToLE(t.lastPageId, 4);
    PutByte(a, offset, |t.schema|, acc3);
    offset := offset + 1;
    FilledZeros(a[..], acc3 + [|t.schema|], 3);
    offset := offset + 3;
    ghost var acc4 := acc3 + [|t.schema|] + Zeros(3);
    PutUint(a, offset, |t.name|, 2, acc4);
    offset := offset + 2;
    PutBytes(a, offset, t.name, acc4 + ToLE(|t.name|, 2));
    offset := offset + |t.name|;
    ghost var acc5 := acc4 + ToLE(|t.name|, 2) + t.name;
    HeadPieces(acc, t);
    FilledZeros(a[..], acc5, AlignTo(offset, 4) - offset);
    WrittenHead(a[..], acc, t);
    offset := AlignTo(offset, 4);
  }

  lemma WrittenHead(b: Bytes, acc: Bytes, t: TableMeta)
    requires |t.name| <= MAX_NAME && |t.schema| <= MAX_COLUMNS && Filled(b, acc + TableHead(t))
    ensures TableEntry(b, |acc|, t) && ZerosIn(b, |acc| + 13, |acc| + 16) && ZerosIn(b, |acc| + 18 + |t.name|, |b|)
    ensures NextMultiple(AlignTo(|acc| + 18 + |t.name|, 4), 4, |acc| + 18 + |t.name|)
  {
    hide TableHead, TableEntry;
    AlignedUp(|acc| + 18 + |t.name|, 4);
    assert b[|acc|..|acc| + |TableHead(t)|] == TableHead(t);
    HeadIsEntry(b, |acc|, t);
  }

  lemma HeadPieces(acc: Bytes, t: TableMeta)
    requires |t.schema| <= MAX_COLUMNS
    ensures acc + ToLE(t.tableId, 4) + ToLE(t.firstPageId, 4) + ToLE(t.lastPageId, 4) + [|t.schema|] + Zeros(3)
            + ToLE(|t.name|, 2) + t.name == acc + TableHead(t)
  {
  }

  method WriteTable(a: array<byte>, start: nat, t: TableMeta, ghost acc: Bytes) returns (offset: nat)
    requires Filled(a[..], acc) && start == |acc| && |t.schema| <= MAX_COLUMNS && |PutTable(acc, t)| <= a.Length
    requires |t.name| <= MAX_NAME && forall j | 0 <= j < |t.schema| :: |t.schema[j].name| <= MAX_NAME
    modifies a
    ensures offset == |PutTable(acc, t)|
    ensures Filled(a[..], PutTable(acc, t))
  {
    hide Filled, TableHead, ColumnBytes, AlignTo;
    PutTableParts(acc, t);
    ghost var head := Padded(acc + TableHead(t), 4);
    ColumnsOfNothing(head, t.schema);
    ColumnsLonger(head, t.schema, 0, |t.schema|);
    offset := WriteTableHead(a, start, t, acc);
    for j := 0 to |t.schema|
      invariant offset == |PutColumns(head, t.schema, j)|
      invariant Filled(a[..], PutColumns(head, t.schema, j))
    {
      ColumnsLonger(head, t.schema, j + 1, |t.schema|);
      PutColumnsStep(head, t.schema, j + 1);
      offset := WriteColumn(a, offset, t.schema[j], PutColumns(head, t.schema, j));
    }
    FilledZeros(a[..], PutColumns(head, t.schema, |t.schema|), AlignTo(offset, 8) - offset);
    offset := AlignTo(offset, 8);
  }

  lemma SerializedHeader(c: Catalog)
    requires MetasOk(c)
    ensures FileHeader(Serialized(c), c.nextTableId, |c.tables|) && ZerosIn(Serialized(c), 12, 16)
  {
    hide PutTables, MetaOk;
    var b, head := Serialized(c), FileHead(c);
    PutTablesGrows(head, c.tables, |c.tables|);
    assert [] + head == head;
    PrefixSits(b, [], head);
    var p1 := MAGIC + ToLE(c.nextTableId, 4);
    SitsParts(b, 0, p1 + ToLE(|c.tables|, 4), Zeros(4));
    SitsParts(b, 0, p1, ToLE(|c.tables|, 4));
    SitsParts(b, 0, MAGIC, ToLE(c.nextTableId, 4));
    ReadBack32(b, 4, c.nextTableId);
    ReadBack32(b, 8, |c.tables|);
    assert forall i: nat | i < 4 :: b[i] == b[0..4][i];
    var z := b[12..16];
    assert z[0] == b[12] && z[1] == b[13] && z[2] == b[14] && z[3] == b[15];
  }

  method BuildFile(c: Catalog) returns (b: Bytes)
    requires MetasOk(c)
    ensures b == Serialized(c)
    ensures FileHeader(b, c.nextTableId, |c.tables|) && ZerosIn(b, 12, 16)
  {
    hide PutTable, PutTables, ToLE, MetaOk, FileHeader, ZerosIn;
    SerializedHeader(c);
    var size := SerializedSize(c);
    TablesOfNothing(FileHead(c), c.tables);
    TablesLonger(FileHead(c), c.tables, 0, |c.tables|);
    var a := new byte[size](_ => 0);
    assert Filled(a[..], []);
    PutBytes(a, 0, MAGIC, []);
    var offset := 4;
    assert [] + MAGIC == MAGIC;
    PutUint(a, offset, c.nextTableId, 4, MAGIC);
    offset := offset + 4;
    PutUint(a, offset, |c.tables|, 4, MAGIC + ToLE(c.nextTableId, 4));
    offset := offset + 4;
    FilledZeros(a[..], MAGIC + ToLE(c.nextTableId, 4) + ToLE(|c.tables|, 4), 4);
    offset := offset + 4;
    for i := 0 to |c.tables|
      invariant offset == |PutTables(FileHead(c), c.tables, i)|
      invariant Filled(a[..], PutTables(FileHead(c), c.tables, i))
    {
      TablesLonger(FileHead(c), c.tables, i + 1, |c.tables|);
      TablesNext(FileHead(c), c.tables, i);
      NamesFit(c.tables[i]);
      offset := WriteTable(a, offset, c.tables[i], PutTables(FileHead(c), c.tables, i));
    }
    return a[..];
  }

  lemma TablesOfNothing(acc: Bytes, ts: seq<TableMeta>)
    requires SchemasFit(ts)
    ensures PutTables(acc, ts, 0) == acc
  {
  }

  lemma TablesNext(acc: Bytes, ts: seq<TableMeta>, i: nat)
    requires i < |ts| && SchemasFit(ts)
    ensures PutTables(acc, ts, i + 1) == PutTable(PutTables(acc, ts, i), ts[i])
  {
  }

  lemma NamesFit(t: TableMeta)
    requires MetaOk(t)
    ensures |t.name| <= MAX_NAME && forall j | 0 <= j < |t.schema| :: |t.schema[j].name| <= MAX_NAME
  {
  }

  /** initMetaFile writes the serialization of the empty catalog. */
  method InitialFile() returns (b: Bytes)
    ensures b == Serialized(Catalog(1, []))
    ensures |b| == 16 && FileHeader(b, 1, 0) && ZerosIn(b, 12, 16)
  {
    SerializedHeader(Catalog(1, []));
    var header := new byte[CatalogFormat.HEADER_SIZE](_ => 0);
    assert Filled(header[..], []);
    PutBytes(header, 0, MAGIC, []);
    assert [] + MAGIC == MAGIC;
    PutUint(header, 4, 1, 4, MAGIC);
    PutUint(header, 8, 0, 4, MAGIC + ToLE(1, 4));
    FilledZeros(header[..], MAGIC + ToLE(1, 4) + ToLE(0, 4), 4);
    return header[..];
  }

  // ---------- reading ----------

  method ReadUint16(b: Bytes, offset: nat) returns (v: uint16)
    requires offset + 2 <= |b|
    ensures v == U16(b, offset)
  {
    v := ReadUint(b, offset, 2);
    U16IsLE(b, offset);
  }

  method ReadUint32(b: Bytes, offset: nat) returns (v: uint32)
    requires offset + 4 <= |b|
    ensures v == U32(b, offset)
  {
    assert Pow256(4) == 0x1_0000_0000 by { assert Pow256(2) == 65536; }
    v := ReadUint(b, offset, 4);
    U32IsLE(b, offset);
  }

  method ReadColumn(b: Bytes, start: nat) returns (r: Result<Column>, offset: nat)
    requires !ParseColumn(b, start).OutOfBounds?
    ensures match ParseColumn(b, start)
            case Parsed(c, next) => r == Success(c) && offset == next
            case _ => r == Failure(Corruption)
    ensures start < |b|
    ensures r.Failure? <==> !(1 <= b[start] <= 6) || start + 1 >= |b| || b[start + 1] >= 4
    ensures r.Success? ==> ColumnEntry(b, start, r.value) && NextMultiple(offset, 4, start + 6 + |r.value.name|)
  {
    offset := start;
    var typeCode := b[offset];
    offset := offset + 1;
    var logicalType := TypeFromCode(typeCode);
    if logicalType.None? {
      return Failure(Corruption), offset;
    }
    var columnFlags: int := b[offset];
    if columnFlags >= 4 {
      return Failure(Corruption), offset;
    }
    var nullable, primaryKey := columnFlags % 2 == 1, columnFlags / 2 == 1;
    offset := offset + 1;
    var stringCapacity := ReadUint16(b, offset);
    offset := offset + 2;
    var colNameLength := ReadUint16(b, offset);
    offset := offset + 2;
    var name := b[offset..offset + colNameLength];
    offset := offset + colNameLength;
    AlignedUp(offset, 4);
    offset := AlignTo(offset, 4);
    return Success(Column(name, logicalType.value, nullable, primaryKey, stringCapacity)), offset;
  }

  lemma {:induction false} ColumnsInBounds(b: Bytes, off: nat, j: nat, n: nat)
    requires j < n && !ParseColumns(b, off, n).OutOfBounds?
    ensures !ParseColumns(b, off, j).OutOfBounds?
    ensures ParseColumns(b, off, j).Parsed? ==> !ParseColumn(b, ParseColumns(b, off, j).next).OutOfBounds?
    ensures ParseColumns(b, off, j).Corrupt? ==> ParseColumns(b, off, n).Corrupt?
    ensures ParseColumns(b, off, j).Parsed? && ParseColumn(b, ParseColumns(b, off, j).next).Corrupt? ==>
              ParseColumns(b, off, n).Corrupt?
    decreases n
  {
    hide ParseColumn;
    if j + 1 == n {
    } else {
      ColumnsInBounds(b, off, j, n - 1);
    }
  }

  method ReadColumns(b: Bytes, start: nat, columnCount: nat) returns (r: Result<seq<Column>>, offset: nat)
    requires !ParseColumns(b, start, columnCount).OutOfBounds?
    ensures match ParseColumns(b, start, columnCount)
            case Parsed(cs, next) => r == Success(cs) && offset == next
            case _ => r == Failure(Corruption)
  {
    hide ParseColumn;
    offset := start;
    var columns: seq<Column> := [];
    for j := 0 to columnCount
      invariant ParseColumns(b, start, j) == Parsed(columns, offset)
    {
      ColumnsInBounds(b, start, j, columnCount);
      var column;
      column, offset := ReadColumn(b, offset);
      if column.Failure? {
        return Failure(column.status), offset;
      }
      columns := columns + [column.value];
    }
    return Success(columns), offset;
  }

  method ReadTable(b: Bytes, start: nat) returns (r: Result<TableMeta>, offset: nat)
    requires !ParseTable(b, start).OutOfBounds?
    ensures match ParseTable(b, start)
            case Parsed(t, next) => r == Success(t) && offset == next
            case _ => r == Failure(Corruption)
    ensures start + 12 < |b|
    ensures U32(b, start + 4) in {0, 0xFFFF_FFFF} || U32(b, start + 8) in {0, 0xFFFF_FFFF} ==> r == Failure(Corruption)
    ensures r.Success? ==> TableEntry(b, start, r.value) && offset % 8 == 0
  {
    hide ParseColumns, Schemas.Valid;
    offset := start;
    var tableId := ReadUint32(b, offset);
    offset := offset + 4;
    var firstPageId := ReadUint32(b, offset);
    offset := offset + 4;
    var lastPageId := ReadUint32(b, offset);
    offset := offset + 4;
    var columnCount := b[offset];
    offset := offset + 1 + 3;
    if firstPageId == 0 || firstPageId == INVALID_PAGE_ID || lastPageId == 0 || lastPageId == INVALID_PAGE_ID {
      return Failure(Corruption), offset;
    }
    var tableNameLength := ReadUint16(b, offset);
    offset := offset + 2;
    var tableName := b[offset..offset + tableNameLength];
    offset := offset + tableNameLength;
    offset := AlignTo(offset, 4);
    var columns;
    columns, offset := ReadColumns(b, offset, columnCount);
    if columns.Failure? {
      return Failure(columns.status), offset;
    }
    var schema := Schemas.Create(columns.value);
    if schema.Failure? {
      return Failure(Corruption), offset;
    }
    AlignedUp(offset, 8);
    offset := AlignTo(offset, 8);
    return Success(TableMeta(tableId, tableName, schema.value, firstPageId, lastPageId)), offset;
  }

  lemma {:induction false} TablesInBounds(b: Bytes, off: nat, j: nat, n: nat)
    requires j < n && !ParseTables(b, off, n).OutOfBounds?
    ensures !ParseTables(b, off, j).OutOfBounds?
    ensures ParseTables(b, off, j).Parsed? ==> !ParseTable(b, ParseTables(b, off, j).next).OutOfBounds?
    ensures ParseTables(b, off, j).Corrupt? ==> ParseTables(b, off, n).Corrupt?
    ensures ParseTables(b, off, j).Parsed? && ParseTable(b, ParseTables(b, off, j).next).Corrupt? ==>
              ParseTables(b, off, n).Corrupt?
    ensures ParseTables(b, off, j).Parsed? && ParseTables(b, off, n).Parsed? ==>
              ParseTables(b, off, j).value <= ParseTables(b, off, n).value
    decreases n
  {
    hide ParseTable;
    if j + 1 == n {
    } else {
      TablesInBounds(b, off, j, n - 1);
    }
  }

  /** The index from names to positions is the inverse of the table list. */
  ghost predicate IndexOf(index: map<Bytes, nat>, ts: seq<TableMeta>) {
    && (forall i | 0 <= i < |ts| :: ts[i].name in index && index[ts[i].name] == i)
    && (forall name | name in index :: index[name] < |ts| && ts[index[name]].name == name)
  }

  /** The body of load, once the file is in memory. */
  method ParseFile(b: Bytes) returns (r: Result<Catalog>, index: map<Bytes, nat>)
    requires !ParseCatalog(b).OutOfBounds?
    ensures match ParseCatalog(b)
            case Parsed(c, _) => r == Success(c) && IndexOf(index, c.tables)
            case _ => r == Failure(Corruption)
    ensures r.Success? ==>
              && 12 <= |b| && b[0] == 0x44 && b[1] == 0x54 && b[2] == 0x42 && b[3] == 0x4C
              && r.value.nextTableId == U32(b, 4) > 0 && |r.value.tables| == U32(b, 8)
              && (forall i, j | 0 <= i < j < |r.value.tables| ::
                    r.value.tables[i].tableId != r.value.tables[j].tableId && r.value.tables[i].name != r.value.tables[j].name)
              && (forall i | 0 <= i < |r.value.tables| :: r.value.tables[i].tableId < r.value.nextTableId)
  {
    hide ParseTable, ParseTables;
    index := map[];
    for i := 0 to 4
      invariant forall k: nat | k < i :: !WrongMagic(b, k)
    {
      assert i < |b|;
      if b[i] != MAGIC[i] {
        assert WrongMagic(b, i);
        return Failure(Corruption), index;
      }
    }
    assert !WrongMagic(b, 0) && !WrongMagic(b, 1) && !WrongMagic(b, 2) && !WrongMagic(b, 3);
    var nextTableId := ReadUint32(b, 4);
    var tableCount := ReadUint32(b, 8);
    r, index := ParseEntries(b, nextTableId, tableCount);
  }

  /** The bookkeeping of load after some entries. */
  ghost predicate Loaded(ts: seq<TableMeta>, ids: set<uint32>, index: map<Bytes, nat>, maxId: uint32) {
    && IdsDistinct(ts) && NamesDistinct(ts) && IndexOf(index, ts)
    && (forall k | 0 <= k < |ts| :: ts[k].tableId in ids)
    && (forall x | x in ids :: x <= maxId && exists k :: 0 <= k < |ts| && ts[k].tableId == x)
    && (maxId == 0 || maxId in ids)
  }

  lemma LoadedNothing()
    ensures Loaded([], {}, map[], 0)
  {
  }

  lemma LoadedOneMore(ts: seq<TableMeta>, ids: set<uint32>, index: map<Bytes, nat>, maxId: uint32, t: TableMeta)
    requires Loaded(ts, ids, index, maxId) && t.tableId !in ids && t.name !in index
    ensures Loaded(ts + [t], ids + {t.tableId}, index[t.name := |ts|], if t.tableId > maxId then t.tableId else maxId)
  {
    OneMoreName(ts, index, t);
    hide NamesDistinct, IndexOf;
    var ts' := ts + [t];
    assert forall k | 0 <= k < |ts| :: ts'[k] == ts[k];
    forall x | x in ids
      ensures exists k :: 0 <= k < |ts'| && ts'[k].tableId == x
    {
      var k :| 0 <= k < |ts| && ts[k].tableId == x;
      assert ts'[k].tableId == x;
    }
    assert ts'[|ts|].tableId == t.tableId;
  }

  lemma OneMoreName(ts: seq<TableMeta>, index: map<Bytes, nat>, t: TableMeta)
    requires NamesDistinct(ts) && IndexOf(index, ts) && t.name !in index
    ensures NamesDistinct(ts + [t]) && IndexOf(index[t.name := |ts|], ts + [t])
  {
  }

  /** A repeated id or name makes every longer list of entries a bad one. */
  lemma Repeated(ts: seq<TableMeta>, ids: set<uint32>, index: map<Bytes, nat>, maxId: uint32, t: TableMeta, all: seq<TableMeta>)
    requires Loaded(ts, ids, index, maxId) && ts + [t] <= all
    ensures t.tableId in ids ==> !IdsDistinct(all)
    ensures t.name in index ==> !NamesDistinct(all)
  {
    assert all[|ts|] == (ts + [t])[|ts|];
    if t.tableId in ids {
      var k :| 0 <= k < |ts| && ts[k].tableId == t.tableId;
      assert all[k] == (ts + [t])[k];
    }
    if t.name in index {
      var k := index[t.name];
      assert all[k] == (ts + [t])[k];
    }
  }

  lemma LoadedBelow(ts: seq<TableMeta>, ids: set<uint32>, index: map<Bytes, nat>, maxId: uint32, next: uint32)
    requires Loaded(ts, ids, index, maxId)
    ensures IdsDistinct(ts) && NamesDistinct(ts) && IndexOf(index, ts)
    ensures next > maxId <==> next > 0 && IdsBelow(ts, next)
  {
  }

  lemma TablesStep(b: Bytes, off: nat, j: nat, n: nat)
    requires j < n && !ParseTables(b, off, n).OutOfBounds? && ParseTables(b, off, j).Parsed?
    ensures var (ts, end) := (ParseTables(b, off, j).value, ParseTables(b, off, j).next);
            match ParseTable(b, end)
            case OutOfBounds => false
            case Corrupt => ParseTables(b, off, n).Corrupt?
            case Parsed(t, next) =>
              && ParseTables(b, off, j + 1) == Parsed(ts + [t], next)
              && (ParseTables(b, off, n).Parsed? ==> ts + [t] <= ParseTables(b, off, n).value)
  {
    hide ParseTable;
    TablesInBounds(b, off, j, n);
    if j + 1 < n {
      TablesInBounds(b, off, j + 1, n);
    }
  }

  method ParseEntries(b: Bytes, nextTableId: uint32, tableCount: uint32) returns (r: Result<Catalog>, index: map<Bytes, nat>)
    requires !ParseTables(b, CatalogFormat.HEADER_SIZE, tableCount).OutOfBounds?
    ensures match ParseTables(b, CatalogFormat.HEADER_SIZE, tableCount)
            case Parsed(ts, end) =>
              if IdsDistinct(ts) && NamesDistinct(ts) && nextTableId > 0 && IdsBelow(ts, nextTableId)
              then r == Success(Catalog(nextTableId, ts)) && IndexOf(index, ts)
              else r == Failure(Corruption)
            case _ => r == Failure(Corruption)
  {
    hide ParseTable, ParseTables, Loaded, IdsDistinct, NamesDistinct, IdsBelow, IndexOf;
    var offset := 16;
    var tables: seq<TableMeta> := [];
    index := map[];
    var tableIds: set<uint32> := {};
    var maxTableId: uint32 := 0;
    LoadedNothing();
    ParseNoTables(b, 16);
    for i := 0 to tableCount
      invariant ParseTables(b, 16, i) == Parsed(tables, offset)
      invariant Loaded(tables, tableIds, index, maxTableId)
    {
      TablesStep(b, 16, i, tableCount);
      var table;
      table, offset := ReadTable(b, offset);
      if table.Failure? {
        return Failure(table.status), index;
      }
      var meta := table.value;
      if ParseTables(b, 16, tableCount).Parsed? {
        Repeated(tables, tableIds, index, maxTableId, meta, ParseTables(b, 16, tableCount).value);
      }
      if meta.tableId in tableIds {
        return Failure(Corruption), index;
      }
      if meta.name in index {
        return Failure(Corruption), index;
      }
      LoadedOneMore(tables, tableIds, index, maxTableId, meta);
      tableIds := tableIds + {meta.tableId};
      if meta.tableId > maxTableId {
        maxTableId := meta.tableId;
      }
      index := index[meta.name := |tables|];
      tables := tables + [meta];
    }
    LoadedBelow(tables, tableIds, index, maxTableId, nextTableId);
    if nextTableId <= maxTableId {
      return Failure(Corruption), index;
    }
    return Success(Catalog(nextTableId, tables)), index;
  }

  lemma ParseNoTables(b: Bytes, off: nat)
    ensures ParseTables(b, off, 0) == Parsed([], off)
  {
  }
}
