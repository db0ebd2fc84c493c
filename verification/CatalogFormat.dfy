/**
 The bytes of tables.meta: what save builds, what load reads, and that the one
 undoes the other.
 */
module CatalogFormat {
  import opened Bytes
  import opened Core
  import opened Finite
  import opened Schemas
  import opened Layout

  datatype TableMeta = TableMeta(
    tableId: uint32, name: Bytes, schema: Schema, firstPageId: PageId, lastPageId: PageId)

  datatype Catalog = Catalog(nextTableId: uint32, tables: seq<TableMeta>)

  const MAGIC: Bytes := ['D' as int, 'T' as int, 'B' as int, 'L' as int]
  const HEADER_SIZE: nat := 16

  predicate GoodPageId(p: PageId) {
    p != 0 && p != INVALID_PAGE_ID
  }

  ghost predicate MetaOk(t: TableMeta) {
    && Schemas.Valid(t.schema) && |t.name| <= MAX_NAME
    && GoodPageId(t.firstPageId) && GoodPageId(t.lastPageId)
  }

  ghost predicate IdsDistinct(ts: seq<TableMeta>) {
    forall i, j | 0 <= i < j < |ts| :: ts[i].tableId != ts[j].tableId
  }

  ghost predicate NamesDistinct(ts: seq<TableMeta>) {
    forall i, j | 0 <= i < j < |ts| :: ts[i].name != ts[j].name
  }

  ghost predicate IdsBelow(ts: seq<TableMeta>, next: nat) {
    forall i | 0 <= i < |ts| :: ts[i].tableId < next
  }

  /** What every run of createTable keeps. */
  ghost predicate CatalogOk(c: Catalog) {
    && (forall i | 0 <= i < |c.tables| :: MetaOk(c.tables[i]))
    && IdsDistinct(c.tables) && NamesDistinct(c.tables)
    && 0 < c.nextTableId && IdsBelow(c.tables, c.nextTableId)
  }

  /** Ids are handed out in order and none is lost: what every run from the empty catalog keeps. */
  ghost predicate InOrder(c: Catalog) {
    c.nextTableId == |c.tables| + 1 && forall i | 0 <= i < |c.tables| :: c.tables[i].tableId == i + 1
  }

  /** The catalog before and after createTable gave the table the page q. */
  ghost predicate Created(c: Catalog, c': Catalog, name: Bytes, schema: Schema, q: PageId) {
    && c'.tables == c.tables + [TableMeta(c.nextTableId, name, schema, q, q)]
    && c'.nextTableId == (c.nextTableId + 1) % 0x1_0000_0000
  }

  lemma InOrderIds(c: Catalog)
    requires InOrder(c)
    ensures IdsDistinct(c.tables) && 0 < c.nextTableId && IdsBelow(c.tables, c.nextTableId)
  {
  }

  /** The next id comes after the last one; it does not wrap while tables have first pages of their own. */
  lemma CreatedInOrder(c: Catalog, c': Catalog, name: Bytes, schema: Schema, q: PageId)
    requires InOrder(c) && Created(c, c', name, schema, q) && |c'.tables| <= INVALID_PAGE_ID - 1
    ensures InOrder(c') && c.nextTableId < 0xFFFF_FFFF
  {
  }

  // ---------- writing ----------

  function TypeCode(t: LogicalType): byte {
    match t
    case BooleanType => 1
    case ByteType => 2
    case Int32Type => 3
    case Int64Type => 4
    case DoubleType => 5
    case StringType => 6
  }

  function TypeFromCode(b: byte): Option<LogicalType> {
    if b == 1 then Some(BooleanType)
    else if b == 2 then Some(ByteType)
    else if b == 3 then Some(Int32Type)
    else if b == 4 then Some(Int64Type)
    else if b == 5 then Some(DoubleType)
    else if b == 6 then Some(StringType)
    else None
  }

  /** Bit 0 is nullable, bit 1 is primary key. */
  function Flags(c: Column): byte {
    (if c.nullable then 1 else 0) + (if c.primaryKey then 2 else 0)
  }

  function Padded(b: Bytes, alignment: nat): (r: Bytes)
    requires alignment > 0
    ensures |r| == AlignTo(|b|, alignment)
  {
    b + Zeros(AlignTo(|b|, alignment) - |b|)
  }

  function Text(s: Bytes): (b: Bytes)
    ensures |b| == 2 + |s|
  {
    ToLE(|s|, 2) + s
  }

  function ColumnBytes(c: Column): (b: Bytes)
    ensures |b| == 6 + |c.name|
  {
    [TypeCode(c.logicalType), Flags(c)] + ToLE(c.stringCapacity, 2) + Text(c.name)
  }

  /** The first n columns appended to acc. */
  function PutColumns(acc: Bytes, cs: seq<Column>, n: nat): (r: Bytes)
    requires n <= |cs|
  {
    if n == 0 then acc else Padded(PutColumns(acc, cs, n - 1) + ColumnBytes(cs[n - 1]), 4)
  }

  function TableHead(t: TableMeta): (b: Bytes)
    requires |t.schema| <= MAX_COLUMNS
    ensures |b| == 18 + |t.name|
  {
    ToLE(t.tableId, 4) + ToLE(t.firstPageId, 4) + ToLE(t.lastPageId, 4) + [|t.schema|] + Zeros(3) + Text(t.name)
  }

  function PutTable(acc: Bytes, t: TableMeta): (r: Bytes)
    requires |t.schema| <= MAX_COLUMNS
  {
    Padded(PutColumns(Padded(acc + TableHead(t), 4), t.schema, |t.schema|), 8)
  }

  predicate SchemasFit(ts: seq<TableMeta>) {
    forall i | 0 <= i < |ts| :: |ts[i].schema| <= MAX_COLUMNS
  }

  function PutTables(acc: Bytes, ts: seq<TableMeta>, n: nat): (r: Bytes)
    requires n <= |ts| && SchemasFit(ts)
  {
    if n == 0 then acc else PutTable(PutTables(acc, ts, n - 1), ts[n - 1])
  }

  function FileHead(c: Catalog): (b: Bytes)
    requires |c.tables| < 0x1_0000_0000
    ensures |b| == HEADER_SIZE
  {
    MAGIC + ToLE(c.nextTableId, 4) + ToLE(|c.tables|, 4) + Zeros(4)
  }

  ghost predicate Writable(c: Catalog) {
    |c.tables| < 0x1_0000_0000 && SchemasFit(c.tables)
  }

  function Serialized(c: Catalog): Bytes
    requires |c.tables| < 0x1_0000_0000 && SchemasFit(c.tables)
  {
    PutTables(FileHead(c), c.tables, |c.tables|)
  }

  // ---------- the entries byte for byte, as serializationMap.txt lists them ----------

  ghost predicate ColumnEntry(b: Bytes, off: nat, c: Column) {
    && off + 6 + |c.name| <= |b|
    && b[off] == (match c.logicalType
                  case BooleanType => 0x01
                  case ByteType => 0x02
                  case Int32Type => 0x03
                  case Int64Type => 0x04
                  case DoubleType => 0x05
                  case StringType => 0x06)
    && b[off + 1] < 4 && (b[off + 1] % 2 == 1 <==> c.nullable) && (b[off + 1] / 2 == 1 <==> c.primaryKey)
    && U16(b, off + 2) == c.stringCapacity
    && U16(b, off + 4) == |c.name| && b[off + 6..off + 6 + |c.name|] == c.name
  }

  ghost predicate TableEntry(b: Bytes, off: nat, t: TableMeta) {
    && off + 18 + |t.name| <= |b|
    && U32(b, off) == t.tableId && U32(b, off + 4) == t.firstPageId && U32(b, off + 8) == t.lastPageId
    && b[off + 12] == |t.schema|
    && U16(b, off + 16) == |t.name| && b[off + 18..off + 18 + |t.name|] == t.name
  }

  ghost predicate FileHeader(b: Bytes, next: nat, count: nat) {
    && 16 <= |b|
    && b[0] == 0x44 && b[1] == 0x54 && b[2] == 0x42 && b[3] == 0x4C
    && U32(b, 4) == next && U32(b, 8) == count
  }

  ghost predicate ZerosIn(b: Bytes, from: nat, to: nat) {
    from <= to <= |b| && forall k | from <= k < to :: b[k] == 0
  }

  lemma ColumnIsEntry(b: Bytes, off: nat, c: Column)
    requires |c.name| <= MAX_NAME && Sits(b, off, ColumnBytes(c))
    ensures ColumnEntry(b, off, c)
  {
    ColumnBack(b, off, c);
    assert b[off] == b[off..off + |ColumnBytes(c)|][0] == TypeCode(c.logicalType);
    assert b[off + 1] == b[off..off + |ColumnBytes(c)|][1] == Flags(c);
  }

  lemma HeadIsEntry(b: Bytes, off: nat, t: TableMeta)
    requires |t.schema| <= MAX_COLUMNS && |t.name| <= MAX_NAME && Sits(b, off, TableHead(t))
    ensures TableEntry(b, off, t) && ZerosIn(b, off + 13, off + 16)
  {
    HeadBack(b, off, t);
    HeadPadding(b, off, t);
    hide TableHead;
  }

  lemma HeadPadding(b: Bytes, off: nat, t: TableMeta)
    requires |t.schema| <= MAX_COLUMNS && Sits(b, off, TableHead(t))
    ensures ZerosIn(b, off + 13, off + 16)
  {
    hide Sits, ToLE, Text, ZerosIn, Zeros;
    var p4 := ToLE(t.tableId, 4) + ToLE(t.firstPageId, 4) + ToLE(t.lastPageId, 4) + [|t.schema|];
    SitsParts(b, off, p4 + Zeros(3), Text(t.name));
    SitsParts(b, off, p4, Zeros(3));
    ZerosSit(b, off + 13, 3);
  }

  lemma ZerosSit(b: Bytes, off: nat, n: nat)
    requires Sits(b, off, Zeros(n))
    ensures ZerosIn(b, off, off + n)
  {
    forall k | off <= k < off + n
      ensures b[k] == 0
    {
      assert b[k] == b[off..off + n][k - off];
    }
  }

  // ---------- reading ----------

  /** OutOfBounds stands for a read past the end of the file, which the code does not guard. */
  datatype Parsed<T> = Parsed(value: T, next: nat) | Corrupt | OutOfBounds

  function ParseText(b: Bytes, off: nat): Parsed<Bytes> {
    if off + 2 > |b| then OutOfBounds
    else
      var n := U16(b, off);
      if off + 2 + n > |b| then OutOfBounds else Parsed(b[off + 2..off + 2 + n], off + 2 + n)
  }

  function ParseColumn(b: Bytes, off: nat): Parsed<Column> {
    if off >= |b| then OutOfBounds
    else if TypeFromCode(b[off]).None? then Corrupt
    else if off + 1 >= |b| then OutOfBounds
    else if b[off + 1] >= 4 then Corrupt
    else if off + 4 > |b| then OutOfBounds
    else
      var flags: int := b[off + 1];
      match ParseText(b, off + 4)
      case Parsed(name, end) =>
        Parsed(Column(name, TypeFromCode(b[off]).value, flags % 2 == 1, flags / 2 == 1, U16(b, off + 2)), AlignTo(end, 4))
      case Corrupt => Corrupt
      case OutOfBounds => OutOfBounds
  }

  function ParseColumns(b: Bytes, off: nat, n: nat): (r: Parsed<seq<Column>>)
    ensures r.Parsed? ==> |r.value| == n
  {
    if n == 0 then Parsed([], off)
    else
      match ParseColumns(b, off, n - 1)
      case Parsed(cs, end) =>
        (match ParseColumn(b, end)
         case Parsed(c, next) => Parsed(cs + [c], next)
         case Corrupt => Corrupt
         case OutOfBounds => OutOfBounds)
      case Corrupt => Corrupt
      case OutOfBounds => OutOfBounds
  }

  ghost function ParseTable(b: Bytes, off: nat): Parsed<TableMeta> {
    if off + 13 > |b| then OutOfBounds
    else
      var (first, last) := (U32(b, off + 4), U32(b, off + 8));
      if !GoodPageId(first) || !GoodPageId(last) then Corrupt
      else
        match ParseText(b, off + 16)
        case Corrupt => Corrupt
        case OutOfBounds => OutOfBounds
        case Parsed(name, end) =>
          match ParseColumns(b, AlignTo(end, 4), b[off + 12])
          case Corrupt => Corrupt
          case OutOfBounds => OutOfBounds
          case Parsed(cs, next) =>
            if Schemas.Valid(cs) then Parsed(TableMeta(U32(b, off), name, cs, first, last), AlignTo(next, 8)) else Corrupt
  }

  ghost function ParseTables(b: Bytes, off: nat, n: nat): (r: Parsed<seq<TableMeta>>)
    ensures r.Parsed? ==> |r.value| == n
  {
    if n == 0 then Parsed([], off)
    else
      match ParseTables(b, off, n - 1)
      case Parsed(ts, end) =>
        (match ParseTable(b, end)
         case Parsed(t, next) => Parsed(ts + [t], next)
         case Corrupt => Corrupt
         case OutOfBounds => OutOfBounds)
      case Corrupt => Corrupt
      case OutOfBounds => OutOfBounds
  }

  predicate WrongMagic(b: Bytes, i: nat)
    requires i < 4
  {
    i < |b| && b[i] != MAGIC[i]
  }

  /** The catalog in a file, if load accepts it. */
  ghost function ParseCatalog(b: Bytes): Parsed<Catalog> {
    if exists i :: 0 <= i < 4 && WrongMagic(b, i) then Corrupt
    else if |b| < 12 then OutOfBounds
    else
      match ParseTables(b, HEADER_SIZE, U32(b, 8))
      case Corrupt => Corrupt
      case OutOfBounds => OutOfBounds
      case Parsed(ts, end) =>
        if IdsDistinct(ts) && NamesDistinct(ts) && U32(b, 4) > 0 && IdsBelow(ts, U32(b, 4))
        then Parsed(Catalog(U32(b, 4), ts), end) else Corrupt
  }

  // ---------- reading back what was written ----------

  /** b begins with a. */
  ghost predicate Begins(b: Bytes, a: Bytes) {
    a <= b
  }

  /** piece sits at offset |acc| of b. */
  ghost predicate Sits(b: Bytes, off: nat, piece: Bytes) {
    off + |piece| <= |b| && b[off..off + |piece|] == piece
  }

  lemma PrefixSits(b: Bytes, acc: Bytes, piece: Bytes)
    requires Begins(b, acc + piece)
    ensures Sits(b, |acc|, piece)
  {
  }

  lemma SitsParts(b: Bytes, off: nat, x: Bytes, y: Bytes)
    requires Sits(b, off, x + y)
    ensures Sits(b, off, x) && Sits(b, off + |x|, y)
  {
    assert b[off..off + |x|] == b[off..off + |x + y|][..|x|];
    assert b[off + |x|..off + |x| + |y|] == b[off..off + |x + y|][|x|..];
  }

  lemma ReadBack16(b: Bytes, off: nat, v: uint16)
    requires Sits(b, off, ToLE(v, 2))
    ensures U16(b, off) == v
  {
  }

  lemma ReadBack32(b: Bytes, off: nat, v: uint32)
    requires Sits(b, off, ToLE(v, 4))
    ensures U32(b, off) == v
  {
  }

  lemma TextBack(b: Bytes, off: nat, s: Bytes)
    requires |s| <= MAX_NAME && Sits(b, off, Text(s))
    ensures ParseText(b, off) == Parsed(s, off + 2 + |s|)
  {
    SitsParts(b, off, ToLE(|s|, 2), s);
    ReadBack16(b, off, |s|);
  }

  lemma ColumnBack(b: Bytes, off: nat, c: Column)
    requires |c.name| <= MAX_NAME && Sits(b, off, ColumnBytes(c))
    ensures ParseColumn(b, off) == Parsed(c, AlignTo(off + 6 + |c.name|, 4))
  {
    var head := [TypeCode(c.logicalType), Flags(c)];
    SitsParts(b, off, head + ToLE(c.stringCapacity, 2), Text(c.name));
    SitsParts(b, off, head, ToLE(c.stringCapacity, 2));
    ReadBack16(b, off + 2, c.stringCapacity);
    TextBack(b, off + 4, c.name);
    assert b[off] == b[off..off + 2][0] && b[off + 1] == b[off..off + 2][1];
  }

  lemma PrefixTrans(a: Bytes, b: Bytes, c: Bytes)
    requires Begins(b, a) && Begins(c, b)
    ensures Begins(c, a)
  {
  }

  lemma AppendGrows(a: Bytes, x: Bytes)
    ensures Begins(a + x, a)
  {
  }

  lemma PaddedBegins(b: Bytes, alignment: nat)
    requires alignment > 0
    ensures Begins(Padded(b, alignment), b)
  {
  }

  lemma PutColumnsStep(acc: Bytes, cs: seq<Column>, n: nat)
    requires 0 < n <= |cs|
    ensures var before := PutColumns(acc, cs, n - 1);
            && Begins(PutColumns(acc, cs, n), before)
            && Begins(PutColumns(acc, cs, n), before + ColumnBytes(cs[n - 1]))
            && |PutColumns(acc, cs, n)| == AlignTo(|before| + 6 + |cs[n - 1].name|, 4)
  {
  }

  lemma {:induction false} PutColumnsGrows(acc: Bytes, cs: seq<Column>, n: nat)
    requires n <= |cs|
    ensures Begins(PutColumns(acc, cs, n), acc)
  {
    if n == 0 {
    } else {
      PutColumnsGrows(acc, cs, n - 1);
      PutColumnsStep(acc, cs, n);
      PrefixTrans(acc, PutColumns(acc, cs, n - 1), PutColumns(acc, cs, n));
    }
  }

  lemma {:induction false} ColumnsBack(b: Bytes, acc: Bytes, cs: seq<Column>, n: nat)
    requires n <= |cs| && forall i | 0 <= i < n :: |cs[i].name| <= MAX_NAME
    requires Begins(b, PutColumns(acc, cs, n))
    ensures ParseColumns(b, |acc|, n) == Parsed(cs[..n], |PutColumns(acc, cs, n)|)
  {
    hide ColumnBytes, ParseColumn, AlignTo, Begins, Sits, Padded;
    if n == 0 {
    } else {
      var before := PutColumns(acc, cs, n - 1);
      PutColumnsStep(acc, cs, n);
      PrefixTrans(before, PutColumns(acc, cs, n), b);
      PrefixTrans(before + ColumnBytes(cs[n - 1]), PutColumns(acc, cs, n), b);
      ColumnsBack(b, acc, cs, n - 1);
      PrefixSits(b, before, ColumnBytes(cs[n - 1]));
      ColumnBack(b, |before|, cs[n - 1]);
      assert cs[..n] == cs[..n - 1] + [cs[n - 1]];
    }
  }

  lemma HeadBack(b: Bytes, off: nat, t: TableMeta)
    requires |t.schema| <= MAX_COLUMNS && |t.name| <= MAX_NAME && Sits(b, off, TableHead(t))
    ensures off + 18 <= |b|
    ensures U32(b, off) == t.tableId && U32(b, off + 4) == t.firstPageId && U32(b, off + 8) == t.lastPageId
    ensures b[off + 12] == |t.schema|
    ensures ParseText(b, off + 16) == Parsed(t.name, off + 18 + |t.name|)
  {
    var p1, p2 := ToLE(t.tableId, 4), ToLE(t.tableId, 4) + ToLE(t.firstPageId, 4);
    var p3 := p2 + ToLE(t.lastPageId, 4);
    var p4 := p3 + [|t.schema|];
    SitsParts(b, off, p4 + Zeros(3), Text(t.name));
    SitsParts(b, off, p4, Zeros(3));
    SitsParts(b, off, p3, [|t.schema|]);
    SitsParts(b, off, p2, ToLE(t.lastPageId, 4));
    SitsParts(b, off, p1, ToLE(t.firstPageId, 4));
    ReadBack32(b, off, t.tableId);
    ReadBack32(b, off + 4, t.firstPageId);
    ReadBack32(b, off + 8, t.lastPageId);
    assert b[off + 12] == b[off + 12..off + 13][0];
    TextBack(b, off + 16, t.name);
  }

  /** The parts of a table entry, each a prefix of the next. */
  lemma PutTableParts(acc: Bytes, t: TableMeta)
    requires |t.schema| <= MAX_COLUMNS
    ensures var head := Padded(acc + TableHead(t), 4);
            var cols := PutColumns(head, t.schema, |t.schema|);
            && Begins(PutTable(acc, t), acc) && Begins(PutTable(acc, t), acc + TableHead(t)) && Begins(PutTable(acc, t), cols)
            && |head| == AlignTo(|acc| + 18 + |t.name|, 4) && |PutTable(acc, t)| == AlignTo(|cols|, 8)
  {
    var head := Padded(acc + TableHead(t), 4);
    var cols := PutColumns(head, t.schema, |t.schema|);
    PutColumnsGrows(head, t.schema, |t.schema|);
    hide PutColumns, TableHead, Begins;
    PaddedBegins(cols, 8);
    PaddedBegins(acc + TableHead(t), 4);
    PrefixTrans(head, cols, PutTable(acc, t));
    PrefixTrans(acc + TableHead(t), head, PutTable(acc, t));
    AppendGrows(acc, TableHead(t));
    PrefixTrans(acc, acc + TableHead(t), PutTable(acc, t));
  }

  lemma SchemaBounds(s: Schema)
    requires Schemas.Valid(s)
    ensures |s| <= MAX_COLUMNS && forall i | 0 <= i < |s| :: |s[i].name| <= MAX_NAME
  {
  }

  lemma TableBack(b: Bytes, acc: Bytes, t: TableMeta)
    requires MetaOk(t) && Begins(b, PutTable(acc, t))
    ensures ParseTable(b, |acc|) == Parsed(t, |PutTable(acc, t)|)
  {
    hide PutTable, PutColumns, TableHead, Padded, ParseColumns, ParseText, AlignTo, Begins, Sits, Schemas.Valid;
    SchemaBounds(t.schema);
    var head := Padded(acc + TableHead(t), 4);
    var cols := PutColumns(head, t.schema, |t.schema|);
    PutTableParts(acc, t);
    PrefixTrans(acc + TableHead(t), PutTable(acc, t), b);
    PrefixTrans(cols, PutTable(acc, t), b);
    PrefixSits(b, acc, TableHead(t));
    HeadBack(b, |acc|, t);
    ColumnsBack(b, head, t.schema, |t.schema|);
    assert t.schema[..|t.schema|] == t.schema;
  }

  lemma {:induction false} TablesBack(b: Bytes, acc: Bytes, ts: seq<TableMeta>, n: nat)
    requires n <= |ts| && SchemasFit(ts) && forall i | 0 <= i < |ts| :: MetaOk(ts[i])
    requires Begins(b, PutTables(acc, ts, n))
    ensures ParseTables(b, |acc|, n) == Parsed(ts[..n], |PutTables(acc, ts, n)|)
  {
    hide PutTable, ParseTable, MetaOk, Begins, PutColumns, Padded, AlignTo, TableHead;
    if n == 0 {
    } else {
      var before := PutTables(acc, ts, n - 1);
      PutTableParts(before, ts[n - 1]);
      TableBack(b, before, ts[n - 1]);
      PrefixTrans(before, PutTables(acc, ts, n), b);
      TablesBack(b, acc, ts, n - 1);
      assert ts[..n] == ts[..n - 1] + [ts[n - 1]];
    }
  }

  lemma {:induction false} PutTablesGrows(acc: Bytes, ts: seq<TableMeta>, n: nat)
    requires n <= |ts| && SchemasFit(ts)
    ensures Begins(PutTables(acc, ts, n), acc)
  {
    hide PutTable, PutColumns, Padded, AlignTo, TableHead;
    if n == 0 {
    } else {
      PutTablesGrows(acc, ts, n - 1);
      PutTableParts(PutTables(acc, ts, n - 1), ts[n - 1]);
      PrefixTrans(acc, PutTables(acc, ts, n - 1), PutTables(acc, ts, n));
    }
  }

  ghost predicate MetasOk(c: Catalog) {
    Writable(c) && forall i | 0 <= i < |c.tables| :: MetaOk(c.tables[i])
  }

  /** Loading a saved file gives the catalog back, up to the checks load makes at the end. */
  lemma SavedFileParses(c: Catalog)
    requires MetasOk(c)
    ensures ParseCatalog(Serialized(c)) ==
            if IdsDistinct(c.tables) && NamesDistinct(c.tables) && 0 < c.nextTableId && IdsBelow(c.tables, c.nextTableId)
            then Parsed(c, |Serialized(c)|) else Corrupt
  {
    hide PutTables, MetaOk, ParseTables, IdsDistinct, NamesDistinct, IdsBelow;
    var b, head := Serialized(c), FileHead(c);
    TablesBack(b, head, c.tables, |c.tables|);
    PutTablesGrows(head, c.tables, |c.tables|);
    assert c.tables[..|c.tables|] == c.tables;
    var p1 := MAGIC + ToLE(c.nextTableId, 4);
    assert head + [] == head;
    PrefixSits(b, [], head);
    assert [] + head == head;
    SitsParts(b, 0, p1 + ToLE(|c.tables|, 4), Zeros(4));
    SitsParts(b, 0, p1, ToLE(|c.tables|, 4));
    SitsParts(b, 0, MAGIC, ToLE(c.nextTableId, 4));
    ReadBack32(b, 4, c.nextTableId);
    ReadBack32(b, 8, |c.tables|);
    assert forall i: nat | i < 4 :: b[i] == b[0..4][i];
  }

  /** Distinct ids below the next id: the table count fits its field. */
  lemma TableCountFits(c: Catalog)
    requires CatalogOk(c)
    ensures |c.tables| <= c.nextTableId < 0x1_0000_0000
    ensures MetasOk(c) && Writable(c)
  {
    PigeonHole(seq(|c.tables|, i requires 0 <= i < |c.tables| => c.tables[i].tableId), 0, c.nextTableId);
  }

  /** Loading what was saved gives back the same next id, tables and columns. */
  lemma CatalogRoundTrip(c: Catalog)
    requires CatalogOk(c)
    ensures Writable(c) && ParseCatalog(Serialized(c)) == Parsed(c, |Serialized(c)|)
  {
    TableCountFits(c);
    SavedFileParses(c);
  }

  /**
     Load also accepts files whose next id is the last one.  Creating a table then
     wraps the next id to 0, and load rejects what save wrote.
   */
  lemma LastIdOfHandEditedFile(name: Bytes, schema: Schema, q: PageId)
    requires |name| <= MAX_NAME && Schemas.Valid(schema) && GoodPageId(q)
    ensures var (c, c') := (Catalog(0xFFFF_FFFF, []), Catalog(0, [TableMeta(0xFFFF_FFFF, name, schema, q, q)]));
            && Writable(c) && ParseCatalog(Serialized(c)) == Parsed(c, |Serialized(c)|)
            && Created(c, c', name, schema, q)
            && Writable(c') && ParseCatalog(Serialized(c')) == Corrupt
  {
    hide ParseCatalog, Serialized, Schemas.Valid, MetaOk;
    var t := TableMeta(0xFFFF_FFFF, name, schema, q, q);
    CatalogRoundTrip(Catalog(0xFFFF_FFFF, []));
    SchemaBounds(schema);
    NewMetaOk(t);
    SavedFileParses(Catalog(0, [t]));
  }

  // ---------- runs of a catalog ----------

  datatype CatalogEvent =
    | TableCreated(name: Bytes, schema: Schema, page: PageId)
    | SaveFailed
    | ChainGrew(table: nat, page: PageId)
    | Reopened

  /** What the table manager does to the catalog; a new table's page is not the first page of another. */
  ghost predicate CatalogNext(c: Catalog, e: CatalogEvent, c': Catalog) {
    match e
    case TableCreated(name, schema, page) =>
      && Schemas.Valid(schema) && |name| <= MAX_NAME && GoodPageId(page)
      && (forall i | 0 <= i < |c.tables| :: c.tables[i].name != name && c.tables[i].firstPageId != page)
      && Created(c, c', name, schema, page)
    case SaveFailed => c' == c
    case ChainGrew(k, page) =>
      && k < |c.tables| && GoodPageId(page)
      && c' == c.(tables := c.tables[k := c.tables[k].(lastPageId := page)])
    case Reopened =>
      && Writable(c)
      && ParseCatalog(Serialized(c)).Parsed? && c' == ParseCatalog(Serialized(c)).value
  }

  ghost predicate CatalogRun(cs: seq<Catalog>, es: seq<CatalogEvent>) {
    && |cs| == |es| + 1 && cs[0] == Catalog(1, [])
    && (forall k | 0 <= k < |es| :: CatalogNext(cs[k], es[k], cs[k + 1]))
  }

  ghost predicate FirstPagesApart(ts: seq<TableMeta>) {
    forall i, j | 0 <= i < j < |ts| :: ts[i].firstPageId != ts[j].firstPageId
  }

  ghost predicate RunOk(c: Catalog) {
    CatalogOk(c) && InOrder(c) && FirstPagesApart(c.tables)
  }

  lemma TablesHavePages(ts: seq<TableMeta>)
    requires FirstPagesApart(ts) && forall i | 0 <= i < |ts| :: GoodPageId(ts[i].firstPageId)
    ensures |ts| <= INVALID_PAGE_ID - 1
  {
    PigeonHole(seq(|ts|, i requires 0 <= i < |ts| => ts[i].firstPageId), 1, INVALID_PAGE_ID);
  }

  lemma CreatedRunOk(c: Catalog, name: Bytes, schema: Schema, page: PageId, c': Catalog)
    requires RunOk(c) && CatalogNext(c, TableCreated(name, schema, page), c')
    ensures RunOk(c') && c.nextTableId < 0xFFFF_FFFF
  {
    hide Schemas.Valid, ParseCatalog, Serialized, MetaOk;
    var t := TableMeta(c.nextTableId, name, schema, page, page);
    NewMetaOk(t);
    assert forall i | 0 <= i < |c.tables| :: c'.tables[i] == c.tables[i];
    assert forall i | 0 <= i < |c'.tables| :: MetaOk(c'.tables[i]);
    GoodFirstPages(c'.tables);
    TablesHavePages(c'.tables);
    CreatedInOrder(c, c', name, schema, page);
    InOrderIds(c');
  }

  lemma NewMetaOk(t: TableMeta)
    requires Schemas.Valid(t.schema) && |t.name| <= MAX_NAME && GoodPageId(t.firstPageId) && GoodPageId(t.lastPageId)
    ensures MetaOk(t)
  {
  }

  lemma GoodFirstPages(ts: seq<TableMeta>)
    requires forall i | 0 <= i < |ts| :: MetaOk(ts[i])
    ensures forall i | 0 <= i < |ts| :: GoodPageId(ts[i].firstPageId)
  {
    hide Schemas.Valid;
  }

  lemma GrownRunOk(c: Catalog, k: nat, page: PageId, c': Catalog)
    requires RunOk(c) && CatalogNext(c, ChainGrew(k, page), c')
    ensures RunOk(c')
  {
    hide Schemas.Valid, ParseCatalog, Serialized;
    assert MetaOk(c.tables[k]);
    NewMetaOk(c'.tables[k]);
    hide MetaOk;
    InOrderIds(c');
  }

  lemma CatalogStep(c: Catalog, e: CatalogEvent, c': Catalog)
    requires RunOk(c) && CatalogNext(c, e, c')
    ensures RunOk(c')
  {
    hide MetaOk, ParseCatalog, Serialized, InOrder, IdsDistinct, NamesDistinct, IdsBelow, FirstPagesApart;
    match e
    case TableCreated(name, schema, page) => CreatedRunOk(c, name, schema, page, c');
    case SaveFailed =>
    case ChainGrew(k, page) => GrownRunOk(c, k, page, c');
    case Reopened => CatalogRoundTrip(c);
  }

  /**
     Over every run from the empty catalog ids stay good and the next one never
     wraps, so load accepts every file a successful save wrote and reads it back.
   */
  lemma {:induction false} RunsStayLoadable(cs: seq<Catalog>, es: seq<CatalogEvent>, n: nat)
    requires CatalogRun(cs, es) && n <= |es|
    ensures RunOk(cs[n]) && Writable(cs[n])
    ensures ParseCatalog(Serialized(cs[n])) == Parsed(cs[n], |Serialized(cs[n])|)
    ensures n < |es| && es[n].TableCreated? ==> cs[n].nextTableId < 0xFFFF_FFFF
    decreases n
  {
    hide CatalogNext, RunOk, ParseCatalog, Serialized;
    if n == 0 {
      EmptyRunOk();
    } else {
      RunsStayLoadable(cs, es, n - 1);
      assert CatalogNext(cs[n - 1], es[n - 1], cs[n]);
      CatalogStep(cs[n - 1], es[n - 1], cs[n]);
    }
    RunRoundTrip(cs[n]);
    if n < |es| && es[n].TableCreated? {
      assert CatalogNext(cs[n], es[n], cs[n + 1]);
      CreatedRunOk(cs[n], es[n].name, es[n].schema, es[n].page, cs[n + 1]);
    }
  }

  lemma EmptyRunOk()
    ensures RunOk(Catalog(1, []))
  {
  }

  lemma RunRoundTrip(c: Catalog)
    requires RunOk(c)
    ensures Writable(c) && ParseCatalog(Serialized(c)) == Parsed(c, |Serialized(c)|)
  {
    CatalogRoundTrip(c);
  }

  lemma ParsedMetaOk(b: Bytes, off: nat)
    requires ParseTable(b, off).Parsed?
    ensures MetaOk(ParseTable(b, off).value)
  {
  }

  lemma {:induction false} ParsedMetasOk(b: Bytes, off: nat, n: nat)
    requires ParseTables(b, off, n).Parsed?
    ensures forall i | 0 <= i < n :: MetaOk(ParseTables(b, off, n).value[i])
  {
    hide ParseTable, MetaOk;
    if n == 0 {
    } else {
      ParsedMetasOk(b, off, n - 1);
      ParsedMetaOk(b, ParseTables(b, off, n - 1).next);
    }
  }

  /** Whatever load accepts satisfies the catalog invariant. */
  lemma ParsedIsOk(b: Bytes)
    requires ParseCatalog(b).Parsed?
    ensures CatalogOk(ParseCatalog(b).value)
  {
    ParsedMetasOk(b, HEADER_SIZE, U32(b, 8));
  }
}
