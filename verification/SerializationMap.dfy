/**
 The formats of serializationMap.txt stated byte for byte, without the functions
 the engine builds and reads them with, and that the engine keeps to them.
 */
module SerializationMap {
  import opened Bytes
  import opened Schemas
  import opened Layout
  import opened Codec
  import opened CatalogFormat
  import opened CatalogFile
  import opened CanonicalBytes

  // ---------- values ----------

  /** f holds a value of the column. */
  ghost predicate ValueField(v: Value, c: Column, f: Bytes) {
    match v
    case Null(_) => forall k | 0 <= k < |f| :: f[k] == 0
    case Boolean(x) => f == [if x then 1 else 0]
    case Byte(x) => |f| == 1 && f[0] == if x < 0 then x + 0x100 else x
    case Int32(x) => |f| == 4 && U32(f, 0) == if x < 0 then x + 0x1_0000_0000 else x
    case Int64(x) =>
      |f| == 8 && U32(f, 0) + 0x1_0000_0000 * U32(f, 4) == if x < 0 then x + 0x1_0000_0000_0000_0000 else x
    case Double(bits) => f == bits
    case String(x) =>
      |x| <= |f| == c.stringCapacity && f[..|x|] == x && forall k | |x| <= k < |f| :: f[k] == 0
  }

  lemma FourBytes(f: Bytes)
    requires |f| == 4
    ensures FromLE(f) == U32(f, 0)
  {
    U32IsLE(f, 0);
    assert f[0..4] == f;
  }

  lemma EightBytes(f: Bytes)
    requires |f| == 8
    ensures FromLE(f) == U32(f, 0) + 0x1_0000_0000 * U32(f, 4)
  {
    U32IsLE(f, 4);
    assert f[1..][1..] == f[2..] && f[2..][1..] == f[3..] && f[3..][1..] == f[4..8];
    assert FromLE(f[3..]) == f[3] + 256 * U32(f, 4);
    assert FromLE(f[2..]) == f[2] + 256 * FromLE(f[3..]);
    assert FromLE(f[1..]) == f[1] + 256 * FromLE(f[2..]);
  }

  lemma ValueBytesAre(v: Value, c: Column)
    requires Fits(v, c)
    ensures ValueField(v, c, ValueBytes(v, c))
  {
    Widths();
    match v
    case Null(_) =>
    case Boolean(_) =>
    case Byte(_) =>
    case Int32(x) =>
      FromLEToLE(Unsigned(x, 4), 4);
      FourBytes(ValueBytes(v, c));
    case Int64(x) =>
      FromLEToLE(Unsigned(x, 8), 8);
      EightBytes(ValueBytes(v, c));
    case Double(_) =>
    case String(_) =>
  }

  /** No other bytes of that size hold the value. */
  lemma OnlyValueBytes(v: Value, c: Column, f: Bytes)
    requires Fits(v, c) && |f| == ValueSize(c) && ValueField(v, c, f)
    ensures f == ValueBytes(v, c)
  {
    Widths();
    match v
    case Null(_) =>
    case Boolean(_) =>
    case Byte(_) =>
    case Int32(x) =>
      FourBytes(f);
      ToLEFromLE(f);
    case Int64(x) =>
      EightBytes(f);
      ToLEFromLE(f);
    case Double(_) =>
    case String(x) => assert f == f[..|x|] + f[|x|..];
  }

  // ---------- rows ----------

  /** Bit k of a byte, bit 0 being the lowest. */
  predicate BitAt(b: byte, k: nat)
    requires k < 8
  {
    b / [1, 2, 4, 8, 16, 32, 64, 128][k] % 2 == 1
  }

  lemma {:induction false} BitByPower(b: nat, k: nat)
    ensures Bit(b, k) <==> b / Pow2(k) % 2 == 1
    decreases k
  {
    if k == 0 {
    } else {
      BitByPower(b / 2, k - 1);
      DivDiv(b, 2, Pow2(k - 1));
    }
  }

  lemma BitIs(b: byte, k: nat)
    requires k < 8
    ensures Bit(b, k) <==> BitAt(b, k)
  {
    BitByPower(b, k);
    assert Pow2(3) == 8;
    assert Pow2(6) == 64 by { assert Pow2(4) == 16; }
    assert Pow2(7) == 2 * Pow2(6);
  }

  /** Bit i % 8 of bitmap byte i / 8 is the null flag of column i, and clear behind the last column. */
  ghost predicate ColumnBit(row: Row, b: Bytes, i: nat) {
    1 + i / 8 < |b| && (BitAt(b[1 + i / 8], i % 8) <==> i < |row| && row[i].Null?)
  }

  ghost predicate ColumnBits(s: Schema, row: Row, b: Bytes)
    requires |row| == |s|
  {
    1 + (|s| + 7) / 8 <= |b| && forall i: nat | i < 8 * ((|s| + 7) / 8) :: ColumnBit(row, b, i)
  }

  /** Byte k is behind the null bitmap and in no field. */
  ghost predicate Between(s: Schema, starts: seq<nat>, ends: seq<nat>, k: nat)
    requires |starts| == |s| && |ends| == |s| + 1
  {
    1 + (|s| + 7) / 8 <= k && forall i: nat | i < |s| :: !(starts[i] <= k < ends[i + 1])
  }

  ghost predicate FieldAt(c: Column, v: Value, b: Bytes, start: nat, end: nat) {
    start <= end <= |b| && ValueField(v, c, b[start..end])
  }

  /** b is a row: column count, null bitmap, aligned fields, zeros between. */
  ghost predicate RowBytes(s: Schema, row: Row, starts: seq<nat>, ends: seq<nat>, b: Bytes) {
    && |row| == |s| && Placement(s, starts, ends, |b|)
    && |b| > 0 && b[0] == |s| && ColumnBits(s, row, b)
    && (forall i: nat | i < |s| :: FieldAt(s[i], row[i], b, starts[i], ends[i + 1]))
    && (forall k | 0 <= k < |b| && Between(s, starts, ends, k) :: b[k] == 0)
  }

  ghost function Starts(s: Schema): (r: seq<nat>)
    ensures |r| == |s| && forall i: nat | i < |s| :: r[i] == StartOf(s, i)
  {
    seq(|s|, i requires 0 <= i < |s| => StartOf(s, i))
  }

  ghost function Ends(s: Schema): (r: seq<nat>)
    ensures |r| == |s| + 1 && forall i: nat | i <= |s| :: r[i] == EndOf(s, i)
  {
    seq(|s| + 1, i requires 0 <= i <= |s| => EndOf(s, i))
  }

  lemma BitmapBit(row: Row, b: Bytes, i: nat)
    requires 1 + NullBitmapSize(|row|) <= |b| && b[1..1 + NullBitmapSize(|row|)] == Bitmap(row) && i < 8 * NullBitmapSize(|row|)
    ensures ColumnBit(row, b, i)
  {
    hide Bit, BitAt, Bitmap, NullByte, Pow2, NullBitmapSize;
    var k := i / 8;
    assert b[1 + k] == b[1..1 + NullBitmapSize(|row|)][k];
    BitmapHas(row, k);
    BitIs(b[1 + k], i % 8);
    assert 8 * k + i % 8 == i;
  }

  lemma EncodedBits(s: Schema, row: Row)
    requires Schemas.Valid(s) && Encodable(s, row)
    ensures |s| <= MAX_COLUMNS && ColumnBits(s, row, Encoded(s, row))
  {
    hide Encoded, EncodedSizeOf, Schemas.Valid, ColumnBit, Bitmap;
    SchemaBounds(s);
    EncodedHeader(s, row);
    forall i: nat | i < 8 * ((|s| + 7) / 8)
      ensures ColumnBit(row, Encoded(s, row), i)
    {
      BitmapBit(row, Encoded(s, row), i);
    }
  }

  lemma EncodedFieldAt(s: Schema, row: Row, i: nat)
    requires Encodable(s, row) && |s| <= MAX_COLUMNS && i < |s|
    ensures FieldAt(s[i], row[i], Encoded(s, row), StartOf(s, i), EndOf(s, i + 1))
  {
    hide Encoded, EncodedSizeOf, StartOf, EndOf, ValueField, ValueBytes, Prefix, ValueSize;
    EncodedField(s, row, i);
    PrefixField(s, row, i);
    ValueBytesAre(row[i], s[i]);
  }

  lemma EncodedBetween(s: Schema, row: Row, k: nat)
    requires Encodable(s, row) && |s| <= MAX_COLUMNS && k < |Encoded(s, row)| && Between(s, Starts(s), Ends(s), k)
    ensures Encoded(s, row)[k] == 0
  {
    hide Encoded, EncodedSizeOf, StartOf, EndOf;
    forall i: nat | i < |s|
      ensures !InField(s, i, k)
    {
      PrefixField(s, row, i);
    }
    EncodedPadding(s, row, k);
  }

  /** Encode writes the documented bytes. */
  lemma EncodedIsDocumented(s: Schema, row: Row)
    requires Schemas.Valid(s) && Encodable(s, row)
    ensures |s| <= MAX_COLUMNS && RowBytes(s, row, Starts(s), Ends(s), Encoded(s, row))
  {
    SchemaBounds(s);
    hide Encoded, EncodedSizeOf, Schemas.Valid, StartOf, EndOf, Placement, ColumnBits, FieldAt, Between;
    var e := Encoded(s, row);
    LayoutIsDocumented(s, Starts(s), Ends(s), |e|);
    EncodedHeader(s, row);
    EncodedBits(s, row);
    forall i: nat | i < |s|
      ensures FieldAt(s[i], row[i], e, Starts(s)[i], Ends(s)[i + 1])
    {
      EncodedFieldAt(s, row, i);
    }
    forall k | 0 <= k < |e| && Between(s, Starts(s), Ends(s), k)
      ensures e[k] == 0
    {
      EncodedBetween(s, row, k);
    }
  }

  lemma SameBitmap(s: Schema, row: Row, b: Bytes, e: Bytes, k: nat)
    requires |row| == |s| && ColumnBits(s, row, b) && ColumnBits(s, row, e) && k < (|s| + 7) / 8
    ensures 1 + k < |b| && 1 + k < |e| && b[1 + k] == e[1 + k]
  {
    assert Pow2(8) == 256 by { assert Pow2(4) == 16; }
    var x, y := b[1 + k], e[1 + k];
    forall j: nat | j < 8
      ensures Bit(x, j) == Bit(y, j)
    {
      var i := 8 * k + j;
      assert i / 8 == k && i % 8 == j;
      assert ColumnBit(row, b, i) && ColumnBit(row, e, i);
      BitIs(x, j);
      BitIs(y, j);
    }
    hide Bit;
    SameBits(x, y, 8);
  }

  lemma SameField(c: Column, v: Value, b: Bytes, e: Bytes, start: nat, end: nat, k: nat)
    requires Fits(v, c) && FieldAt(c, v, b, start, end) && FieldAt(c, v, e, start, end) && end == start + ValueSize(c)
    requires start <= k < end
    ensures b[k] == e[k]
  {
    hide ValueField, ValueSize;
    OnlyValueBytes(v, c, b[start..end]);
    OnlyValueBytes(v, c, e[start..end]);
    assert b[k] == b[start..end][k - start] && e[k] == e[start..end][k - start];
  }

  lemma SameByte(s: Schema, row: Row, starts: seq<nat>, ends: seq<nat>, b: Bytes, e: Bytes, k: nat)
    requires Encodable(s, row) && RowBytes(s, row, starts, ends, b) && RowBytes(s, row, starts, ends, e)
    requires starts == Starts(s) && ends == Ends(s) && k < |b| == |e|
    ensures b[k] == e[k]
  {
    hide EncodedSizeOf, StartOf, EndOf, Placement, ColumnBits, FieldAt;
    if 1 <= k < 1 + (|s| + 7) / 8 {
      SameBitmap(s, row, b, e, k - 1);
    } else if i: nat :| i < |s| && starts[i] <= k < ends[i + 1] {
      EndAfterStart(s, i);
      SameField(s[i], row[i], b, e, starts[i], ends[i + 1], k);
    } else if k > 0 {
      assert Between(s, starts, ends, k);
    }
  }

  lemma EndAfterStart(s: Schema, i: nat)
    requires i < |s|
    ensures EndOf(s, i + 1) == StartOf(s, i) + ValueSize(s[i])
  {
  }

  lemma OneLayout(s: Schema, starts: seq<nat>, ends: seq<nat>, size: nat)
    requires Placement(s, starts, ends, size)
    ensures starts == Starts(s) && ends == Ends(s) && size == EncodedSizeOf(s)
  {
    hide Placement, StartOf, EndOf, EncodedSizeOf;
    LayoutIsDocumented(s, starts, ends, size);
  }

  /** And no other bytes are a documented encoding of the row. */
  lemma OnlyEncodedIsDocumented(s: Schema, row: Row, starts: seq<nat>, ends: seq<nat>, b: Bytes)
    requires Schemas.Valid(s) && Encodable(s, row) && RowBytes(s, row, starts, ends, b)
    ensures |s| <= MAX_COLUMNS && b == Encoded(s, row)
  {
    SchemaBounds(s);
    EncodedIsDocumented(s, row);
    OneLayout(s, starts, ends, |b|);
    hide Encoded, Schemas.Valid, RowBytes;
    var e := Encoded(s, row);
    forall k: nat | k < |b|
      ensures b[k] == e[k]
    {
      SameByte(s, row, starts, ends, b, e, k);
    }
  }

  // ---------- what decode accepts and reads ----------

  /** The value a field without null flag stands for. */
  ghost predicate ValueRead(v: Value, c: Column, f: Bytes)
    requires |f| == ValueSize(c)
  {
    match c.logicalType
    case BooleanType => v == Boolean(f[0] != 0)
    case ByteType =>
      var u: int := f[0];
      v.Byte? && v.i8 == if u >= 0x80 then u - 0x100 else u
    case Int32Type => v.Int32? && v.i32 == if U32(f, 0) >= 0x8000_0000 then U32(f, 0) - 0x1_0000_0000 else U32(f, 0)
    case Int64Type =>
      var u := U32(f, 0) + 0x1_0000_0000 * U32(f, 4);
      v.Int64? && v.i64 == if u >= 0x8000_0000_0000_0000 then u - 0x1_0000_0000_0000_0000 else u
    case DoubleType => v == Double(f)
    case StringType => v.String? && v.s <= f && 0 !in v.s && (|v.s| == |f| || f[|v.s|] == 0)
  }

  lemma ReadIs(c: Column, f: Bytes)
    requires |f| == ValueSize(c)
    ensures ValueRead(ReadValue(c, f), c, f)
  {
    Widths();
    match c.logicalType
    case BooleanType =>
    case ByteType =>
    case Int32Type =>
      FourBytes(f);
      ToLEFromLE(f);
    case Int64Type =>
      EightBytes(f);
      ToLEFromLE(f);
    case DoubleType =>
    case StringType => UpToNulFacts(f);
  }

  lemma UpperHalf(b: nat, p: nat)
    requires 0 < p <= b < 2 * p
    ensures b / p % 2 == 1
  {
    QuotientUnique(b, p, 1, b - p);
  }

  lemma {:induction false} OnlyLowBits(b: nat, n: nat, m: nat)
    requires n <= m && b < Pow2(m) && forall j: nat | n <= j < m :: !Bit(b, j)
    ensures b < Pow2(n)
    decreases m
  {
    if n == m {
    } else {
      BitByPower(b, m - 1);
      if b >= Pow2(m - 1) {
        UpperHalf(b, Pow2(m - 1));
      }
      OnlyLowBits(b, n, m - 1);
    }
  }

  ghost predicate ClearFrom(b: byte, n: nat) {
    forall j: nat | n <= j < 8 :: !BitAt(b, j)
  }

  lemma UnusedBitsAre(b: byte, count: nat)
    ensures UnusedBitsClear(b, count) <==> count % 8 == 0 || ClearFrom(b, count % 8)
  {
    hide Bit, BitAt;
    assert Pow2(8) == 256 by { assert Pow2(4) == 16; }
    var n := count % 8;
    forall j: nat | n <= j < 8
      ensures BitAt(b, j) == Bit(b, j)
    {
      BitIs(b, j);
    }
    if b < Pow2(n) {
      forall j: nat | n <= j < 8
        ensures !Bit(b, j)
      {
        HighBitsClear(b, n, j);
      }
    } else if forall j: nat | n <= j < 8 :: !BitAt(b, j) {
      OnlyLowBits(b, n, 8);
    }
  }

  /** A field marked null is allowed to be, and holds zeros. */
  ghost predicate NullField(c: Column, b: Bytes, start: nat, end: nat) {
    c.nullable && start <= end <= |b| && forall k | start <= k < end :: b[k] == 0
  }

  lemma FieldDecodesAs(s: Schema, b: Bytes, i: nat)
    requires |b| == EncodedSizeOf(s) && i < |s|
    ensures 1 + i / 8 < |b| && StartOf(s, i) <= EndOf(s, i + 1) <= |b| && EndOf(s, i + 1) == StartOf(s, i) + ValueSize(s[i])
    ensures FieldDecodes(s, b, i) <==> (BitAt(b[1 + i / 8], i % 8) ==> NullField(s[i], b, StartOf(s, i), EndOf(s, i + 1)))
    ensures if BitAt(b[1 + i / 8], i % 8) then DecodedValue(s, b, i) == Null(s[i].logicalType)
            else ValueRead(DecodedValue(s, b, i), s[i], b[StartOf(s, i)..EndOf(s, i + 1)])
  {
    FlagInBitmap(s, i);
    ValueRanges(s, i, i + 1);
    EndAfterStart(s, i);
    hide EncodedSizeOf, StartOf, EndOf, Bit, BitAt, ReadValue, ValueRead, ValueSize;
    BitIs(b[1 + i / 8], i % 8);
    var f := Field(s, b, i);
    ReadIs(s[i], f);
    assert f == Zeros(|f|) <==> forall k | StartOf(s, i) <= k < EndOf(s, i + 1) :: b[k] == 0 by {
      assert forall k | StartOf(s, i) <= k < EndOf(s, i + 1) :: b[k] == f[k - StartOf(s, i)];
      assert forall j | 0 <= j < |f| :: f[j] == b[StartOf(s, i) + j];
    }
  }

  /** Decode accepts exactly the buffers with the right size, count and unused bits whose null fields are nullable and zero. */
  lemma DecodableMeans(s: Schema, b: Bytes)
    requires Schemas.Valid(s) && |b| == EncodedSizeOf(s)
    ensures 1 + (|s| + 7) / 8 <= |b|
    ensures Decodable(s, b) <==>
            && b[0] == |s|
            && (|s| % 8 != 0 ==> ClearFrom(b[(|s| + 7) / 8], |s| % 8))
            && (forall i: nat | i < |s| && 1 + i / 8 < |b| && BitAt(b[1 + i / 8], i % 8) ::
                  NullField(s[i], b, StartOf(s, i), EndOf(s, i + 1)))
  {
    FlagInBitmap(s, 0);
    hide EncodedSizeOf, StartOf, EndOf, BitAt, FieldDecodes, NullField, Schemas.Valid;
    UnusedBitsAre(b[NullBitmapSize(|s|)], |s|);
    forall i: nat | i < |s|
      ensures 1 + i / 8 < |b|
      ensures FieldDecodes(s, b, i) <==> (BitAt(b[1 + i / 8], i % 8) ==> NullField(s[i], b, StartOf(s, i), EndOf(s, i + 1)))
    {
      FieldDecodesAs(s, b, i);
    }
  }

  // ---------- tables.meta ----------

  /** A column entry, padded to 4. */
  ghost predicate ColumnAt(b: Bytes, off: nat, c: Column, next: nat) {
    && ColumnEntry(b, off, c)
    && NextMultiple(next, 4, off + 6 + |c.name|) && ZerosIn(b, off + 6 + |c.name|, next)
  }

  /** A table entry whose columns lie at `offs`: head padded to 4, the whole to 8. */
  ghost predicate TableWith(b: Bytes, off: nat, t: TableMeta, offs: seq<nat>, next: nat) {
    && TableEntry(b, off, t) && ZerosIn(b, off + 13, off + 16)
    && |offs| == |t.schema| + 1
    && NextMultiple(offs[0], 4, off + 18 + |t.name|) && ZerosIn(b, off + 18 + |t.name|, offs[0])
    && (forall i: nat | i < |t.schema| :: ColumnAt(b, offs[i], t.schema[i], offs[i + 1]))
    && NextMultiple(next, 8, offs[|t.schema|]) && ZerosIn(b, offs[|t.schema|], next)
  }

  ghost predicate TableAt(b: Bytes, off: nat, t: TableMeta, next: nat) {
    exists offs :: TableWith(b, off, t, offs, next)
  }

  /** The file: header, then the tables at `offs`, and nothing behind them. */
  ghost predicate TablesMeta(b: Bytes, c: Catalog, offs: seq<nat>) {
    && FileHeader(b, c.nextTableId, |c.tables|) && ZerosIn(b, 12, 16)
    && |offs| == |c.tables| + 1 && offs[0] == 16 && offs[|c.tables|] == |b|
    && (forall i: nat | i < |c.tables| :: TableAt(b, offs[i], c.tables[i], offs[i + 1]))
  }

  lemma PaddingIsZero(b: Bytes, acc: Bytes, a: nat)
    requires a > 0 && Begins(b, Padded(acc, a))
    ensures NextMultiple(|Padded(acc, a)|, a, |acc|) && ZerosIn(b, |acc|, |Padded(acc, a)|)
  {
    AlignedUp(|acc|, a);
    forall k | |acc| <= k < |Padded(acc, a)|
      ensures b[k] == 0
    {
      assert b[k] == Padded(acc, a)[k];
    }
  }

  lemma WrittenColumnAt(b: Bytes, acc: Bytes, c: Column)
    requires |c.name| <= MAX_NAME && Begins(b, Padded(acc + ColumnBytes(c), 4))
    ensures ColumnAt(b, |acc|, c, |Padded(acc + ColumnBytes(c), 4)|)
  {
    hide ColumnBytes, Padded, Begins, Sits, ColumnEntry;
    PaddingIsZero(b, acc + ColumnBytes(c), 4);
    PaddedBegins(acc + ColumnBytes(c), 4);
    PrefixTrans(acc + ColumnBytes(c), Padded(acc + ColumnBytes(c), 4), b);
    PrefixSits(b, acc, ColumnBytes(c));
    ColumnIsEntry(b, |acc|, c);
  }

  lemma {:induction false} PutColumnsBegin(acc: Bytes, cs: seq<Column>, i: nat, n: nat)
    requires i <= n <= |cs|
    ensures Begins(PutColumns(acc, cs, n), PutColumns(acc, cs, i))
    decreases n
  {
    hide PutColumns, ColumnBytes;
    if i == n {
    } else {
      PutColumnsBegin(acc, cs, i, n - 1);
      PutColumnsStep(acc, cs, n);
      PrefixTrans(PutColumns(acc, cs, i), PutColumns(acc, cs, n - 1), PutColumns(acc, cs, n));
    }
  }

  lemma WrittenColumns(b: Bytes, acc: Bytes, cs: seq<Column>, i: nat)
    requires i < |cs| && |cs[i].name| <= MAX_NAME && Begins(b, PutColumns(acc, cs, |cs|))
    ensures ColumnAt(b, |PutColumns(acc, cs, i)|, cs[i], |PutColumns(acc, cs, i + 1)|)
  {
    PutColumnsBegin(acc, cs, i + 1, |cs|);
    PrefixTrans(PutColumns(acc, cs, i + 1), PutColumns(acc, cs, |cs|), b);
    assert PutColumns(acc, cs, i + 1) == Padded(PutColumns(acc, cs, i) + ColumnBytes(cs[i]), 4);
    WrittenColumnAt(b, PutColumns(acc, cs, i), cs[i]);
  }

  lemma PutTableIs(acc: Bytes, t: TableMeta)
    requires |t.schema| <= MAX_COLUMNS
    ensures var head := Padded(acc + TableHead(t), 4);
            && PutTable(acc, t) == Padded(PutColumns(head, t.schema, |t.schema|), 8)
            && PutColumns(head, t.schema, 0) == head && |acc + TableHead(t)| == |acc| + 18 + |t.name|
  {
    hide PutTable;
    PutTableUnfold(acc, t);
    hide TableHead;
  }

  lemma PutTableUnfold(acc: Bytes, t: TableMeta)
    requires |t.schema| <= MAX_COLUMNS
    ensures PutTable(acc, t) == Padded(PutColumns(Padded(acc + TableHead(t), 4), t.schema, |t.schema|), 8)
  {
  }

  lemma WrittenTable(b: Bytes, acc: Bytes, t: TableMeta)
    requires MetaOk(t) && Begins(b, PutTable(acc, t))
    ensures |t.schema| <= MAX_COLUMNS && TableAt(b, |acc|, t, |PutTable(acc, t)|)
  {
    hide PutTable, PutColumns, TableHead, Padded, Begins, Sits, TableEntry, Schemas.Valid, NextMultiple, ZerosIn, ColumnAt, AlignTo;
    SchemaBounds(t.schema);
    PutTableParts(acc, t);
    PutTableIs(acc, t);
    var (head, n) := (Padded(acc + TableHead(t), 4), |t.schema|);
    var offs := seq(n + 1, i requires 0 <= i <= n => |PutColumns(head, t.schema, i)|);
    PutColumnsGrows(head, t.schema, n);
    PrefixTrans(acc + TableHead(t), PutTable(acc, t), b);
    PrefixTrans(PutColumns(head, t.schema, n), PutTable(acc, t), b);
    PrefixTrans(head, PutColumns(head, t.schema, n), b);
    PrefixSits(b, acc, TableHead(t));
    HeadIsEntry(b, |acc|, t);
    PaddingIsZero(b, acc + TableHead(t), 4);
    PaddingIsZero(b, PutColumns(head, t.schema, n), 8);
    forall i: nat | i < n
      ensures ColumnAt(b, offs[i], t.schema[i], offs[i + 1])
    {
      WrittenColumns(b, head, t.schema, i);
    }
    assert TableWith(b, |acc|, t, offs, |PutTable(acc, t)|);
  }

  lemma {:induction false} PutTablesBegin(acc: Bytes, ts: seq<TableMeta>, i: nat, n: nat)
    requires i <= n <= |ts| && SchemasFit(ts)
    ensures Begins(PutTables(acc, ts, n), PutTables(acc, ts, i))
    decreases n
  {
    hide PutTable, PutColumns, TableHead;
    if i == n {
    } else {
      PutTablesBegin(acc, ts, i, n - 1);
      PutTableParts(PutTables(acc, ts, n - 1), ts[n - 1]);
      PrefixTrans(PutTables(acc, ts, i), PutTables(acc, ts, n - 1), PutTables(acc, ts, n));
    }
  }

  lemma WrittenTables(b: Bytes, acc: Bytes, ts: seq<TableMeta>, i: nat)
    requires SchemasFit(ts) && i < |ts| && MetaOk(ts[i]) && Begins(b, PutTables(acc, ts, |ts|))
    ensures TableAt(b, |PutTables(acc, ts, i)|, ts[i], |PutTables(acc, ts, i + 1)|)
  {
    hide PutTable, TableAt, MetaOk;
    PutTablesBegin(acc, ts, i + 1, |ts|);
    PrefixTrans(PutTables(acc, ts, i + 1), PutTables(acc, ts, |ts|), b);
    assert PutTables(acc, ts, i + 1) == PutTable(PutTables(acc, ts, i), ts[i]);
    WrittenTable(b, PutTables(acc, ts, i), ts[i]);
  }

  /** Save writes a documented file. */
  lemma SavedIsDocumented(c: Catalog) returns (offs: seq<nat>)
    requires MetasOk(c)
    ensures TablesMeta(Serialized(c), c, offs)
  {
    hide PutTables, MetaOk, TableAt;
    var b, head, n := Serialized(c), FileHead(c), |c.tables|;
    SerializedHeader(c);
    offs := seq(n + 1, i requires 0 <= i <= n => |PutTables(head, c.tables, i)|);
    TablesOfNothing(head, c.tables);
    forall i: nat | i < n
      ensures TableAt(b, offs[i], c.tables[i], offs[i + 1])
    {
      WrittenTables(b, head, c.tables, i);
    }
  }

  lemma AlignedOffset(next: nat, a: nat, offset: nat)
    requires NextMultiple(next, a, offset)
    ensures a > 0 && AlignTo(offset, a) == next
  {
    AlignedUp(offset, a);
    NextMultipleIsUnique(next, AlignTo(offset, a), a, offset);
  }

  lemma ReadColumnAt(b: Bytes, off: nat, c: Column, next: nat)
    requires ColumnAt(b, off, c, next)
    ensures ParseColumn(b, off) == Parsed(c, next)
  {
    hide AlignTo, NextMultiple;
    AlignedOffset(next, 4, off + 6 + |c.name|);
  }

  lemma {:induction false} ReadColumnsAt(b: Bytes, cs: seq<Column>, offs: seq<nat>, n: nat)
    requires |offs| == |cs| + 1 && n <= |cs| && forall i: nat | i < |cs| :: ColumnAt(b, offs[i], cs[i], offs[i + 1])
    ensures ParseColumns(b, offs[0], n) == Parsed(cs[..n], offs[n])
    decreases n
  {
    hide ColumnAt, ParseColumn;
    if n == 0 {
    } else {
      ReadColumnsAt(b, cs, offs, n - 1);
      ReadColumnAt(b, offs[n - 1], cs[n - 1], offs[n]);
      assert cs[..n] == cs[..n - 1] + [cs[n - 1]];
    }
  }

  lemma ReadTableAt(b: Bytes, off: nat, t: TableMeta, next: nat)
    requires MetaOk(t) && TableAt(b, off, t, next)
    ensures ParseTable(b, off) == Parsed(t, next)
  {
    hide AlignTo, NextMultiple, ColumnAt, ParseColumns, ZerosIn, Schemas.Valid;
    var offs :| TableWith(b, off, t, offs, next);
    AlignedOffset(offs[0], 4, off + 18 + |t.name|);
    AlignedOffset(next, 8, offs[|t.schema|]);
    ReadColumnsAt(b, t.schema, offs, |t.schema|);
    assert t.schema[..|t.schema|] == t.schema;
    assert ParseText(b, off + 16) == Parsed(t.name, off + 18 + |t.name|);
  }

  lemma {:induction false} ReadTablesAt(b: Bytes, ts: seq<TableMeta>, offs: seq<nat>, n: nat)
    requires |offs| == |ts| + 1 && n <= |ts| && forall i | 0 <= i < |ts| :: MetaOk(ts[i])
    requires forall i: nat | i < |ts| :: TableAt(b, offs[i], ts[i], offs[i + 1])
    ensures ParseTables(b, offs[0], n) == Parsed(ts[..n], offs[n])
    decreases n
  {
    hide TableAt, ParseTable, MetaOk;
    if n == 0 {
    } else {
      ReadTablesAt(b, ts, offs, n - 1);
      ReadTableAt(b, offs[n - 1], ts[n - 1], offs[n]);
      assert ts[..n] == ts[..n - 1] + [ts[n - 1]];
    }
  }

  /** Load reads every documented file of a sound catalog, whoever wrote it. */
  lemma DocumentedIsLoaded(b: Bytes, c: Catalog, offs: seq<nat>)
    requires CatalogOk(c) && TablesMeta(b, c, offs)
    ensures ParseCatalog(b) == Parsed(c, |b|)
  {
    hide MetaOk, TableAt, ParseTables, IdsDistinct, NamesDistinct, IdsBelow;
    ReadTablesAt(b, c.tables, offs, |c.tables|);
    assert c.tables[..|c.tables|] == c.tables;
    assert !WrongMagic(b, 0) && !WrongMagic(b, 1) && !WrongMagic(b, 2) && !WrongMagic(b, 3);
  }
}
