/**
 Rows and their byte encoding: a column count, a null bitmap, and one aligned
 fixed-size field per column.
 */
module Codec {
  import opened Bytes
  import opened Core
  import opened Schemas
  import opened Layout

  type int8 = n: int | -0x80 <= n < 0x80
  type int32 = n: int | -0x8000_0000 <= n < 0x8000_0000
  type int64 = n: int | -0x8000_0000_0000_0000 <= n < 0x8000_0000_0000_0000

  /** The eight bytes of a double, in memory order; their meaning plays no part. */
  type DoubleBits = b: Bytes | |b| == 8 witness Zeros(8)

  datatype Value =
    | Null(nullType: LogicalType)
    | Boolean(b: bool)
    | Byte(i8: int8)
    | Int32(i32: int32)
    | Int64(i64: int64)
    | Double(bits: DoubleBits)
    | String(s: Bytes)
  {
    function Type(): LogicalType {
      match this
      case Null(t) => t
      case Boolean(_) => BooleanType
      case Byte(_) => ByteType
      case Int32(_) => Int32Type
      case Int64(_) => Int64Type
      case Double(_) => DoubleType
      case String(_) => StringType
    }
  }

  type Row = seq<Value>

  predicate Fits(v: Value, c: Column) {
    && v.Type() == c.logicalType
    && (v.Null? ==> c.nullable)
    && (v.String? ==> |v.s| <= c.stringCapacity)
  }

  ghost predicate Encodable(s: Schema, row: Row) {
    |row| == |s| && forall i | 0 <= i < |s| :: Fits(row[i], s[i])
  }

  // ---------- two's complement ----------

  function Unsigned(x: int, n: nat): (u: nat)
    requires 0 <= 2 * x + Pow256(n) && 2 * x < Pow256(n)
    ensures u < Pow256(n)
  {
    if x < 0 then x + Pow256(n) else x
  }

  function Signed(u: nat, n: nat): (x: int)
    requires u < Pow256(n)
    ensures 0 <= 2 * x + Pow256(n) && 2 * x < Pow256(n)
  {
    if 2 * u >= Pow256(n) then u - Pow256(n) else u
  }

  lemma Widths()
    ensures Pow256(1) == 0x100 && Pow256(4) == 0x1_0000_0000 && Pow256(8) == 0x1_0000_0000_0000_0000
  {
  }

  // ---------- one value ----------

  function ValueBytes(v: Value, c: Column): (b: Bytes)
    requires Fits(v, c)
    ensures |b| == ValueSize(c)
  {
    Widths();
    match v
    case Null(_) => Zeros(ValueSize(c))
    case Boolean(x) => [if x then 1 else 0]
    case Byte(x) => [Unsigned(x, 1)]
    case Int32(x) => ToLE(Unsigned(x, 4), 4)
    case Int64(x) => ToLE(Unsigned(x, 8), 8)
    case Double(bits) => bits
    case String(x) => x + Zeros(c.stringCapacity - |x|)
  }

  /** The bytes before the first NUL. */
  function UpToNul(s: Bytes): Bytes {
    if s == [] || s[0] == 0 then [] else [s[0]] + UpToNul(s[1..])
  }

  lemma {:induction false} UpToNulFacts(s: Bytes)
    ensures UpToNul(s) <= s && 0 !in UpToNul(s)
    ensures |UpToNul(s)| < |s| ==> s[|UpToNul(s)|] == 0
  {
    if s == [] || s[0] == 0 {
    } else {
      UpToNulFacts(s[1..]);
      assert s == [s[0]] + s[1..];
    }
  }

  lemma {:induction false} UpToNulPadded(s: Bytes, n: nat)
    ensures UpToNul(s + Zeros(n)) == UpToNul(s)
  {
    if s == [] {
      assert s + Zeros(n) == Zeros(n);
    } else {
      assert (s + Zeros(n))[1..] == s[1..] + Zeros(n);
      UpToNulPadded(s[1..], n);
    }
  }

  lemma {:induction false} UpToNulOnce(s: Bytes)
    ensures UpToNul(UpToNul(s)) == UpToNul(s)
  {
    if s == [] || s[0] == 0 {
    } else {
      UpToNulOnce(s[1..]);
      assert UpToNul(s)[1..] == UpToNul(s[1..]);
    }
  }

  function ReadValue(c: Column, b: Bytes): (v: Value)
    requires |b| == ValueSize(c)
    ensures v.Type() == c.logicalType && !v.Null?
  {
    Widths();
    match c.logicalType
    case BooleanType => Boolean(b[0] != 0)
    case ByteType => Byte(Signed(b[0], 1))
    case Int32Type => ToLEFromLE(b); Int32(Signed(FromLE(b), 4))
    case Int64Type => ToLEFromLE(b); Int64(Signed(FromLE(b), 8))
    case DoubleType => Double(b)
    case StringType => String(UpToNul(b))
  }

  /** What survives a round trip: strings are cut at their first NUL. */
  function Cut(v: Value): Value {
    if v.String? then String(UpToNul(v.s)) else v
  }

  function CutRow(row: Row): Row {
    seq(|row|, i requires 0 <= i < |row| => Cut(row[i]))
  }

  lemma ValueRoundTrip(v: Value, c: Column)
    requires Fits(v, c) && !v.Null?
    ensures ReadValue(c, ValueBytes(v, c)) == Cut(v)
  {
    Widths();
    match v
    case Boolean(_) =>
    case Byte(_) =>
    case Int32(x) => FromLEToLE(Unsigned(x, 4), 4);
    case Int64(x) => FromLEToLE(Unsigned(x, 8), 8);
    case Double(_) =>
    case String(x) => UpToNulPadded(x, c.stringCapacity - |x|);
  }

  lemma ReadFits(c: Column, b: Bytes)
    requires |b| == ValueSize(c)
    ensures Fits(ReadValue(c, b), c) && Cut(ReadValue(c, b)) == ReadValue(c, b)
  {
    if c.logicalType.StringType? {
      UpToNulFacts(b);
      UpToNulOnce(b);
    }
  }

  // ---------- the null bitmap ----------

  function Pow2(k: nat): (p: nat)
    ensures p > 0
  {
    if k == 0 then 1 else 2 * Pow2(k - 1)
  }

  /** (b >> k) & 1 */
  function Bit(b: nat, k: nat): bool
    decreases k
  {
    if k == 0 then b % 2 == 1 else Bit(b / 2, k - 1)
  }

  /** b |= 1 << k */
  function SetBit(b: nat, k: nat): nat {
    if Bit(b, k) then b else b + Pow2(k)
  }

  function NullAt(row: Row, i: nat): nat {
    if i < |row| && row[i].Null? then 1 else 0
  }

  /** The flags of columns i .. i+n-1, the first in the lowest bit. */
  function NullBits(row: Row, i: nat, n: nat): (b: nat)
    ensures b < Pow2(n)
    decreases n
  {
    if n == 0 then 0 else NullAt(row, i) + 2 * NullBits(row, i + 1, n - 1)
  }

  function NullByte(row: Row, k: nat): byte {
    assert Pow2(8) == 256 by { assert Pow2(4) == 16; }
    NullBits(row, 8 * k, 8)
  }

  function Bitmap(row: Row): (b: Bytes)
    ensures |b| == NullBitmapSize(|row|)
  {
    seq(NullBitmapSize(|row|), k requires 0 <= k < NullBitmapSize(|row|) => NullByte(row, k))
  }

  lemma {:induction false} NullBitsBit(row: Row, i: nat, n: nat, j: nat)
    requires j < n
    ensures Bit(NullBits(row, i, n), j) <==> NullAt(row, i + j) == 1
    decreases j
  {
    if j == 0 {
    } else {
      NullBitsBit(row, i + 1, n - 1, j - 1);
      assert NullBits(row, i, n) / 2 == NullBits(row, i + 1, n - 1);
    }
  }

  lemma {:induction false} HighBitClear(b: nat, k: nat)
    requires b < Pow2(k)
    ensures !Bit(b, k)
    decreases k
  {
    if k == 0 {
    } else {
      HighBitClear(b / 2, k - 1);
    }
  }

  lemma {:induction false} NullBitsExtend(row: Row, i: nat, n: nat)
    ensures NullBits(row, i, n + 1) == NullBits(row, i, n) + NullAt(row, i + n) * Pow2(n)
    decreases n
  {
    if n == 0 {
      assert NullBits(row, i + 1, 0) == 0;
    } else {
      NullBitsExtend(row, i + 1, n - 1);
      assert 2 * (NullAt(row, i + n) * Pow2(n - 1)) == NullAt(row, i + n) * Pow2(n);
    }
  }

  /** Setting the next flag of a byte whose higher bits are still clear. */
  lemma SetNextBit(row: Row, i: nat, n: nat)
    ensures NullAt(row, i + n) == 1 ==> SetBit(NullBits(row, i, n), n) == NullBits(row, i, n + 1)
    ensures NullAt(row, i + n) == 0 ==> NullBits(row, i, n) == NullBits(row, i, n + 1)
  {
    HighBitClear(NullBits(row, i, n), n);
    NullBitsExtend(row, i, n);
  }

  /** b & (0xFF << count % 8) has no bit exactly when b is below that power. */
  predicate UnusedBitsClear(b: byte, count: nat) {
    count % 8 == 0 || b < Pow2(count % 8)
  }

  lemma {:induction false} NullBitsStop(row: Row, i: nat, n: nat, m: nat)
    requires n <= m && (n == m || i + n >= |row|)
    ensures NullBits(row, i, m) == NullBits(row, i, n)
    decreases m
  {
    if n == m {
    } else {
      NullBitsStop(row, i, n, m - 1);
      NullBitsExtend(row, i, m - 1);
    }
  }

  lemma LastBitmapByte(row: Row)
    requires row != []
    ensures UnusedBitsClear(Bitmap(row)[NullBitmapSize(|row|) - 1], |row|)
  {
  }

  // ---------- the whole row ----------

  /** Everything before the end of value n - 1. */
  function Prefix(s: Schema, row: Row, n: nat): (b: Bytes)
    requires |row| == |s| <= MAX_COLUMNS && n <= |s|
    requires forall i | 0 <= i < |s| :: Fits(row[i], s[i])
    ensures |b| == EndOf(s, n)
  {
    if n == 0 then
      var head := [|s|] + Bitmap(row);
      head + Zeros(DataStart(s) - |head|)
    else
      Prefix(s, row, n - 1) + Zeros(StartOf(s, n - 1) - EndOf(s, n - 1)) + ValueBytes(row[n - 1], s[n - 1])
  }

  function Encoded(s: Schema, row: Row): (b: Bytes)
    requires |row| == |s| <= MAX_COLUMNS
    requires forall i | 0 <= i < |s| :: Fits(row[i], s[i])
    ensures |b| == EncodedSizeOf(s) >= 8
  {
    SizeCoversValues(s);
    Prefix(s, row, |s|) + Zeros(EncodedSizeOf(s) - EndOf(s, |s|))
  }

  lemma PrefixStep(s: Schema, row: Row, n: nat)
    requires Encodable(s, row) && |s| <= MAX_COLUMNS && n < |s|
    ensures Prefix(s, row, n) <= Prefix(s, row, n + 1)
  {
  }

  lemma PrefixUnfold(s: Schema, row: Row, n: nat) returns (k: nat)
    requires Encodable(s, row) && |s| <= MAX_COLUMNS && n < |s|
    ensures StartOf(s, n) == EndOf(s, n) + k
    ensures EndOf(s, n + 1) == StartOf(s, n) + ValueSize(s[n])
    ensures Prefix(s, row, n + 1) == Prefix(s, row, n) + Zeros(k) + ValueBytes(row[n], s[n])
  {
    k := StartOf(s, n) - EndOf(s, n);
  }

  lemma {:induction false} PrefixGrows(s: Schema, row: Row, i: nat, n: nat)
    requires Encodable(s, row) && |s| <= MAX_COLUMNS && i <= n <= |s|
    ensures Prefix(s, row, i) <= Prefix(s, row, n)
    decreases n
  {
    hide Prefix, EndOf;
    if i == n {
    } else {
      PrefixGrows(s, row, i, n - 1);
      PrefixStep(s, row, n - 1);
      PrefixTransitive(Prefix(s, row, i), Prefix(s, row, n - 1), Prefix(s, row, n));
    }
  }

  lemma PrefixTransitive(a: Bytes, b: Bytes, c: Bytes)
    requires a <= b && b <= c
    ensures a <= c
  {
  }

  lemma Concatenated(a: Bytes, b: Bytes, c: Bytes)
    ensures a <= a + b + c
    ensures (a + b + c)[|a| + |b|..] == c
  {
  }

  lemma SliceOfPrefix(p: Bytes, e: Bytes, i: nat, j: nat)
    requires p <= e && i <= j <= |p|
    ensures e[i..j] == p[i..j]
  {
  }

  lemma PrefixOfEncoded(s: Schema, row: Row, n: nat)
    requires Encodable(s, row) && |s| <= MAX_COLUMNS && n <= |s|
    ensures Prefix(s, row, n) <= Encoded(s, row)
  {
    PrefixGrows(s, row, n, |s|);
    hide Prefix;
    Concatenated(Prefix(s, row, |s|), [], Zeros(EncodedSizeOf(s) - EndOf(s, |s|)));
    assert Prefix(s, row, |s|) + [] == Prefix(s, row, |s|);
  }

  lemma PrefixField(s: Schema, row: Row, i: nat)
    requires Encodable(s, row) && |s| <= MAX_COLUMNS && i < |s|
    ensures StartOf(s, i) + ValueSize(s[i]) == EndOf(s, i + 1)
    ensures Prefix(s, row, i + 1)[StartOf(s, i)..] == ValueBytes(row[i], s[i])
  {
  }

  /** Field i of an encoded row holds the bytes of value i. */
  lemma EncodedField(s: Schema, row: Row, i: nat)
    requires Encodable(s, row) && |s| <= MAX_COLUMNS && i < |s|
    ensures StartOf(s, i) + ValueSize(s[i]) <= EncodedSizeOf(s)
    ensures Encoded(s, row)[StartOf(s, i)..StartOf(s, i) + ValueSize(s[i])] == ValueBytes(row[i], s[i])
  {
    hide Prefix, Encoded, StartOf, EndOf, ValueBytes, EncodedSizeOf;
    var p, e := Prefix(s, row, i + 1), Encoded(s, row);
    ValueRanges(s, i, i + 1);
    PrefixField(s, row, i);
    PrefixOfEncoded(s, row, i + 1);
    SliceOfPrefix(p, e, StartOf(s, i), |p|);
  }

  lemma EncodedHeader(s: Schema, row: Row)
    requires Encodable(s, row) && |s| <= MAX_COLUMNS
    ensures 1 + NullBitmapSize(|s|) <= EncodedSizeOf(s)
    ensures Encoded(s, row)[0] == |s|
    ensures Encoded(s, row)[1..1 + NullBitmapSize(|s|)] == Bitmap(row)
  {
    EndsGrow(s, 0, |s|);
    PrefixOfEncoded(s, row, 0);
    hide Encoded;
    var p, e := Prefix(s, row, 0), Encoded(s, row);
    SliceOfPrefix(p, e, 1, 1 + NullBitmapSize(|s|));
  }

  function NullFlag(b: Bytes, i: nat): bool
    requires 1 + i / 8 < |b|
  {
    Bit(b[1 + i / 8], i % 8)
  }

  function Field(s: Schema, b: Bytes, i: nat): (f: Bytes)
    requires |b| == EncodedSizeOf(s) && i < |s|
    ensures |f| == ValueSize(s[i])
  {
    ValueRanges(s, i, i + 1);
    b[StartOf(s, i)..StartOf(s, i) + ValueSize(s[i])]
  }

  lemma FlagInBitmap(s: Schema, i: nat)
    requires i < |s|
    ensures i / 8 < NullBitmapSize(|s|) && 1 + NullBitmapSize(|s|) <= EncodedSizeOf(s)
  {
    EndsGrow(s, 0, |s|);
  }

  predicate FieldDecodes(s: Schema, b: Bytes, i: nat)
    requires |b| == EncodedSizeOf(s) && i < |s|
  {
    FlagInBitmap(s, i);
    NullFlag(b, i) ==> s[i].nullable && Field(s, b, i) == Zeros(ValueSize(s[i]))
  }

  /** The byte strings decode accepts. */
  ghost predicate Decodable(s: Schema, b: Bytes)
    requires Schemas.Valid(s)
  {
    && |b| == EncodedSizeOf(s)
    && b[0] == |s|
    && (FlagInBitmap(s, 0); UnusedBitsClear(b[NullBitmapSize(|s|)], |s|))
    && (forall i: nat | i < |s| :: FieldDecodes(s, b, i))
  }

  function DecodedValue(s: Schema, b: Bytes, i: nat): Value
    requires |b| == EncodedSizeOf(s) && i < |s|
  {
    FlagInBitmap(s, i);
    if NullFlag(b, i) then Null(s[i].logicalType) else ReadValue(s[i], Field(s, b, i))
  }

  function Decoded(s: Schema, b: Bytes): Row
    requires |b| == EncodedSizeOf(s)
  {
    seq(|s|, i requires 0 <= i < |s| => DecodedValue(s, b, i))
  }

  lemma FlagRoundTrip(s: Schema, row: Row, i: nat)
    requires Encodable(s, row) && |s| <= MAX_COLUMNS && i < |s|
    ensures 1 + i / 8 < EncodedSizeOf(s)
    ensures NullFlag(Encoded(s, row), i) <==> row[i].Null?
  {
    hide Encoded, EncodedSizeOf;
    var e, k := Encoded(s, row), i / 8;
    EncodedHeader(s, row);
    FlagInBitmap(s, i);
    NullBitsBit(row, 8 * k, 8, i % 8);
    hide NullBits, NullBitmapSize;
    assert e[1 + k] == e[1..1 + NullBitmapSize(|s|)][k] == Bitmap(row)[k];
  }

  lemma FieldRoundTrip(s: Schema, row: Row, i: nat)
    requires Encodable(s, row) && |s| <= MAX_COLUMNS && i < |s|
    ensures FieldDecodes(s, Encoded(s, row), i)
    ensures DecodedValue(s, Encoded(s, row), i) == Cut(row[i])
  {
    hide Encoded, EncodedSizeOf, StartOf, NullFlag, ReadValue;
    EncodedField(s, row, i);
    FlagRoundTrip(s, row, i);
    if !row[i].Null? {
      ValueRoundTrip(row[i], s[i]);
    }
  }

  /** Decoding an encoded row gives the row back, with strings cut at their first NUL. */
  lemma RowRoundTrip(s: Schema, row: Row)
    requires Schemas.Valid(s) && Encodable(s, row)
    ensures Decodable(s, Encoded(s, row))
    ensures Decoded(s, Encoded(s, row)) == CutRow(row)
  {
    var e := Encoded(s, row);
    EncodedHeader(s, row);
    LastBitmapByte(row);
    assert e[NullBitmapSize(|s|)] == e[1..1 + NullBitmapSize(|s|)][NullBitmapSize(|s|) - 1];
    forall i: nat | i < |s|
      ensures FieldDecodes(s, e, i) && DecodedValue(s, e, i) == CutRow(row)[i]
    {
      FieldRoundTrip(s, row, i);
    }
  }

  /** Whatever decode accepts can be encoded again and decodes to the same row. */
  lemma CanonicalDecode(s: Schema, b: Bytes)
    requires Schemas.Valid(s) && Decodable(s, b)
    ensures Encodable(s, Decoded(s, b))
    ensures Decodable(s, Encoded(s, Decoded(s, b)))
    ensures Decoded(s, Encoded(s, Decoded(s, b))) == Decoded(s, b)
  {
    var row := Decoded(s, b);
    forall i: nat | i < |s|
      ensures Fits(row[i], s[i]) && Cut(row[i]) == row[i]
    {
      assert FieldDecodes(s, b, i);
      ReadFits(s[i], Field(s, b, i));
    }
    RowRoundTrip(s, row);
    assert CutRow(row) == row;
  }

  lemma CutKeepsRow(row: Row)
    ensures CutRow(row) == row <==> forall i | 0 <= i < |row| :: row[i].String? ==> 0 !in row[i].s
  {
    forall i | 0 <= i < |row|
      ensures Cut(row[i]) == row[i] <==> (row[i].String? ==> 0 !in row[i].s)
    {
      if row[i].String? {
        UpToNulFacts(row[i].s);
      }
    }
    if CutRow(row) == row {
      forall i | 0 <= i < |row|
        ensures Cut(row[i]) == row[i]
      {
        assert CutRow(row)[i] == Cut(row[i]);
      }
    }
  }

  /** A row comes back unchanged exactly when none of its strings holds a NUL. */
  lemma ExactRoundTrip(s: Schema, row: Row)
    requires Schemas.Valid(s) && Encodable(s, row)
    ensures Decodable(s, Encoded(s, row))
    ensures Decoded(s, Encoded(s, row)) == row <==> forall i | 0 <= i < |row| :: row[i].String? ==> 0 !in row[i].s
  {
    hide Decoded, Encoded, Decodable, Encodable, CutRow;
    RowRoundTrip(s, row);
    CutKeepsRow(row);
  }

  /** "A\0B" is accepted and comes back as "A". */
  lemma EmbeddedNulIsLost() returns (s: Schema, row: Row)
    ensures Schemas.Valid(s) && Encodable(s, row) && Decodable(s, Encoded(s, row))
    ensures row == [String([0x41, 0, 0x42])] && Decoded(s, Encoded(s, row)) == [String([0x41])]
  {
    s, row := [Column([0x6E], StringType, false, false, 3)], [String([0x41, 0, 0x42])];
    assert ColumnOk(s[0]) && Fits(row[0], s[0]);
    RowRoundTrip(s, row);
    hide Decoded, Encoded;
    assert row[0].s[1..] == [0, 0x42];
    assert UpToNul(row[0].s) == [0x41] + UpToNul(row[0].s[1..]) == [0x41];
    assert CutRow(row) == [String([0x41])];
  }

  // ---------- the loops ----------

  method Encode(s: Schema, row: Row) returns (r: Result<Bytes>)
    requires Schemas.Valid(s)
    ensures r.Success? <==> Encodable(s, row)
    ensures r.Success? <==>
              && |row| == |s|
              && (forall i | 0 <= i < |s| :: row[i].Type() == s[i].logicalType)
              && (forall i | 0 <= i < |s| :: row[i].Null? ==> s[i].nullable)
              && (forall i | 0 <= i < |s| :: row[i].String? ==> |row[i].s| <= s[i].stringCapacity)
    ensures r.Success? ==> r.value == Encoded(s, row)
    ensures r.Failure? ==> r.status == InvalidArgument
  {
    if |row| != |s| {
      return Failure(InvalidArgument);
    }
    for i := 0 to |row|
      invariant forall k | 0 <= k < i :: Fits(row[k], s[k])
    {
      var val, col := row[i], s[i];
      if val.Type() != col.logicalType {
        return Failure(InvalidArgument);
      }
      if val.Null? && !col.nullable {
        return Failure(InvalidArgument);
      }
      if val.String? && |val.s| > col.stringCapacity {
        return Failure(InvalidArgument);
      }
    }
    var size := EncodedSize(s);
    var encoded := WriteRow(s, row, size);
    return Success(encoded);
  }

  method WriteRow(s: Schema, row: Row, size: nat) returns (b: Bytes)
    requires Schemas.Valid(s) && Encodable(s, row) && size == EncodedSizeOf(s)
    ensures b == Encoded(s, row)
  {
    hide Prefix, EndOf, EncodedSizeOf, AlignTo;
    var encoded := WriteHead(s, row, size);
    var offset := DataStart(s);
    for i := 0 to |row|
      invariant offset == EndOf(s, i) <= size
      invariant encoded[..] == Prefix(s, row, i) + Zeros(size - EndOf(s, i))
    {
      EndsGrow(s, i, i + 1);
      EndsGrow(s, i + 1, |s|);
      ValueRanges(s, i, i + 1);
      WriteField(encoded, s, row, i);
      ghost var k := PrefixUnfold(s, row, i);
      offset := AlignTo(offset, ValueAlignment(s[i].logicalType));
      offset := offset + ValueSize(s[i]);
    }
    return encoded[..];
  }

  /** The column count and the null bitmap in a zeroed buffer. */
  method WriteHead(s: Schema, row: Row, size: nat) returns (encoded: array<byte>)
    requires Schemas.Valid(s) && Encodable(s, row) && size == EncodedSizeOf(s)
    ensures fresh(encoded) && encoded.Length == size
    ensures EndOf(s, 0) == DataStart(s) <= EndOf(s, |s|) <= size
    ensures encoded[..] == Prefix(s, row, 0) + Zeros(size - EndOf(s, 0))
  {
    hide Prefix, Encodable, EndOf, EncodedSizeOf, Schemas.Valid, Bitmap, NullBitmapSize, AlignTo, DataStart;
    EndsGrow(s, 0, |s|);
    PrefixOfNothing(s, row);
    encoded := new byte[size](_ => 0);
    encoded[0] := |row|;
    WriteBitmap(encoded, row);
    HeadThenZeros(encoded[..], |s|, Bitmap(row), DataStart(s));
  }

  lemma PrefixOfNothing(s: Schema, row: Row)
    requires Schemas.Valid(s) && Encodable(s, row)
    ensures |row| == |s| <= MAX_COLUMNS && EndOf(s, 0) == DataStart(s) <= EndOf(s, |s|) <= EncodedSizeOf(s)
    ensures Prefix(s, row, 0) == [|s|] + Bitmap(row) + Zeros(DataStart(s) - 1 - |Bitmap(row)|)
    ensures 1 + NullBitmapSize(|s|) <= DataStart(s)
  {
    SizeCoversValues(s);
  }

  lemma HeadThenZeros(buf: Bytes, count: byte, bits: Bytes, start: nat)
    requires 1 + |bits| <= start <= |buf| && buf[0] == count && buf[1..1 + |bits|] == bits
    requires forall k | 1 + |bits| <= k < |buf| :: buf[k] == 0
    ensures buf == [count] + bits + Zeros(start - 1 - |bits|) + Zeros(|buf| - start)
  {
  }

  /** One turn of the field loop: align, then write value i. */
  method WriteField(encoded: array<byte>, s: Schema, row: Row, i: nat)
    requires Encodable(s, row) && |s| <= MAX_COLUMNS && i < |s|
    requires encoded.Length == EncodedSizeOf(s) && EndOf(s, i) <= EndOf(s, i + 1) <= encoded.Length
    requires encoded[..] == Prefix(s, row, i) + Zeros(encoded.Length - EndOf(s, i))
    modifies encoded
    ensures encoded[..] == Prefix(s, row, i + 1) + Zeros(encoded.Length - EndOf(s, i + 1))
  {
    hide Prefix, ValueBytes, EndOf, StartOf, EncodedSizeOf;
    ValueRanges(s, i, i + 1);
    var offset := StartOf(s, i);
    ghost var p, v := Prefix(s, row, i), ValueBytes(row[i], s[i]);
    ghost var k := PrefixUnfold(s, row, i);
    ZeroField(encoded[..], p, encoded.Length - |p|, k, |v|);
    WriteValue(encoded, offset, row[i], s[i]);
    FillField(old(encoded[..]), encoded[..], p, encoded.Length - |p|, k, v);
  }

  lemma ZeroField(buf: Bytes, p: Bytes, n: nat, k: nat, m: nat)
    requires buf == p + Zeros(n) && k + m <= n
    ensures buf[|p| + k..|p| + k + m] == Zeros(m)
  {
  }

  lemma FillField(buf: Bytes, buf': Bytes, p: Bytes, n: nat, k: nat, v: Bytes)
    requires buf == p + Zeros(n) && k + |v| <= n
    requires buf' == buf[..|p| + k] + v + buf[|p| + k + |v|..]
    ensures buf' == p + Zeros(k) + v + Zeros(n - k - |v|)
  {
  }

  /** How many flags of byte k are set once the first i columns are done. */
  function FlagsDone(i: nat, k: nat): nat {
    if i <= 8 * k then 0 else if i >= 8 * k + 8 then 8 else i - 8 * k
  }

  method WriteBitmap(encoded: array<byte>, row: Row)
    requires 1 + NullBitmapSize(|row|) <= encoded.Length
    requires forall k | 1 <= k < encoded.Length :: encoded[k] == 0
    modifies encoded
    ensures encoded[1..1 + NullBitmapSize(|row|)] == Bitmap(row)
    ensures forall k | 0 <= k < encoded.Length && !(1 <= k < 1 + NullBitmapSize(|row|)) :: encoded[k] == old(encoded[k])
  {
    hide NullBits, SetBit, Bit;
    for i := 0 to |row|
      invariant forall k | 0 <= k < encoded.Length && !(1 <= k < 1 + NullBitmapSize(|row|)) :: encoded[k] == old(encoded[k])
      invariant forall k | 1 <= k < 1 + NullBitmapSize(|row|) :: encoded[k] == NullBits(row, 8 * (k - 1), FlagsDone(i, k - 1))
    {
      var colByte, colBit := i / 8, i % 8;
      assert i == 8 * colByte + colBit;
      assert FlagsDone(i, colByte) == colBit && FlagsDone(i + 1, colByte) == colBit + 1;
      SetNextBit(row, 8 * colByte, colBit);
      FlagsBelow256(row, 8 * colByte, colBit + 1);
      assert colByte < NullBitmapSize(|row|) && encoded[1 + colByte] == NullBits(row, 8 * colByte, colBit);
      ghost var before := encoded[..];
      if row[i].Null? {
        encoded[1 + colByte] := SetBit(encoded[1 + colByte], colBit);
      }
      forall k | 1 <= k < 1 + NullBitmapSize(|row|)
        ensures encoded[k] == NullBits(row, 8 * (k - 1), FlagsDone(i + 1, k - 1))
      {
        if k != 1 + colByte {
          assert encoded[k] == before[k] && FlagsDone(i + 1, k - 1) == FlagsDone(i, k - 1);
        }
      }
    }
    forall k: nat | k < NullBitmapSize(|row|)
      ensures encoded[1 + k] == Bitmap(row)[k]
    {
      NullBitsStop(row, 8 * k, FlagsDone(|row|, k), 8);
    }
  }

  lemma FlagsBelow256(row: Row, i: nat, n: nat)
    requires n <= 8
    ensures NullBits(row, i, n) < 256
  {
    PowGrows(n, 8);
    assert Pow2(8) == 256 by { assert Pow2(4) == 16; }
  }

  lemma {:induction false} PowGrows(m: nat, n: nat)
    requires m <= n
    ensures Pow2(m) <= Pow2(n)
    decreases n
  {
    if m == n {
    } else {
      PowGrows(m, n - 1);
    }
  }

  /** Write one value over a zeroed field. */
  method WriteValue(encoded: array<byte>, offset: nat, v: Value, c: Column)
    requires Fits(v, c) && offset + ValueSize(c) <= encoded.Length
    requires encoded[offset..offset + ValueSize(c)] == Zeros(ValueSize(c))
    modifies encoded
    ensures encoded[..] == old(encoded[..offset]) + ValueBytes(v, c) + old(encoded[offset + ValueSize(c)..])
  {
    Widths();
    hide ToLE;
    match v
    case Null(_) => assert encoded[..] == encoded[..offset] + encoded[offset..offset + ValueSize(c)] + encoded[offset + ValueSize(c)..];
    case Boolean(x) => encoded[offset] := if x then 1 else 0;
    case Byte(x) => encoded[offset] := Unsigned(x, 1);
    case Int32(x) => WriteUint(encoded, offset, Unsigned(x, 4), 4);
    case Int64(x) => WriteUint(encoded, offset, Unsigned(x, 8), 8);
    case Double(bits) => CopyInto(encoded, offset, bits);
    case String(x) => WriteString(encoded, offset, x, c.stringCapacity);
  }

  method WriteString(encoded: array<byte>, offset: nat, x: Bytes, capacity: nat)
    requires |x| <= capacity && offset + capacity <= encoded.Length
    requires encoded[offset..offset + capacity] == Zeros(capacity)
    modifies encoded
    ensures encoded[..] == old(encoded[..offset]) + (x + Zeros(capacity - |x|)) + old(encoded[offset + capacity..])
  {
    StringTail(encoded[..], offset, |x|, capacity);
    CopyInto(encoded, offset, x);
  }

  /** What is left of the zeroed field behind a string of n bytes. */
  lemma StringTail(buf: Bytes, offset: nat, n: nat, capacity: nat)
    requires n <= capacity && offset + capacity <= |buf| && buf[offset..offset + capacity] == Zeros(capacity)
    ensures buf[offset + n..] == Zeros(capacity - n) + buf[offset + capacity..]
  {
  }

  method Decode(s: Schema, b: Bytes) returns (r: Result<Row>)
    requires Schemas.Valid(s)
    ensures r.Success? <==> Decodable(s, b)
    ensures r.Success? ==> r.value == Decoded(s, b)
    ensures r.Failure? ==> r.status == InvalidArgument
  {
    var size := EncodedSize(s);
    if size != |b| {
      return Failure(InvalidArgument);
    }
    FlagInBitmap(s, 0);
    if b[0] != |s| {
      return Failure(InvalidArgument);
    }
    var nullBitmap: seq<bool> := [];
    for i := 0 to |s|
      invariant |nullBitmap| == i
      invariant forall k | 0 <= k < i :: 1 + k / 8 < |b| && nullBitmap[k] == NullFlag(b, k)
    {
      FlagInBitmap(s, i);
      nullBitmap := nullBitmap + [Bit(b[1 + i / 8], i % 8)];
    }
    if !UnusedBitsClear(b[NullBitmapSize(|s|)], |s|) {
      return Failure(InvalidArgument);
    }
    r := DecodeFields(s, b, nullBitmap);
  }

  method DecodeFields(s: Schema, b: Bytes, nullBitmap: seq<bool>) returns (r: Result<Row>)
    requires Schemas.Valid(s) && |b| == EncodedSizeOf(s) && |nullBitmap| == |s|
    requires forall k: nat | k < |s| :: 1 + k / 8 < |b| && nullBitmap[k] == NullFlag(b, k)
    ensures r.Success? <==> forall k: nat | k < |s| :: FieldDecodes(s, b, k)
    ensures r.Success? ==> r.value == Decoded(s, b)
    ensures r.Failure? ==> r.status == InvalidArgument
  {
    hide NullFlag, ReadValue, EncodedSizeOf, AlignTo;
    var offset := DataStart(s);
    var values: Row := [];
    for i := 0 to |s|
      invariant offset == EndOf(s, i)
      invariant |values| == i
      invariant forall k: nat | k < i :: FieldDecodes(s, b, k) && values[k] == DecodedValue(s, b, k)
    {
      ValueRanges(s, i, i + 1);
      offset := AlignTo(offset, ValueAlignment(s[i].logicalType));
      var field := b[offset..offset + ValueSize(s[i])];
      assert field == Field(s, b, i);
      var v := DecodeField(s[i], field, nullBitmap[i]);
      if v.Failure? {
        assert !FieldDecodes(s, b, i);
        return Failure(InvalidArgument);
      }
      values := values + [v.value];
      offset := offset + ValueSize(s[i]);
    }
    return Success(values);
  }

  /** One turn of the decoding loop. */
  method DecodeField(c: Column, field: Bytes, isNull: bool) returns (r: Result<Value>)
    requires |field| == ValueSize(c)
    ensures r == if !isNull then Success(ReadValue(c, field))
                 else if c.nullable && field == Zeros(ValueSize(c)) then Success(Null(c.logicalType))
                 else Failure(InvalidArgument)
  {
    if isNull {
      if !c.nullable {
        return Failure(InvalidArgument);
      }
      for j := 0 to ValueSize(c)
        invariant forall k | 0 <= k < j :: field[k] == 0
      {
        if field[j] != 0 {
          return Failure(InvalidArgument);
        }
      }
      assert field == Zeros(ValueSize(c));
      return Success(Null(c.logicalType));
    }
    Widths();
    match c.logicalType
    case BooleanType => return Success(Boolean(field[0] != 0));
    case ByteType => return Success(Byte(Signed(field[0], 1)));
    case Int32Type =>
      var u := ReadUint(field, 0, 4);
      assert field[0..4] == field;
      return Success(Int32(Signed(u, 4)));
    case Int64Type =>
      var u := ReadUint(field, 0, 8);
      assert field[0..8] == field;
      return Success(Int64(Signed(u, 8)));
    case DoubleType => return Success(Double(field));
    case StringType =>
      var text := ReadText(field);
      return Success(String(text));
  }

  /** Characters up to the first NUL or the capacity. */
  method ReadText(field: Bytes) returns (text: Bytes)
    ensures text == UpToNul(field)
  {
    text := [];
    var j := 0;
    while j < |field|
      invariant j <= |field|
      invariant UpToNul(field) == text + UpToNul(field[j..])
    {
      if field[j] == 0 {
        return;
      }
      assert field[j..][1..] == field[j + 1..];
      text := text + [field[j]];
      j := j + 1;
    }
  }
}
