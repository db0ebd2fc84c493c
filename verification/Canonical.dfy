/**
 Which of the buffers decode accepts are the ones encode writes: decode skips
 padding, takes any byte but 0 as true, and stops at the first NUL of a string.
 */
module CanonicalBytes {
  import opened Bytes
  import opened Schemas
  import opened Layout
  import opened Codec

  predicate CanonicalField(c: Column, f: Bytes)
    requires |f| == ValueSize(c)
  {
    match c.logicalType
    case BooleanType => f[0] == 0 || f[0] == 1
    case StringType => forall k | |UpToNul(f)| <= k < |f| :: f[k] == 0
    case _ => true
  }

  predicate InField(s: Schema, i: nat, k: nat)
    requires i < |s|
  {
    StartOf(s, i) <= k < StartOf(s, i) + ValueSize(s[i])
  }

  /** Byte k is behind the null bitmap and in none of the first n fields. */
  ghost predicate IsPadding(s: Schema, n: nat, k: nat)
    requires n <= |s|
  {
    1 + NullBitmapSize(|s|) <= k && forall i: nat | i < n :: !InField(s, i, k)
  }

  ghost predicate Canonical(s: Schema, b: Bytes)
    requires |b| == EncodedSizeOf(s)
  {
    && (forall k | 0 <= k < |b| && IsPadding(s, |s|, k) :: b[k] == 0)
    && (forall i: nat | i < |s| :: CanonicalAt(s, b, i))
  }

  ghost predicate CanonicalAt(s: Schema, b: Bytes, i: nat)
    requires |b| == EncodedSizeOf(s) && i < |s|
  {
    FlagInBitmap(s, i);
    NullFlag(b, i) || CanonicalField(s[i], Field(s, b, i))
  }

  // ---------- one field ----------

  lemma CutPrefix(f: Bytes)
    ensures |UpToNul(f)| <= |f| && UpToNul(f) == f[..|UpToNul(f)|]
  {
    UpToNulFacts(f);
  }

  /** Reading a field and writing the value again gives the bytes back exactly if they are canonical. */
  lemma FieldBack(c: Column, f: Bytes)
    requires |f| == ValueSize(c)
    ensures Fits(ReadValue(c, f), c)
    ensures ValueBytes(ReadValue(c, f), c) == f <==> CanonicalField(c, f)
  {
    ReadFits(c, f);
    Widths();
    match c.logicalType
    case BooleanType => assert f == [f[0]];
    case ByteType => assert f == [f[0]];
    case Int32Type => ToLEFromLE(f);
    case Int64Type => ToLEFromLE(f);
    case DoubleType =>
    case StringType =>
      CutPrefix(f);
      var n := |UpToNul(f)|;
      assert f == f[..n] + f[n..];
      assert f[n..] == Zeros(|f| - n) <==> CanonicalField(c, f);
      assert UpToNul(f) + Zeros(|f| - n) == f <==> f[n..] == Zeros(|f| - n) by {
        assert (UpToNul(f) + Zeros(|f| - n))[n..] == Zeros(|f| - n);
      }
  }

  // ---------- the null bitmap ----------

  lemma {:induction false} SameBits(a: nat, b: nat, n: nat)
    requires a < Pow2(n) && b < Pow2(n) && forall j: nat | j < n :: Bit(a, j) == Bit(b, j)
    ensures a == b
  {
    if n == 0 {
    } else {
      assert Bit(a, 0) == Bit(b, 0);
      forall j: nat | j < n - 1
        ensures Bit(a / 2, j) == Bit(b / 2, j)
      {
        assert Bit(a, j + 1) == Bit(b, j + 1);
      }
      SameBits(a / 2, b / 2, n - 1);
    }
  }

  lemma {:induction false} HighBitsClear(b: nat, n: nat, j: nat)
    requires b < Pow2(n) && n <= j
    ensures !Bit(b, j)
    decreases j
  {
    if n == j {
      HighBitClear(b, n);
    } else if n == 0 {
      HighBitsClear(0, 0, j - 1);
    } else {
      HighBitsClear(b / 2, n - 1, j - 1);
    }
  }

  lemma BitBack(s: Schema, b: Bytes, k: nat, j: nat)
    requires Schemas.Valid(s) && Decodable(s, b) && k < NullBitmapSize(|s|) && 1 + k < |b| && j < 8
    ensures NullAt(Decoded(s, b), 8 * k + j) == 1 <==> Bit(b[1 + k], j)
  {
    hide EncodedSizeOf, ReadValue, FieldDecodes, Schemas.Valid, Bit;
    var i := 8 * k + j;
    if i < |s| {
      FlagInBitmap(s, i);
      assert i / 8 == k && i % 8 == j;
      assert Decoded(s, b)[i] == DecodedValue(s, b, i);
    } else {
      FlagInBitmap(s, 0);
      assert 1 + k == NullBitmapSize(|s|) && |s| % 8 <= j && |s| % 8 != 0;
      HighBitsClear(b[1 + k], |s| % 8, j);
    }
  }

  lemma BitmapHas(row: Row, k: nat)
    requires k < NullBitmapSize(|row|)
    ensures Bitmap(row)[k] == NullByte(row, k) < Pow2(8) == 256
    ensures forall j: nat | j < 8 :: Bit(NullByte(row, k), j) <==> NullAt(row, 8 * k + j) == 1
  {
    assert Pow2(8) == 256 by { assert Pow2(4) == 16; }
    forall j: nat | j < 8
      ensures Bit(NullByte(row, k), j) <==> NullAt(row, 8 * k + j) == 1
    {
      NullBitsBit(row, 8 * k, 8, j);
    }
  }

  lemma BitmapBack(s: Schema, b: Bytes, k: nat)
    requires Schemas.Valid(s) && Decodable(s, b) && k < NullBitmapSize(|s|) && 1 + k < |b|
    ensures |Decoded(s, b)| == |s| && Bitmap(Decoded(s, b))[k] == b[1 + k]
  {
    var row := Decoded(s, b);
    BitmapOf(s, b, row, k);
  }

  lemma BitmapOf(s: Schema, b: Bytes, row: Row, k: nat)
    requires Schemas.Valid(s) && Decodable(s, b) && row == Decoded(s, b) && |row| == |s|
    requires k < NullBitmapSize(|s|) && 1 + k < |b|
    ensures Bitmap(row)[k] == b[1 + k]
  {
    hide Decoded, Decodable, Bit, NullByte, NullAt, Bitmap, NullBitmapSize, Pow2, Schemas.Valid;
    BitmapHas(row, k);
    forall j: nat | j < 8
      ensures Bit(NullByte(row, k), j) == Bit(b[1 + k], j)
    {
      BitBack(s, b, k, j);
    }
    SameBits(NullByte(row, k), b[1 + k], 8);
  }

  // ---------- padding ----------

  lemma {:induction false} PrefixPadding(s: Schema, row: Row, n: nat, k: nat)
    requires Encodable(s, row) && |s| <= MAX_COLUMNS && n <= |s|
    requires k < |Prefix(s, row, n)| && IsPadding(s, n, k)
    ensures Prefix(s, row, n)[k] == 0
    decreases n
  {
    if n == 0 {
      assert |Bitmap(row)| == NullBitmapSize(|s|);
    } else {
      var z := PrefixUnfold(s, row, n - 1);
      assert !InField(s, n - 1, k);
      if k < EndOf(s, n - 1) {
        PrefixPadding(s, row, n - 1, k);
      }
    }
  }

  lemma EncodedPadding(s: Schema, row: Row, k: nat)
    requires Encodable(s, row) && |s| <= MAX_COLUMNS && k < |Encoded(s, row)| && IsPadding(s, |s|, k)
    ensures Encoded(s, row)[k] == 0
  {
    if k < EndOf(s, |s|) {
      PrefixPadding(s, row, |s|, k);
    }
  }

  /** Decoding and encoding again gives the very bytes exactly for canonical buffers. */
  lemma BytesBack(s: Schema, b: Bytes)
    requires Schemas.Valid(s) && Decodable(s, b)
    ensures Encodable(s, Decoded(s, b))
    ensures Encoded(s, Decoded(s, b)) == b <==> Canonical(s, b)
  {
    hide Encoded, Decoded, EncodedSizeOf, StartOf, ValueBytes, ReadValue, CanonicalField, Bitmap, NullFlag, Schemas.Valid;
    CanonicalDecode(s, b);
    var row := Decoded(s, b);
    var e := Encoded(s, row);
    FieldsBack(s, b);
    forall k: nat | k < |b| && IsPadding(s, |s|, k)
      ensures e[k] == 0
    {
      EncodedPadding(s, row, k);
    }
    if Canonical(s, b) {
      forall k: nat | k < |b|
        ensures e[k] == b[k]
      {
        SameByte(s, b, k);
      }
      assert e == b;
    }
  }

  lemma FieldsBack(s: Schema, b: Bytes)
    requires Schemas.Valid(s) && Decodable(s, b) && Encodable(s, Decoded(s, b))
    ensures forall i: nat | i < |s| :: Field(s, Encoded(s, Decoded(s, b)), i) == Field(s, b, i) <==> CanonicalAt(s, b, i)
  {
    hide Encoded, EncodedSizeOf, StartOf, ValueBytes, ReadValue, CanonicalField;
    var row := Decoded(s, b);
    forall i: nat | i < |s|
      ensures Field(s, Encoded(s, row), i) == Field(s, b, i) <==> CanonicalAt(s, b, i)
    {
      EncodedField(s, row, i);
      FlagInBitmap(s, i);
      assert row[i] == DecodedValue(s, b, i) && FieldDecodes(s, b, i);
      FieldBack(s[i], Field(s, b, i));
      if row[i].Null? {
        NullBytes(row[i], s[i]);
      }
    }
  }

  lemma NullBytes(v: Codec.Value, c: Column)
    requires Fits(v, c) && v.Null?
    ensures ValueBytes(v, c) == Zeros(ValueSize(c))
  {
  }

  lemma InsideField(s: Schema, b: Bytes, i: nat, k: nat)
    requires |b| == EncodedSizeOf(s) && i < |s| && InField(s, i, k)
    ensures k < |b| && b[k] == Field(s, b, i)[k - StartOf(s, i)]
  {
    ValueRanges(s, i, i + 1);
  }

  lemma SameByte(s: Schema, b: Bytes, k: nat)
    requires Schemas.Valid(s) && Decodable(s, b) && Encodable(s, Decoded(s, b)) && k < |b| && Canonical(s, b)
    ensures Encoded(s, Decoded(s, b))[k] == b[k]
  {
    hide Encoded, EncodedSizeOf, StartOf, ValueBytes, ReadValue, CanonicalField, Bitmap;
    var row := Decoded(s, b);
    var e := Encoded(s, row);
    EncodedHeader(s, row);
    FlagInBitmap(s, 0);
    if 0 < k < 1 + NullBitmapSize(|s|) {
      BitmapBack(s, b, k - 1);
      assert e[k] == e[1..1 + NullBitmapSize(|s|)][k - 1];
    } else if k > 0 {
      if i: nat :| i < |s| && InField(s, i, k) {
        FieldsBack(s, b);
        assert CanonicalAt(s, b, i);
        InsideField(s, e, i, k);
        InsideField(s, b, i, k);
      } else {
        assert IsPadding(s, |s|, k);
        EncodedPadding(s, row, k);
      }
    }
  }
}
