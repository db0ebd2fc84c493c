/** Where each value of an encoded row lies. */
module Layout {
  import opened Bytes
  import opened Schemas

  function AlignTo(offset: nat, alignment: nat): (r: nat)
    requires alignment > 0
    ensures offset <= r < offset + alignment
  {
    var remainder := offset % alignment;
    if remainder == 0 then offset else offset + (alignment - remainder)
  }

  /** With the bounds of AlignTo: the least multiple that is not below the offset. */
  lemma AlignToMultiple(offset: nat, alignment: nat)
    requires alignment > 0
    ensures AlignTo(offset, alignment) % alignment == 0
  {
    var q, v := offset / alignment, AlignTo(offset, alignment);
    assert offset == alignment * q + offset % alignment;
    if offset % alignment != 0 {
      assert v == alignment * (q + 1);
      EuclidUnique(alignment, q + 1, 0, v / alignment, v % alignment);
    }
  }

  function NullBitmapSize(columnCount: nat): nat {
    (columnCount + 7) / 8
  }

  function ValueSize(c: Column): nat {
    match c.logicalType
    case BooleanType => 1
    case ByteType => 1
    case Int32Type => 4
    case Int64Type => 8
    case DoubleType => 8
    case StringType => c.stringCapacity
  }

  function ValueAlignment(t: LogicalType): (a: nat)
    ensures a in {1, 4, 8}
  {
    match t
    case BooleanType => 1
    case ByteType => 1
    case Int32Type => 4
    case Int64Type => 8
    case DoubleType => 8
    case StringType => 1
  }

  function DataStart(s: Schema): nat {
    AlignTo(1 + NullBitmapSize(|s|), 8)
  }

  /** First byte past the first n values. */
  function EndOf(s: Schema, n: nat): nat
    requires n <= |s|
    decreases n, 0
  {
    if n == 0 then DataStart(s) else StartOf(s, n - 1) + ValueSize(s[n - 1])
  }

  /** First byte of value i. */
  function StartOf(s: Schema, i: nat): nat
    requires i < |s|
    decreases i, 1
  {
    AlignTo(EndOf(s, i), ValueAlignment(s[i].logicalType))
  }

  function EncodedSizeOf(s: Schema): nat {
    AlignTo(EndOf(s, |s|), 8)
  }

  lemma {:induction false} EndsGrow(s: Schema, i: nat, n: nat)
    requires i <= n <= |s|
    ensures EndOf(s, i) <= EndOf(s, n)
    ensures i < n ==> StartOf(s, i) + ValueSize(s[i]) <= EndOf(s, n)
    decreases n
  {
    if i == n {
    } else {
      EndsGrow(s, i, n - 1);
    }
  }

  lemma SizeCoversValues(s: Schema)
    ensures 8 <= DataStart(s) == EndOf(s, 0) <= EndOf(s, |s|) <= EncodedSizeOf(s)
  {
    EndsGrow(s, 0, |s|);
  }

  /** Values are aligned, follow the header, do not overlap and stay inside the buffer. */
  lemma ValueRanges(s: Schema, i: nat, j: nat)
    requires i < j <= |s|
    ensures StartOf(s, i) % ValueAlignment(s[i].logicalType) == 0
    ensures 1 + NullBitmapSize(|s|) <= DataStart(s) <= StartOf(s, i)
    ensures j < |s| ==> StartOf(s, i) + ValueSize(s[i]) <= StartOf(s, j)
    ensures StartOf(s, i) + ValueSize(s[i]) <= EncodedSizeOf(s)
  {
    AlignToMultiple(EndOf(s, i), ValueAlignment(s[i].logicalType));
    EndsGrow(s, 0, i);
    EndsGrow(s, i, j);
    EndsGrow(s, i, |s|);
  }

  // ---------- the layout as serializationMap.txt describes it ----------

  /** The next multiple of a at or behind the offset. */
  ghost predicate NextMultiple(r: nat, a: nat, offset: nat) {
    a > 0 && r % a == 0 && offset <= r < offset + a
  }

  lemma NextMultipleIsUnique(r: nat, r': nat, a: nat, offset: nat)
    requires NextMultiple(r, a, offset) && NextMultiple(r', a, offset)
    ensures r == r'
  {
    var (q, q') := (r / a, r' / a);
    assert r == a * q && r' == a * q';
    if q < q' {
      MulStep(a, q, q');
    } else if q' < q {
      MulStep(a, q', q);
    }
  }

  /** Sizes in bytes of the values. */
  ghost predicate SizeIs(c: Column, size: nat) {
    && (c.logicalType.BooleanType? || c.logicalType.ByteType? ==> size == 1)
    && (c.logicalType.Int32Type? ==> size == 4)
    && (c.logicalType.Int64Type? || c.logicalType.DoubleType? ==> size == 8)
    && (c.logicalType.StringType? ==> size == c.stringCapacity)
  }

  /**
     Value i lies at starts[i] and ends at ends[i + 1]: header and bitmap padded to
     8, every value at the next multiple of its own size (strings anywhere), and
     the whole padded to 8.
   */
  ghost predicate Placement(s: Schema, starts: seq<nat>, ends: seq<nat>, size: nat) {
    && |starts| == |s| && |ends| == |s| + 1
    && NextMultiple(ends[0], 8, 1 + (|s| + 7) / 8)
    && (forall i: nat | i < |s| :: PlacedAt(s[i], starts[i], ends[i], ends[i + 1]))
    && NextMultiple(size, 8, ends[|s|])
  }

  ghost predicate PlacedAt(c: Column, start: nat, before: nat, after: nat) {
    && start <= after && SizeIs(c, after - start)
    && (if c.logicalType.StringType? then start == before else NextMultiple(start, after - start, before))
  }

  lemma AlignedUp(offset: nat, alignment: nat)
    requires alignment > 0
    ensures NextMultiple(AlignTo(offset, alignment), alignment, offset)
  {
    AlignToMultiple(offset, alignment);
  }

  lemma PlacedHere(s: Schema, i: nat)
    requires i < |s|
    ensures PlacedAt(s[i], StartOf(s, i), EndOf(s, i), EndOf(s, i + 1))
  {
    AlignedUp(EndOf(s, i), ValueAlignment(s[i].logicalType));
  }

  /** The offsets the engine computes are the described ones, and no others are. */
  lemma {:induction false} PlacementFrom(s: Schema, starts: seq<nat>, ends: seq<nat>, size: nat, n: nat)
    requires Placement(s, starts, ends, size) && n <= |s|
    ensures forall i: nat | i < n :: starts[i] == StartOf(s, i)
    ensures ends[n] == EndOf(s, n)
    ensures n == |s| ==> size == EncodedSizeOf(s)
    decreases n
  {
    if n == 0 {
      AlignedUp(1 + NullBitmapSize(|s|), 8);
      NextMultipleIsUnique(ends[0], DataStart(s), 8, 1 + (|s| + 7) / 8);
    } else {
      PlacementFrom(s, starts, ends, size, n - 1);
      assert PlacedAt(s[n - 1], starts[n - 1], ends[n - 1], ends[n]);
      SamePlace(s, n - 1, starts[n - 1], ends[n]);
    }
    if n == |s| {
      AlignedUp(EndOf(s, n), 8);
      NextMultipleIsUnique(size, EncodedSizeOf(s), 8, ends[n]);
    }
  }

  lemma SamePlace(s: Schema, i: nat, start: nat, after: nat)
    requires i < |s| && PlacedAt(s[i], start, EndOf(s, i), after)
    ensures start == StartOf(s, i) && after == EndOf(s, i + 1)
  {
    PlacedHere(s, i);
    hide StartOf, EndOf;
    if !s[i].logicalType.StringType? {
      NextMultipleIsUnique(start, StartOf(s, i), after - start, EndOf(s, i));
    }
  }

  lemma LayoutIsDocumented(s: Schema, starts: seq<nat>, ends: seq<nat>, size: nat)
    ensures Placement(s, starts, ends, size) <==>
            && |starts| == |s| && (forall i: nat | i < |s| :: starts[i] == StartOf(s, i))
            && |ends| == |s| + 1 && (forall i: nat | i <= |s| :: ends[i] == EndOf(s, i))
            && size == EncodedSizeOf(s)
  {
    if Placement(s, starts, ends, size) {
      forall i: nat | i <= |s|
        ensures ends[i] == EndOf(s, i)
      {
        PlacementFrom(s, starts, ends, size, i);
      }
      PlacementFrom(s, starts, ends, size, |s|);
    }
    forall i: nat | i < |s|
      ensures PlacedAt(s[i], StartOf(s, i), EndOf(s, i), EndOf(s, i + 1))
    {
      PlacedHere(s, i);
    }
    AlignedUp(1 + NullBitmapSize(|s|), 8);
    AlignedUp(EndOf(s, |s|), 8);
  }

  /** BYTE, INT32, BYTE: 24 bytes, with the values at 8, 12 and 16. */
  lemma LayoutExample(s: Schema)
    requires |s| == 3 && s[0].logicalType == s[2].logicalType == ByteType && s[1].logicalType == Int32Type
    ensures EncodedSizeOf(s) == 24 && StartOf(s, 0) == 8 && StartOf(s, 1) == 12 && StartOf(s, 2) == 16
  {
    LayoutIsDocumented(s, [8, 12, 16], [8, 9, 16, 17], 24);
  }

  /** The size loop reaches the same offset as the encoder and the decoder. */
  method EncodedSize(s: Schema) returns (size: nat)
    ensures size == EncodedSizeOf(s)
  {
    var offset := 0;
    offset := offset + 1;
    offset := offset + NullBitmapSize(|s|);
    offset := AlignTo(offset, 8);
    for i := 0 to |s|
      invariant offset == EndOf(s, i)
    {
      offset := AlignTo(offset, ValueAlignment(s[i].logicalType));
      offset := offset + ValueSize(s[i]);
    }
    return AlignTo(offset, 8);
  }
}
