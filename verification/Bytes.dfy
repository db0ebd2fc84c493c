/**
 Bytes, little-endian integers, and the constants every file format of the
 engine shares.  Shifts and masks of the source are written as division and
 remainder by powers of 256; OR-ing bytes into disjoint positions is a sum.
 */
module Bytes {

  type byte = b: int | 0 <= b < 0x100
  type Bytes = seq<byte>

  const PAGE_SIZE: nat := 4096
  const INVALID_PAGE_ID: nat := 0xFFFF_FFFF
  const INVALID_SLOT_ID: nat := 0xFFFF

  type PageId = p: int | 0 <= p < 0x1_0000_0000
  type uint16 = n: int | 0 <= n < 0x1_0000
  type uint32 = n: int | 0 <= n < 0x1_0000_0000
  type SlotId = s: int | 0 <= s < 0x1_0000
  type Page = b: Bytes | |b| == PAGE_SIZE witness Zeros(PAGE_SIZE)

  type Store = map<PageId, Page>

  function Zeros(n: nat): (z: Bytes)
    ensures |z| == n
  {
    seq(n, _ => 0)
  }

  function Pow256(n: nat): (p: nat)
    ensures p > 0
  {
    if n == 0 then 1 else 256 * Pow256(n - 1)
  }

  /** The n low bytes of v, least significant first. */
  function ToLE(v: nat, n: nat): (s: Bytes)
    ensures |s| == n
    decreases n
  {
    if n == 0 then [] else [v % 256] + ToLE(v / 256, n - 1)
  }

  function FromLE(s: Bytes): nat {
    if s == [] then 0 else s[0] + 256 * FromLE(s[1..])
  }

  lemma {:induction false} FromLEToLE(v: nat, n: nat)
    requires v < Pow256(n)
    ensures FromLE(ToLE(v, n)) == v
    decreases n
  {
    if n == 0 {
    } else {
      var s := ToLE(v, n);
      assert s[1..] == ToLE(v / 256, n - 1);
      FromLEToLE(v / 256, n - 1);
    }
  }

  lemma {:induction false} ToLEFromLE(s: Bytes)
    ensures FromLE(s) < Pow256(|s|)
    ensures ToLE(FromLE(s), |s|) == s
  {
    if s == [] {
    } else {
      ToLEFromLE(s[1..]);
      assert FromLE(s) / 256 == FromLE(s[1..]) && FromLE(s) % 256 == s[0];
      assert s == [s[0]] + s[1..];
    }
  }

  /** The k-th byte of ToLE is the one the shift-and-mask loop writes. */
  lemma {:induction false} ToLEByte(v: nat, n: nat, k: nat)
    requires k < n
    ensures ToLE(v, n)[k] == v / Pow256(k) % 256
    decreases n
  {
    if k == 0 {
    } else {
      ToLEByte(v / 256, n - 1, k - 1);
      DivDiv(v, 256, Pow256(k - 1));
    }
  }

  lemma DivDiv(v: nat, a: nat, b: nat)
    requires a > 0 && b > 0 && a * b > 0
    ensures v / a / b == v / (a * b)
  {
    var q := v / a / b;
    var r := v / a % b;
    var t := v % a;
    assert v == a * (b * q + r) + t;
    assert v == (a * b) * q + (a * r + t) by { assert a * (b * q) == (a * b) * q; }
    assert 0 <= a * r + t < a * b by { assert a * r <= a * (b - 1); }
    QuotientUnique(v, a * b, q, a * r + t);
  }

  lemma QuotientUnique(v: int, d: int, q: int, r: int)
    requires d > 0 && v == d * q + r && 0 <= r < d
    ensures v / d == q
  {
    EuclidUnique(d, q, r, v / d, v % d);
  }

  lemma EuclidUnique(d: int, q: int, r: int, q': int, r': int)
    requires 0 <= r < d && 0 <= r' < d
    requires d * q + r == d * q' + r'
    ensures q == q'
  {
    if q < q' {
      MulStep(d, q, q');
    } else if q > q' {
      MulStep(d, q', q);
    }
  }

  lemma MulStep(d: int, q: int, q': int)
    requires d > 0 && q < q'
    ensures d * q' >= d * q + d
  {
    var k := q' - q - 1;
    assert d * q' == d * q + d + d * k;
    assert d * k >= 0;
  }

  /** Appending one more significant byte: the step of the OR-accumulating reader. */
  lemma {:induction false} FromLEAppend(s: Bytes, b: byte)
    ensures FromLE(s + [b]) == FromLE(s) + b * Pow256(|s|)
  {
    if s == [] {
      assert s + [b] == [b];
      assert FromLE([b]) == b + 256 * FromLE([b][1..]);
      assert Pow256(0) == 1;
    } else {
      assert (s + [b])[1..] == s[1..] + [b];
      FromLEAppend(s[1..], b);
      var p := Pow256(|s| - 1);
      assert Pow256(|s|) == 256 * p;
      assert 256 * (b * p) == b * (256 * p);
    }
  }

  function U16(s: Bytes, off: nat): (v: nat)
    requires off + 2 <= |s|
    ensures v < 0x1_0000
  {
    var (b0: int, b1: int) := (s[off], s[off + 1]);
    b0 + 256 * b1
  }

  function U32(s: Bytes, off: nat): (v: nat)
    requires off + 4 <= |s|
    ensures v < 0x1_0000_0000
  {
    U16(s, off) + 0x1_0000 * U16(s, off + 2)
  }

  /** Bytes 4 and 5 of a page tell what kind of page it is. */
  const FREE_PAGE_KIND: nat := 0xFFFF

  function Kind(b: Page): nat {
    U16(b, 4)
  }

  lemma U16IsLE(s: Bytes, off: nat)
    requires off + 2 <= |s|
    ensures FromLE(s[off..off + 2]) == U16(s, off)
  {
    var t := s[off..off + 2];
    assert t[1..] == [s[off + 1]] && t[1..][1..] == [];
    assert FromLE(t[1..][1..]) == 0;
    assert FromLE(t[1..]) == s[off + 1];
  }

  lemma U32IsLE(s: Bytes, off: nat)
    requires off + 4 <= |s|
    ensures FromLE(s[off..off + 4]) == U32(s, off)
  {
    var t := s[off..off + 4];
    U16IsLE(s, off + 2);
    assert t[1..][0] == s[off + 1];
    assert t[1..][1..] == s[off + 2..off + 4];
    assert FromLE(t[1..]) == s[off + 1] + 256 * U16(s, off + 2);
  }

  /** writeUint16, writeUint32 and writeUint64 are one loop with n = 2, 4 and 8. */
  method WriteUint(a: array<byte>, offset: nat, value: nat, n: nat)
    requires offset + n <= a.Length
    modifies a
    ensures a[..] == old(a[..offset]) + ToLE(value, n) + old(a[offset + n..])
    ensures forall k | 0 <= k < a.Length && !(offset <= k < offset + n) :: a[k] == old(a[k])
  {
    for i := 0 to n
      invariant forall k | 0 <= k < a.Length && !(offset <= k < offset + i) :: a[k] == old(a[k])
      invariant forall k | 0 <= k < i :: a[offset + k] == ToLE(value, n)[k]
    {
      ToLEByte(value, n, i);
      a[offset + i] := value / Pow256(i) % 256;
    }
  }

  method WriteUint16(a: array<byte>, offset: nat, value: nat)
    requires offset + 2 <= a.Length && value < 0x1_0000
    modifies a
    ensures U16(a[..], offset) == value
    ensures forall k | 0 <= k < a.Length && !(offset <= k < offset + 2) :: a[k] == old(a[k])
  {
    WriteUint(a, offset, value, 2);
    assert a[..][offset..offset + 2] == ToLE(value, 2);
    assert Pow256(2) == 65536;
    FromLEToLE(value, 2);
    U16IsLE(a[..], offset);
  }

  method WriteUint32(a: array<byte>, offset: nat, value: nat)
    requires offset + 4 <= a.Length && value < 0x1_0000_0000
    modifies a
    ensures U32(a[..], offset) == value
    ensures forall k | 0 <= k < a.Length && !(offset <= k < offset + 4) :: a[k] == old(a[k])
  {
    WriteUint(a, offset, value, 4);
    assert a[..][offset..offset + 4] == ToLE(value, 4);
    assert Pow256(4) == 0x1_0000_0000 by { assert Pow256(2) == 65536; }
    FromLEToLE(value, 4);
    U32IsLE(a[..], offset);
  }

  /** readUint16, readUint32 and readUint64: the same accumulating loop. */
  method ReadUint(s: Bytes, offset: nat, n: nat) returns (res: nat)
    requires offset + n <= |s|
    ensures res == FromLE(s[offset..offset + n])
    ensures res < Pow256(n)
  {
    res := 0;
    for i := 0 to n
      invariant res == FromLE(s[offset..offset + i])
    {
      assert s[offset..offset + i + 1] == s[offset..offset + i] + [s[offset + i]];
      FromLEAppend(s[offset..offset + i], s[offset + i]);
      res := res + s[offset + i] * Pow256(i);
    }
    ToLEFromLE(s[offset..offset + n]);
  }

  /** std::copy and memcpy of a whole buffer into an array. */
  method CopyInto(a: array<byte>, offset: nat, src: Bytes)
    requires offset + |src| <= a.Length
    modifies a
    ensures a[..] == old(a[..offset]) + src + old(a[offset + |src|..])
    ensures forall k | 0 <= k < a.Length && !(offset <= k < offset + |src|) :: a[k] == old(a[k])
  {
    for k := 0 to |src|
      invariant forall j | 0 <= j < k :: a[offset + j] == src[j]
      invariant forall j | 0 <= j < a.Length && !(offset <= j < offset + k) :: a[j] == old(a[j])
    {
      a[offset + k] := src[k];
    }
  }
}
