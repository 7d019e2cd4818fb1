/** Bytes, powers of two and the integer widths the wire format talks about. */
module Bytes {

  /** One octet of a Python `bytes` / `bytearray` value. */
  type byte = x: int | 0 <= x < 256

  datatype Option<+T> = None | Some(value: T)

  /** A non-empty sequence is its front and its last element. */
  lemma SplitLast<T>(s: seq<T>)
    requires s != []
    ensures s[..|s| - 1] + [s[|s| - 1]] == s
  {
  }

  /** Where `x + y` stands in `b`, `x` stands and right after it `y`. */
  lemma SliceParts<T>(b: seq<T>, i: nat, x: seq<T>, y: seq<T>)
    requires i + |x| + |y| <= |b| && b[i..i + |x| + |y|] == x + y
    ensures b[i..i + |x|] == x && b[i + |x|..i + |x| + |y|] == y
  {
    assert b[i..i + |x|] == b[i..i + |x| + |y|][..|x|];
    assert b[i + |x|..i + |x| + |y|] == b[i..i + |x| + |y|][|x|..];
  }

  const TWO_7: int := 0x80
  const TWO_31: int := 0x8000_0000
  const TWO_32: int := 0x1_0000_0000
  const TWO_61: int := 0x2000_0000_0000_0000
  const TWO_63: int := 0x8000_0000_0000_0000
  const TWO_64: int := 0x1_0000_0000_0000_0000

  function Pow2(k: nat): (r: nat)
    ensures r >= 1
  {
    if k == 0 then 1 else 2 * Pow2(k - 1)
  }

  predicate IsInt32(n: int) { -TWO_31 <= n < TWO_31 }
  predicate IsInt64(n: int) { -TWO_63 <= n < TWO_63 }
  predicate IsUint32(n: int) { 0 <= n < TWO_32 }
  predicate IsUint64(n: int) { 0 <= n < TWO_64 }

  /** `width` bytes of `v`, least significant first (struct formats "<I", "<Q"). */
  function LittleEndian(v: nat, width: nat): (r: seq<byte>)
    ensures |r| == width
  {
    if width == 0 then [] else [v % 256] + LittleEndian(v / 256, width - 1)
  }

  /** The unsigned value of little-endian bytes (struct.unpack "<I", "<Q"). */
  function FromLittleEndian(bs: seq<byte>): nat
  {
    if bs == [] then 0 else bs[0] + 256 * FromLittleEndian(bs[1..])
  }

  /** The powers of two the wire format uses, spelled out. */
  lemma Pow2Values()
    ensures Pow2(7) == TWO_7 && Pow2(8) == 256
    ensures Pow2(31) == TWO_31 && Pow2(32) == TWO_32
    ensures Pow2(63) == TWO_63 && Pow2(64) == TWO_64
  {
    Pow2Seven();
    Pow2Eight();
    Pow2ThirtyTwo();
    Pow2SixtyFour();
  }

  lemma Pow2Sixteen()
    ensures Pow2(16) == 0x1_0000
  {
    Pow2Eight();
    Pow2Add(8, 8);
  }

  lemma Pow2ThirtyTwo()
    ensures Pow2(32) == TWO_32 && Pow2(31) == TWO_31
  {
    Pow2Sixteen();
    Pow2Add(16, 16);
    assert Pow2(32) == 2 * Pow2(31);
  }

  lemma Pow2SixtyFour()
    ensures Pow2(64) == TWO_64 && Pow2(63) == TWO_63
  {
    Pow2ThirtyTwo();
    Pow2Add(32, 32);
    assert Pow2(64) == 2 * Pow2(63);
  }

  lemma Pow2Seven()
    ensures Pow2(7) == 128
  {
  }

  lemma Pow2Eight()
    ensures Pow2(8) == 256
  {
  }

  lemma {:induction false} Pow2Add(a: nat, b: nat)
    ensures Pow2(a + b) == Pow2(a) * Pow2(b)
  {
    if a > 0 {
      Pow2Add(a - 1, b);
    }
  }

  lemma {:induction false} Pow2Mono(a: nat, b: nat)
    requires a <= b
    ensures Pow2(a) <= Pow2(b)
    decreases b
  {
    if a < b {
      Pow2Mono(a, b - 1);
    }
  }

  /** Reading back `width` little-endian bytes gives the value, for a value that fits. */
  lemma {:induction false} LittleEndianRoundTrip(v: nat, width: nat)
    requires v < Pow2(8 * width)
    ensures FromLittleEndian(LittleEndian(v, width)) == v
  {
    if width > 0 {
      Pow2Add(8, 8 * (width - 1));
      Pow2Eight();
      assert 8 * width == 8 + 8 * (width - 1);
      assert v / 256 < Pow2(8 * (width - 1));
      LittleEndianRoundTrip(v / 256, width - 1);
      assert LittleEndian(v, width)[1..] == LittleEndian(v / 256, width - 1);
    }
  }

  /** Any `width` bytes denote a value below 2^(8*width). */
  lemma {:induction false} FromLittleEndianBound(bs: seq<byte>)
    ensures FromLittleEndian(bs) < Pow2(8 * |bs|)
  {
    if bs != [] {
      FromLittleEndianBound(bs[1..]);
      Pow2Add(8, 8 * (|bs| - 1));
      Pow2Eight();
    }
  }
}
