/**
 * The primitives of the protobuf wire format as pb.py writes them: base-128 varints, zigzag
 * and the two's-complement conversions of the signed integer types, field keys, and the
 * little-endian fixed-width fields. Python's integers are unbounded, so every shift, mask and
 * exclusive-or below is written out on unbounded `int`s: `n >> k` is `n / 2^k` (floor division
 * for a positive divisor, as Python's shift is), `n & (2^k - 1)` is `n % 2^k`.
 */
module Wire {
  import opened Bytes
  import opened Errors

  /** `_MAX_VARINT_BYTES`: the tenth byte of a varint must end it. */
  const MAX_VARINT_BYTES: nat := 10

  // ---------------------------------------------------------------- varints

  /**
   * The rest of a varint whose first `read` bytes have been consumed, starting at b[i]:
   * the value the remaining bytes contribute (least significant group first) and the index
   * just after the terminating byte.
   */
  function ReadVarintFrom(b: seq<byte>, i: nat, read: nat): Result<(nat, nat)>
    requires read < MAX_VARINT_BYTES
    decreases |b| - i
  {
    if i >= |b| then Err(TruncatedVarint)
    else if b[i] < 128 then Ok((b[i], i + 1))
    else if read + 1 >= MAX_VARINT_BYTES then Err(VarintTooLong)
    else match ReadVarintFrom(b, i + 1, read + 1)
      case Err(e) => Err(e)
      case Ok((rest, j)) => Ok((b[i] - 128 + 128 * rest, j))
  }

  /** `_read_varint(b, i)` as a value: the number and the index after it, or the error. */
  function ReadVarintAt(b: seq<byte>, i: nat): Result<(nat, nat)>
  {
    ReadVarintFrom(b, i, 0)
  }

  /** A partial result `r` of the bytes after the first `shift / 7`, put above the bits `low`. */
  function Shifted(r: Result<(nat, nat)>, low: nat, shift: nat): Result<(nat, nat)>
  {
    match r
    case Err(e) => Err(e)
    case Ok((v, j)) => Ok((low + Pow2(shift) * v, j))
  }

  /** `_read_varint`: the loop over the bytes with its `shift`, `n` and `read` counters. */
  method ReadVarint(b: seq<byte>, start: nat) returns (r: Result<(nat, nat)>)
    ensures r == ReadVarintAt(b, start)
  {
    var shift: nat := 0;
    var n: nat := 0;
    var read: nat := 0;
    var i := start;
    var blen := |b|;
    while true
      invariant read < MAX_VARINT_BYTES && shift == 7 * read && i == start + read
      invariant n < Pow2(shift)
      invariant ReadVarintAt(b, start) == Shifted(ReadVarintFrom(b, i, read), n, shift)
      decreases MAX_VARINT_BYTES - read
    {
      if i >= blen {
        return Err(TruncatedVarint);
      }
      var c := b[i];
      ghost var low := n;
      i := i + 1;
      read := read + 1;
      // n |= (c & 0x7F) << shift: the new bits lie above the old ones, so | adds them
      n := n + (c % 128) * Pow2(shift);
      if c < 128 {
        StopStep(b, i - 1, read - 1, low, shift);
        break;
      }
      if read >= MAX_VARINT_BYTES {
        assert ReadVarintFrom(b, i - 1, read - 1) == Err(VarintTooLong);
        return Err(VarintTooLong);
      }
      ContinueStep(b, i - 1, read - 1, low, shift);
      shift := shift + 7;
    }
    return Ok((n, i));
  }

  /** A byte without the continuation bit ends the varint: its seven bits go on top. */
  lemma StopStep(b: seq<byte>, i: nat, read: nat, low: nat, shift: nat)
    requires i < |b| && b[i] < 128 && read < MAX_VARINT_BYTES
    ensures Shifted(ReadVarintFrom(b, i, read), low, shift) == Ok((low + (b[i] % 128) * Pow2(shift), i + 1))
  {
    assert ReadVarintFrom(b, i, read) == Ok((b[i] as nat, i + 1));
  }

  /** One byte with the continuation bit: its seven bits go above the `shift` bits read so far. */
  lemma ContinueStep(b: seq<byte>, i: nat, read: nat, low: nat, shift: nat)
    requires i < |b| && b[i] >= 128 && read + 1 < MAX_VARINT_BYTES && low < Pow2(shift)
    ensures low + (b[i] % 128) * Pow2(shift) < Pow2(shift + 7)
    ensures Shifted(ReadVarintFrom(b, i, read), low, shift)
         == Shifted(ReadVarintFrom(b, i + 1, read + 1), low + (b[i] % 128) * Pow2(shift), shift + 7)
  {
    SevenMore(shift);
    BitsAbove(low, b[i] % 128, Pow2(shift));
    var r := ReadVarintFrom(b, i + 1, read + 1);
    if r.Ok? {
      Regroup(low, b[i] % 128, Pow2(shift), r.value.0);
    }
  }

  lemma SevenMore(shift: nat)
    ensures Pow2(shift + 7) == Pow2(shift) * 128
  {
    Pow2Add(shift, 7);
    Pow2Values();
  }

  lemma BitsAbove(low: nat, c: nat, p: nat)
    requires low < p && c < 128
    ensures low + c * p < p * 128
  {
  }

  lemma Regroup(low: nat, c: nat, p: nat, v: nat)
    ensures low + p * (c + 128 * v) == (low + c * p) + (p * 128) * v
  {
  }

  /** The bytes `_write_varint` emits for a non-negative number: seven bits at a time, the
      continuation bit 0x80 set on every byte but the last. */
  function VarintBytes(n: nat): seq<byte>
    decreases n
  {
    if n < 128 then [n] else [n % 128 + 128] + VarintBytes(n / 128)
  }

  /** `_write_varint(n)` as a value: the error for a negative number. */
  function EncodeVarint(n: int): Result<seq<byte>>
  {
    if n < 0 then Err(NegativeVarint) else Ok(VarintBytes(n))
  }

  /** `_write_varint`: the loop that shifts `n` right seven bits at a time. */
  method WriteVarint(n0: int) returns (r: Result<seq<byte>>)
    ensures r == EncodeVarint(n0)
  {
    if n0 < 0 {
      return Err(NegativeVarint);
    }
    var n: nat := n0;
    var out: seq<byte> := [];
    while true
      invariant out + VarintBytes(n) == VarintBytes(n0)
      decreases n
    {
      var toWrite := n % 128;
      n := n / 128;
      if n != 0 {
        out := out + [toWrite + 128];
      } else {
        out := out + [toWrite];
        break;
      }
    }
    return Ok(out);
  }

  /** Every varint has at least one byte; the last byte has the high bit clear and all the
      others have it set. */
  lemma {:induction false} VarintBytesShape(n: nat)
    ensures |VarintBytes(n)| >= 1
    ensures VarintBytes(n)[|VarintBytes(n)| - 1] < 128
    ensures forall k :: 0 <= k < |VarintBytes(n)| - 1 ==> VarintBytes(n)[k] >= 128
    decreases n
  {
    if n >= 128 {
      VarintBytesShape(n / 128);
    }
  }

  /** A number takes at most k varint bytes exactly when it is below 2^(7k). */
  lemma {:induction false} VarintLength(n: nat, k: nat)
    requires k >= 1
    ensures |VarintBytes(n)| <= k <==> n < Pow2(7 * k)
    decreases k
  {
    Pow2Seven();
    if k > 1 {
      Pow2Add(7, 7 * (k - 1));
      assert Pow2(7 * k) == 128 * Pow2(7 * (k - 1));
      if n >= 128 {
        VarintLength(n / 128, k - 1);
      }
    }
  }

  /** Every uint64 takes between 1 and 10 bytes, all but the last with the continuation bit. */
  lemma VarintBytesUint64(n: nat)
    requires IsUint64(n)
    ensures 1 <= |VarintBytes(n)| <= MAX_VARINT_BYTES
    ensures forall k :: 0 <= k < |VarintBytes(n)| - 1 ==> VarintBytes(n)[k] >= 128
    ensures VarintBytes(n)[|VarintBytes(n)| - 1] < 128
  {
    VarintBytesShape(n);
    Pow2Values();
    Pow2Add(64, 6);
    VarintLength(n, MAX_VARINT_BYTES);
  }

  /** Reading at b[i] the bytes written for n gives n back, with the index just past them. */
  lemma {:induction false} ReadVarintFromBytes(n: nat, b: seq<byte>, i: nat, read: nat)
    requires read < MAX_VARINT_BYTES && read + |VarintBytes(n)| <= MAX_VARINT_BYTES
    requires i + |VarintBytes(n)| <= |b| && b[i..i + |VarintBytes(n)|] == VarintBytes(n)
    ensures ReadVarintFrom(b, i, read) == Ok((n, i + |VarintBytes(n)|))
    decreases n
  {
    var w := VarintBytes(n);
    assert b[i] == w[0];
    if n >= 128 {
      var w' := VarintBytes(n / 128);
      assert w == [n % 128 + 128] + w';
      assert b[i + 1..i + 1 + |w'|] == w[1..];
      ReadVarintFromBytes(n / 128, b, i + 1, read + 1);
    }
  }

  /** The varint round trip at any position: a uint64 written at i reads back as itself, with
      the index e just past its bytes. */
  lemma ReadWriteVarintAt(n: nat, b: seq<byte>, i: nat, e: nat)
    requires IsUint64(n)
    requires e == i + |VarintBytes(n)| <= |b| && b[i..e] == VarintBytes(n)
    ensures ReadVarintAt(b, i) == Ok((n, e))
  {
    VarintBytesUint64(n);
    ReadVarintFromBytes(n, b, i, 0);
  }

  /** `_read_varint(_write_varint(n) + rest, 0) == (n, len(_write_varint(n)))` for a uint64 n. */
  lemma ReadWriteVarint(n: nat, rest: seq<byte>)
    requires IsUint64(n)
    ensures ReadVarintAt(VarintBytes(n) + rest, 0) == Ok((n, |VarintBytes(n)|))
  {
    var b := VarintBytes(n) + rest;
    assert b[0..|VarintBytes(n)|] == VarintBytes(n);
    ReadWriteVarintAt(n, b, 0, |VarintBytes(n)|);
  }

  /** A successful read consumes between one and the remaining `MAX_VARINT_BYTES - read` bytes
      of the buffer, and its value has seven bits per byte consumed. */
  lemma {:induction false} ReadVarintFromBounds(b: seq<byte>, i: nat, read: nat)
    requires read < MAX_VARINT_BYTES && ReadVarintFrom(b, i, read).Ok?
    ensures var (v, j) := ReadVarintFrom(b, i, read).value;
      i < j <= |b| && j - i <= MAX_VARINT_BYTES - read && v < Pow2(7 * (j - i))
    decreases |b| - i
  {
    Pow2Seven();
    if b[i] >= 128 {
      ReadVarintFromBounds(b, i + 1, read + 1);
      var (rest, j) := ReadVarintFrom(b, i + 1, read + 1).value;
      BoundsStep(b[i], rest, j - i - 1);
    }
  }

  /** A byte with the continuation bit below a value of k groups makes a value of k + 1 groups. */
  lemma BoundsStep(c: nat, rest: nat, k: nat)
    requires 128 <= c < 256 && rest < Pow2(7 * k)
    ensures c - 128 + 128 * rest < Pow2(7 * (k + 1))
  {
    Pow2Seven();
    Pow2Add(7, 7 * k);
    assert 7 * (k + 1) == 7 + 7 * k;
  }

  /** On success `_read_varint` returns an index past `i`, within the buffer and at most ten
      bytes on, and a value below 2^70. */
  lemma ReadVarintBounds(b: seq<byte>, i: nat)
    requires ReadVarintAt(b, i).Ok?
    ensures var (v, j) := ReadVarintAt(b, i).value;
      i < j <= |b| && j <= i + MAX_VARINT_BYTES && v < Pow2(7 * (j - i)) && v < Pow2(70)
  {
    ReadVarintFromBounds(b, i, 0);
    var (v, j) := ReadVarintAt(b, i).value;
    Pow2Mono(7 * (j - i), 70);
  }

  /** The two ways a varint read fails, each exactly characterised: the buffer ends while every
      byte so far carries the continuation bit ("truncated varint"), or ten bytes in a row carry
      it ("varint too long"). No other error is possible. */
  lemma {:induction false} ReadVarintFromErrors(b: seq<byte>, i: nat, read: nat)
    requires read < MAX_VARINT_BYTES
    ensures var r, lim := ReadVarintFrom(b, i, read), MAX_VARINT_BYTES - read;
      && (r == Err(TruncatedVarint) <==> |b| < i + lim && forall k :: i <= k < |b| ==> b[k] >= 128)
      && (r == Err(VarintTooLong) <==> i + lim <= |b| && forall k :: i <= k < i + lim ==> b[k] >= 128)
      && (r.Err? ==> r.error == TruncatedVarint || r.error == VarintTooLong)
    decreases |b| - i
  {
    if i < |b| && b[i] >= 128 && read + 1 < MAX_VARINT_BYTES {
      ReadVarintFromErrors(b, i + 1, read + 1);
    }
  }

  lemma ReadVarintErrors(b: seq<byte>, i: nat)
    ensures var r := ReadVarintAt(b, i);
      && (r == Err(TruncatedVarint) <==>
          |b| < i + MAX_VARINT_BYTES && forall k :: i <= k < |b| ==> b[k] >= 128)
      && (r == Err(VarintTooLong) <==>
          i + MAX_VARINT_BYTES <= |b| && forall k :: i <= k < i + MAX_VARINT_BYTES ==> b[k] >= 128)
      && (r.Err? ==> r.error == TruncatedVarint || r.error == VarintTooLong)
  {
    ReadVarintFromErrors(b, i, 0);
  }

  // ---------------------------------------------------------------- exclusive-or and zigzag

  /** Bitwise exclusive-or of two non-negative integers. */
  function NatXor(a: nat, b: nat): nat
    decreases a + b
  {
    if a == 0 && b == 0 then 0 else (a + b) % 2 + 2 * NatXor(a / 2, b / 2)
  }

  /** Python's `^` on integers, which behave as infinite two's-complement bit strings:
      with ~x == -x - 1 on both sides, ~a ^ ~b == a ^ b and ~a ^ b == ~(a ^ b). */
  function IntXor(a: int, b: int): int
  {
    if a >= 0 && b >= 0 then NatXor(a, b)
    else if a < 0 && b < 0 then NatXor(-a - 1, -b - 1)
    else if a < 0 then -(NatXor(-a - 1, b) as int) - 1
    else -(NatXor(a, -b - 1) as int) - 1
  }

  lemma {:induction false} NatXorZero(a: nat)
    ensures NatXor(a, 0) == a
    decreases a
  {
    if a > 0 {
      NatXorZero(a / 2);
    }
  }

  /** `zigzag_encode`: (n << 1) ^ (n >> 63). Never negative, whatever n is. */
  function ZigzagEncode(n: int): (r: int)
    ensures r >= 0
  {
    IntXor(2 * n, n / TWO_63)
  }

  /** `zigzag_decode`: (n >> 1) ^ -(n & 1). */
  function ZigzagDecode(n: int): int
  {
    IntXor(n / 2, -(n % 2))
  }

  /** x ^ 0 == x and x ^ -1 == ~x. */
  lemma XorZeroAndMinusOne(a: int)
    ensures IntXor(a, 0) == a && IntXor(a, -1) == -a - 1
  {
    if a >= 0 {
      NatXorZero(a);
    } else {
      NatXorZero(-a - 1);
    }
  }

  /** Zigzag maps every int64 into [0, 2^64) and back: 0, -1, 1, -2, ... become 0, 1, 2, 3, ... */
  lemma ZigzagRoundTrip(n: int)
    requires IsInt64(n)
    ensures 0 <= ZigzagEncode(n) < TWO_64
    ensures ZigzagEncode(n) == if n >= 0 then 2 * n else -2 * n - 1
    ensures ZigzagDecode(ZigzagEncode(n)) == n
  {
    XorZeroAndMinusOne(2 * n);
    if n >= 0 {
      XorZeroAndMinusOne(n);
      assert ZigzagDecode(2 * n) == IntXor(n, 0);
    } else {
      assert n / TWO_63 == -1;
      OddHalf(-2 * n - 1, -n - 1);
      XorZeroAndMinusOne(-n - 1);
      assert ZigzagDecode(-2 * n - 1) == IntXor(-n - 1, -1);
    }
  }

  /** And the other way: every uint64 is the zigzag code of exactly one int64. */
  lemma ZigzagDecodeRoundTrip(u: int)
    requires IsUint64(u)
    ensures IsInt64(ZigzagDecode(u)) && ZigzagEncode(ZigzagDecode(u)) == u
  {
    var m := u / 2;
    XorZeroAndMinusOne(m);
    if u % 2 == 0 {
      assert ZigzagDecode(u) == m;
      ZigzagRoundTrip(m);
    } else {
      assert ZigzagDecode(u) == -m - 1;
      ZigzagRoundTrip(-m - 1);
    }
  }

  /** `_zz32`: the 32-bit zigzag code, after the int32 range check. */
  function Zz32(n: int): (r: Result<nat>)
    ensures r.Ok? <==> IsInt32(n)
    ensures r.Err? ==> r.error == Sint32OutOfRange
    ensures r.Ok? ==> r.value < TWO_32
  {
    if n < -TWO_31 || n > TWO_31 - 1 then Err(Sint32OutOfRange)
    else Ok(IntXor(2 * n, n / TWO_31) % TWO_32)
  }

  /** `_i32_from_uvarint`: the low 32 bits, read as a signed int32. */
  function I32FromUvarint(v: int): (r: int)
    ensures IsInt32(r) && (r - v) % TWO_32 == 0
  {
    var w := v % TWO_32;
    if w >= TWO_31 then w - TWO_32 else w
  }

  /** `_i64_from_uvarint`: a uint64 read as a signed int64 (no masking of wider values). */
  function I64FromUvarint(v: int): int
  {
    if v >= TWO_63 then v - TWO_64 else v
  }

  /** `_i32_to_uvarint`: a negative int32 is sign-extended to 64 bits, so it takes ten bytes. */
  function I32ToUvarint(n: int): (u: nat)
    ensures IsUint64(u) && (u - n) % TWO_32 == 0
    ensures n < 0 ==> u >= TWO_64 - TWO_32
  {
    // (n & 0xFFFFFFFF) | 0xFFFFFFFF00000000: the two masks share no bit, so | adds them
    if n < 0 then n % TWO_32 + (TWO_64 - TWO_32) else n % TWO_32
  }

  /** sint32 round trip: `_zz32` accepts exactly the int32 range, and decoding its code gives
      the number back. */
  lemma Zz32RoundTrip(n: int)
    requires IsInt32(n)
    ensures I32FromUvarint(ZigzagDecode(Zz32(n).value)) == n
  {
    var z: nat;
    if n >= 0 {
      Zz32NonNegative(n);
      z := 2 * n;
    } else {
      Zz32Negative(n);
      z := -2 * n - 1;
    }
    assert Zz32(n).value == z;
    assert ZigzagDecode(z) == n;
  }

  lemma Zz32NonNegative(n: int)
    requires 0 <= n < TWO_31
    ensures Zz32(n) == Ok(2 * n) && ZigzagDecode(2 * n) == n && I32FromUvarint(n) == n
  {
    assert n % TWO_32 == n;
    assert n / TWO_31 == 0;
    XorZeroAndMinusOne(2 * n);
    assert (2 * n) % TWO_32 == 2 * n;
    XorZeroAndMinusOne(n);
    assert ZigzagDecode(2 * n) == IntXor(n, 0);
  }

  lemma Zz32Negative(n: int)
    requires -TWO_31 <= n < 0
    ensures Zz32(n) == Ok(-2 * n - 1) && ZigzagDecode(-2 * n - 1) == n && I32FromUvarint(n) == n
  {
    assert n / TWO_31 == -1;
    XorZeroAndMinusOne(2 * n);
    var z := -2 * n - 1;
    assert IntXor(2 * n, n / TWO_31) == z;
    assert 0 < z < TWO_32;
    assert z % TWO_32 == z;
    OddHalf(-2 * n - 1, -n - 1);
    XorZeroAndMinusOne(-n - 1);
    assert ZigzagDecode(-2 * n - 1) == IntXor(-n - 1, -1);
    assert n % TWO_32 == n + TWO_32;
  }

  lemma OddHalf(z: int, m: int)
    requires z == 2 * m + 1
    ensures z / 2 == m && z % 2 == 1
  {
  }

  /** int32 round trip through the 64-bit two's-complement varint value. */
  lemma I32RoundTrip(n: int)
    requires IsInt32(n)
    ensures I32FromUvarint(I32ToUvarint(n)) == n
  {
  }

  /** int64 round trip: `_i64_from_uvarint(n & 0xFFFFFFFFFFFFFFFF) == n`. */
  lemma I64RoundTrip(n: int)
    requires IsInt64(n)
    ensures IsUint64(n % TWO_64) && I64FromUvarint(n % TWO_64) == n
  {
  }

  // ---------------------------------------------------------------- keys

  /** `_write_key(field, wt)`: the varint of (field << 3) | wt, which for a wire type below 8
      is field * 8 + wt; a negative field number makes `_write_varint` raise. */
  function WriteKey(field: int, wt: nat): (r: Result<seq<byte>>)
    requires wt < 8
    ensures r.Ok? <==> field >= 0
  {
    EncodeVarint(field * 8 + wt)
  }

  /** A key written for a field number below 2^61 reads back as that field and wire type
      (`key >> 3`, `key & 7`), whatever follows it. */
  lemma ReadWriteKey(field: nat, wt: nat, b: seq<byte>, i: nat)
    requires wt < 8 && field < TWO_61
    requires var k := WriteKey(field, wt).value; i + |k| <= |b| && b[i..i + |k|] == k
    ensures var k := WriteKey(field, wt).value;
      ReadVarintAt(b, i).Ok? && ReadVarintAt(b, i).value.1 == i + |k|
      && ReadVarintAt(b, i).value.0 / 8 == field && ReadVarintAt(b, i).value.0 % 8 == wt
  {
    ReadWriteVarintAt(field * 8 + wt, b, i, i + |WriteKey(field, wt).value|);
  }

  // ---------------------------------------------------------------- fixed-width fields

  /** `_read_fixed32`: four little-endian bytes, or "truncated fixed32". */
  function ReadFixed32(b: seq<byte>, i: nat): (r: Result<(nat, nat)>)
    ensures r.Err? <==> i + 4 > |b|
    ensures r.Ok? ==> IsUint32(r.value.0) && r.value.1 == i + 4
  {
    if i + 4 > |b| then Err(TruncatedFixed32)
    else
      FixedBound(b[i..i + 4]);
      Ok((FromLittleEndian(b[i..i + 4]), i + 4))
  }

  /** `_read_fixed64`: eight little-endian bytes, or "truncated fixed64". */
  function ReadFixed64(b: seq<byte>, i: nat): (r: Result<(nat, nat)>)
    ensures r.Err? <==> i + 8 > |b|
    ensures r.Ok? ==> IsUint64(r.value.0) && r.value.1 == i + 8
  {
    if i + 8 > |b| then Err(TruncatedFixed64)
    else
      FixedBound(b[i..i + 8]);
      Ok((FromLittleEndian(b[i..i + 8]), i + 8))
  }

  lemma FixedBound(bs: seq<byte>)
    ensures |bs| == 4 ==> FromLittleEndian(bs) < TWO_32
    ensures |bs| == 8 ==> FromLittleEndian(bs) < TWO_64
  {
    FromLittleEndianBound(bs);
    Pow2Values();
  }

  /** `struct.pack("<I", v)`; `struct.error` outside [0, 2^32). */
  function WriteFixed32(v: int): (r: Result<seq<byte>>)
    ensures r.Ok? <==> IsUint32(v)
    ensures r.Ok? ==> |r.value| == 4
  {
    if IsUint32(v) then Ok(LittleEndian(v, 4)) else Err(StructRange)
  }

  /** `struct.pack("<Q", v)`; `struct.error` outside [0, 2^64). */
  function WriteFixed64(v: int): (r: Result<seq<byte>>)
    ensures r.Ok? <==> IsUint64(v)
    ensures r.Ok? ==> |r.value| == 8
  {
    if IsUint64(v) then Ok(LittleEndian(v, 8)) else Err(StructRange)
  }

  /** `struct.pack("<i", v)`: the two's-complement bytes of an int32. */
  function WriteSfixed32(v: int): (r: Result<seq<byte>>)
    ensures r.Ok? <==> IsInt32(v)
    ensures r.Ok? ==> |r.value| == 4
  {
    if IsInt32(v) then Ok(LittleEndian(v % TWO_32, 4)) else Err(StructRange)
  }

  /** `struct.pack("<q", v)`: the two's-complement bytes of an int64. */
  function WriteSfixed64(v: int): (r: Result<seq<byte>>)
    ensures r.Ok? <==> IsInt64(v)
    ensures r.Ok? ==> |r.value| == 8
  {
    if IsInt64(v) then Ok(LittleEndian(v % TWO_64, 8)) else Err(StructRange)
  }

  /** decode's sfixed32 conversion: `v - 0x100000000 if v >= 0x80000000 else v`. */
  function FromSfixed32(v: int): int
  {
    if v >= TWO_31 then v - TWO_32 else v
  }

  /** decode's sfixed64 conversion: `v - 0x10000000000000000 if v >= 0x8000000000000000 else v`. */
  function FromSfixed64(v: int): int
  {
    if v >= TWO_63 then v - TWO_64 else v
  }

  /** The four bytes written for a uint32 read back as it, at any position. */
  lemma Fixed32RoundTrip(v: int, b: seq<byte>, i: nat)
    requires IsUint32(v) && i + 4 <= |b| && b[i..i + 4] == WriteFixed32(v).value
    ensures ReadFixed32(b, i) == Ok((v, i + 4))
  {
    Pow2Values();
    LittleEndianRoundTrip(v, 4);
  }

  lemma Fixed64RoundTrip(v: int, b: seq<byte>, i: nat)
    requires IsUint64(v) && i + 8 <= |b| && b[i..i + 8] == WriteFixed64(v).value
    ensures ReadFixed64(b, i) == Ok((v, i + 8))
  {
    Pow2Values();
    LittleEndianRoundTrip(v, 8);
  }

  lemma Sfixed32RoundTrip(v: int, b: seq<byte>, i: nat)
    requires IsInt32(v) && i + 4 <= |b| && b[i..i + 4] == WriteSfixed32(v).value
    ensures ReadFixed32(b, i).Ok? && FromSfixed32(ReadFixed32(b, i).value.0) == v
    ensures ReadFixed32(b, i).value.1 == i + 4
  {
    Pow2Values();
    LittleEndianRoundTrip(v % TWO_32, 4);
  }

  lemma Sfixed64RoundTrip(v: int, b: seq<byte>, i: nat)
    requires IsInt64(v) && i + 8 <= |b| && b[i..i + 8] == WriteSfixed64(v).value
    ensures ReadFixed64(b, i).Ok? && FromSfixed64(ReadFixed64(b, i).value.0) == v
    ensures ReadFixed64(b, i).value.1 == i + 8
  {
    Pow2Values();
    LittleEndianRoundTrip(v % TWO_64, 8);
  }
}
