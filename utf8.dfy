/**
 * UTF-8 as Python's str.encode("utf-8") / bytes.decode("utf-8") apply it: the encoder maps each
 * Unicode scalar value to its shortest form, the decoder accepts exactly the well-formed byte
 * sequences of table 3-7 of the Unicode Standard (no overlong forms, no surrogates, nothing
 * above U+10FFFF) and fails on anything else.
 */
module Utf8 {
  import opened Bytes

  function EncodeChar(c: char): (r: seq<byte>)
    ensures 1 <= |r| <= 4
  {
    var n := c as int;
    if n < 0x80 then [n]
    else if n < 0x800 then [0xC0 + n / 64, 0x80 + n % 64]
    else if n < 0x10000 then [0xE0 + n / 4096, 0x80 + (n / 64) % 64, 0x80 + n % 64]
    else [0xF0 + n / 262144, 0x80 + (n / 4096) % 64, 0x80 + (n / 64) % 64, 0x80 + n % 64]
  }

  function Encode(s: string): (r: seq<byte>)
    ensures |r| >= |s|
  {
    if s == [] then [] else EncodeChar(s[0]) + Encode(s[1..])
  }

  predicate IsCont(x: byte) { 0x80 <= x <= 0xBF }

  /** The range the second byte must lie in after a three- or four-byte lead byte `b0`. */
  function SecondLow(b0: byte): byte { if b0 == 0xE0 then 0xA0 else if b0 == 0xF0 then 0x90 else 0x80 }
  function SecondHigh(b0: byte): byte { if b0 == 0xED then 0x9F else if b0 == 0xF4 then 0x8F else 0xBF }

  /** The character starting at `b[i]` and the index just after it, or None if ill-formed. */
  function DecodeCharAt(b: seq<byte>, i: nat): (r: Option<(char, nat)>)
    requires i < |b|
    ensures r.Some? ==> i < r.value.1 <= |b| && r.value.1 <= i + 4
  {
    var b0: int := b[i];
    if b0 < 0x80 then
      Some((b0 as char, i + 1))
    else if 0xC2 <= b0 <= 0xDF then
      if i + 1 < |b| && IsCont(b[i + 1]) then
        Some((Cp2(b0, b[i + 1]) as char, i + 2))
      else None
    else if 0xE0 <= b0 <= 0xEF then
      if i + 2 < |b| && SecondLow(b0) <= b[i + 1] <= SecondHigh(b0) && IsCont(b[i + 2]) then
        Some((Cp3(b0, b[i + 1], b[i + 2]) as char, i + 3))
      else None
    else if 0xF0 <= b0 <= 0xF4 then
      if i + 3 < |b| && SecondLow(b0) <= b[i + 1] <= SecondHigh(b0) && IsCont(b[i + 2]) && IsCont(b[i + 3]) then
        Some((Cp4(b0, b[i + 1], b[i + 2], b[i + 3]) as char, i + 4))
      else None
    else None
  }

  /** The code points denoted by two-, three- and four-byte forms. */
  function Cp2(b0: int, b1: int): int { (b0 - 0xC0) * 64 + (b1 - 0x80) }
  function Cp3(b0: int, b1: int, b2: int): int { (b0 - 0xE0) * 4096 + (b1 - 0x80) * 64 + (b2 - 0x80) }
  function Cp4(b0: int, b1: int, b2: int, b3: int): int
  {
    (b0 - 0xF0) * 262144 + (b1 - 0x80) * 4096 + (b2 - 0x80) * 64 + (b3 - 0x80)
  }

  function DecodeFrom(b: seq<byte>, i: nat): Option<string>
    requires i <= |b|
    decreases |b| - i
  {
    if i == |b| then Some([])
    else match DecodeCharAt(b, i)
      case None => None
      case Some((c, j)) =>
        match DecodeFrom(b, j)
        case None => None
        case Some(rest) => Some([c] + rest)
  }

  function Decode(b: seq<byte>): Option<string>
  {
    DecodeFrom(b, 0)
  }

  /** The decoder reads back every character the encoder writes. */
  lemma DecodeEncodeChar(c: char, b: seq<byte>, i: nat)
    requires i + |EncodeChar(c)| <= |b| && b[i..i + |EncodeChar(c)|] == EncodeChar(c)
    ensures DecodeCharAt(b, i) == Some((c, i + |EncodeChar(c)|))
  {
    var e := EncodeChar(c);
    var n := c as int;
    forall k | 0 <= k < |e| ensures b[i + k] == e[k] {
      assert b[i..i + |e|][k] == e[k];
    }
    if n < 0x80 {
    } else if n < 0x800 {
      assert b[i] == e[0] && b[i + 1] == e[1];
      DecodeTwo(c, b, i);
    } else if n < 0x10000 {
      assert b[i] == e[0] && b[i + 1] == e[1] && b[i + 2] == e[2];
      DecodeThree(c, b, i);
    } else {
      assert b[i] == e[0] && b[i + 1] == e[1] && b[i + 2] == e[2] && b[i + 3] == e[3];
      DecodeFour(c, b, i);
    }
  }

  lemma DecodeTwo(c: char, b: seq<byte>, i: nat)
    requires 0x80 <= c as int < 0x800 && i + 2 <= |b|
    requires b[i] == 0xC0 + (c as int) / 64 && b[i + 1] == 0x80 + (c as int) % 64
    ensures DecodeCharAt(b, i) == Some((c, i + 2))
  {
    Split2(c as int);
  }

  lemma DecodeThree(c: char, b: seq<byte>, i: nat)
    requires 0x800 <= c as int < 0x10000 && i + 3 <= |b|
    requires var n := c as int;
      b[i] == 0xE0 + n / 4096 && b[i + 1] == 0x80 + (n / 64) % 64 && b[i + 2] == 0x80 + n % 64
    ensures DecodeCharAt(b, i) == Some((c, i + 3))
  {
    Split3(c as int);
  }

  lemma DecodeFour(c: char, b: seq<byte>, i: nat)
    requires 0x10000 <= c as int && i + 4 <= |b|
    requires var n := c as int;
      && b[i] == 0xF0 + n / 262144 && b[i + 1] == 0x80 + (n / 4096) % 64
      && b[i + 2] == 0x80 + (n / 64) % 64 && b[i + 3] == 0x80 + n % 64
    ensures DecodeCharAt(b, i) == Some((c, i + 4))
  {
    Split4(c as int);
  }

  lemma Split2(n: int)
    requires 0x80 <= n < 0x800
    ensures 0xC2 <= 0xC0 + n / 64 <= 0xDF && Cp2(0xC0 + n / 64, 0x80 + n % 64) == n
  {
  }

  lemma Split3(n: int)
    requires 0x800 <= n < 0x10000 && !(0xD800 <= n < 0xE000)
    ensures var b0, b1, b2 := 0xE0 + n / 4096, 0x80 + (n / 64) % 64, 0x80 + n % 64;
      0xE0 <= b0 <= 0xEF && SecondLow(b0) <= b1 <= SecondHigh(b0) && Cp3(b0, b1, b2) == n
  {
    var q := n / 64;
    assert n == q * 64 + n % 64;
    assert q == (q / 64) * 64 + q % 64;
    assert n / 4096 == q / 64;
  }

  lemma Split4(n: int)
    requires 0x10000 <= n <= 0x10FFFF
    ensures var b0, b1, b2, b3 := 0xF0 + n / 262144, 0x80 + (n / 4096) % 64, 0x80 + (n / 64) % 64, 0x80 + n % 64;
      0xF0 <= b0 <= 0xF4 && SecondLow(b0) <= b1 <= SecondHigh(b0) && Cp4(b0, b1, b2, b3) == n
  {
    var q := n / 64;
    var r := q / 64;
    assert n == q * 64 + n % 64;
    assert q == r * 64 + q % 64;
    assert r == (r / 64) * 64 + r % 64;
    assert n / 4096 == r;
    assert n / 262144 == r / 64;
  }

  /** Decoding an encoded string gives the string back. */
  lemma DecodeEncode(s: string)
    ensures Decode(Encode(s)) == Some(s)
  {
    var b := Encode(s);
    assert b[0..|b|] == b;
    DecodeAfter(s, b, 0);
    assert DecodeFrom(b, |b|) == Some([]);
    assert s + [] == s;
  }

  /** The decoder accepts only the encoder's output: one character at a time. */
  lemma EncodeDecodeChar(b: seq<byte>, i: nat)
    requires i < |b| && DecodeCharAt(b, i).Some?
    ensures var (c, j) := DecodeCharAt(b, i).value; b[i..j] == EncodeChar(c)
  {
    var (c, j) := DecodeCharAt(b, i).value;
    var b0: int := b[i];
    if b0 < 0x80 {
    } else if b0 <= 0xDF {
      Join2(b0, b[i + 1]);
      assert b[i..j] == [b[i], b[i + 1]];
    } else if b0 <= 0xEF {
      Join3(b0, b[i + 1], b[i + 2]);
      assert b[i..j] == [b[i], b[i + 1], b[i + 2]];
    } else {
      Join4(b0, b[i + 1], b[i + 2], b[i + 3]);
      assert b[i..j] == [b[i], b[i + 1], b[i + 2], b[i + 3]];
    }
  }

  lemma Join2(b0: int, b1: int)
    requires 0xC2 <= b0 <= 0xDF && 0x80 <= b1 <= 0xBF
    ensures var n := Cp2(b0, b1); 0x80 <= n < 0x800 && n / 64 == b0 - 0xC0 && n % 64 == b1 - 0x80
  {
  }

  lemma Join3(b0: int, b1: int, b2: int)
    requires 0xE0 <= b0 <= 0xEF && SecondLow(b0) <= b1 <= SecondHigh(b0) && 0x80 <= b2 <= 0xBF
    ensures var n := Cp3(b0, b1, b2);
      0x800 <= n < 0x10000 && !(0xD800 <= n < 0xE000)
      && n / 4096 == b0 - 0xE0 && (n / 64) % 64 == b1 - 0x80 && n % 64 == b2 - 0x80
  {
    var n := Cp3(b0, b1, b2);
    assert n / 64 == (b0 - 0xE0) * 64 + (b1 - 0x80);
  }

  lemma Join4(b0: int, b1: int, b2: int, b3: int)
    requires 0xF0 <= b0 <= 0xF4 && SecondLow(b0) <= b1 <= SecondHigh(b0)
    requires 0x80 <= b2 <= 0xBF && 0x80 <= b3 <= 0xBF
    ensures var n := Cp4(b0, b1, b2, b3);
      0x10000 <= n <= 0x10FFFF && n / 262144 == b0 - 0xF0 && (n / 4096) % 64 == b1 - 0x80
      && (n / 64) % 64 == b2 - 0x80 && n % 64 == b3 - 0x80
  {
    var n := Cp4(b0, b1, b2, b3);
    assert n / 64 == ((b0 - 0xF0) * 64 + (b1 - 0x80)) * 64 + (b2 - 0x80);
    assert n / 4096 == (b0 - 0xF0) * 64 + (b1 - 0x80);
  }

  lemma {:induction false} EncodeDecodeFrom(b: seq<byte>, i: nat)
    requires i <= |b| && DecodeFrom(b, i).Some?
    ensures Encode(DecodeFrom(b, i).value) == b[i..]
    decreases |b| - i
  {
    if i < |b| {
      var (c, j) := DecodeCharAt(b, i).value;
      EncodeDecodeChar(b, i);
      EncodeDecodeFrom(b, j);
      var rest := DecodeFrom(b, j).value;
      assert ([c] + rest)[1..] == rest;
      assert b[i..] == b[i..j] + b[j..];
    }
  }

  /** Every byte sequence the decoder accepts is the encoding of what it returns. */
  lemma EncodeDecode(b: seq<byte>)
    requires Decode(b).Some?
    ensures Encode(Decode(b).value) == b
  {
    EncodeDecodeFrom(b, 0);
  }

  lemma {:induction false} EncodeAppend(s: string, t: string)
    ensures Encode(s + t) == Encode(s) + Encode(t)
  {
    if s == [] {
      assert s + t == t;
    } else {
      assert (s + t)[0] == s[0] && (s + t)[1..] == s[1..] + t;
      EncodeAppend(s[1..], t);
    }
  }

  /** ASCII characters encode as themselves, one byte each. */
  lemma {:induction false} EncodeAscii(s: string)
    requires forall k :: 0 <= k < |s| ==> s[k] as int < 0x80
    ensures |Encode(s)| == |s|
    ensures forall k :: 0 <= k < |s| ==> Encode(s)[k] == s[k] as int
  {
    if s != [] {
      EncodeAscii(s[1..]);
    }
  }

  /** `a` in front of a decoded text; a failed decoding stays failed. */
  function Prepend(a: string, r: Option<string>): Option<string>
  {
    match r
    case None => None
    case Some(y) => Some(a + y)
  }

  lemma PrependTwice(a: string, r: Option<string>)
    requires a != []
    ensures Prepend([a[0]], Prepend(a[1..], r)) == Prepend(a, r)
  {
    if r.Some? {
      assert a == [a[0]] + a[1..];
      assert [a[0]] + (a[1..] + r.value) == ([a[0]] + a[1..]) + r.value;
    }
  }

  /** One step of the decoder: a character read at `i`, then the rest from where it ends. */
  lemma DecodeStep(b: seq<byte>, i: nat, c: char, j: nat)
    requires i < |b| && j <= |b| && DecodeCharAt(b, i) == Some((c, j))
    ensures DecodeFrom(b, i) == Prepend([c], DecodeFrom(b, j))
  {
  }

  /** Where `a` is encoded, its first character is encoded and then the others. */
  lemma EncodedFront(a: string, b: seq<byte>, i: nat)
    requires a != [] && i + |Encode(a)| <= |b| && b[i..i + |Encode(a)|] == Encode(a)
    ensures var e, j := EncodeChar(a[0]), i + |EncodeChar(a[0])|;
      && j + |Encode(a[1..])| == i + |Encode(a)|
      && b[i..j] == e && b[j..j + |Encode(a[1..])|] == Encode(a[1..])
  {
    var e, rest := EncodeChar(a[0]), Encode(a[1..]);
    assert Encode(a) == e + rest;
    SliceParts(b, i, e, rest);
  }

  /** The first character of an encoded `a` decodes, and the rest of `a` is encoded after it. */
  lemma DecodeFirst(a: string, b: seq<byte>, i: nat) returns (j: nat)
    requires a != [] && i + |Encode(a)| <= |b| && b[i..i + |Encode(a)|] == Encode(a)
    ensures j + |Encode(a[1..])| == i + |Encode(a)| && b[j..j + |Encode(a[1..])|] == Encode(a[1..])
    ensures DecodeFrom(b, i) == Prepend([a[0]], DecodeFrom(b, j))
  {
    j := i + |EncodeChar(a[0])|;
    EncodedFront(a, b, i);
    DecodeEncodeChar(a[0], b, i);
    DecodeStep(b, i, a[0], j);
  }

  lemma PrependChain(a: string, x: Option<string>, y: Option<string>, z: Option<string>)
    requires a != [] && x == Prepend([a[0]], y) && y == Prepend(a[1..], z)
    ensures x == Prepend(a, z)
  {
    PrependTwice(a, z);
  }

  /** Decoding past the encoding of `a` reads `a` back and then goes on with what follows. */
  lemma {:induction false} DecodeAfter(a: string, b: seq<byte>, i: nat)
    requires i + |Encode(a)| <= |b| && b[i..i + |Encode(a)|] == Encode(a)
    ensures DecodeFrom(b, i) == Prepend(a, DecodeFrom(b, i + |Encode(a)|))
    decreases a
  {
    if a != [] {
      var j := DecodeFirst(a, b, i);
      DecodeAfter(a[1..], b, j);
      PrependChain(a, DecodeFrom(b, i), DecodeFrom(b, j), DecodeFrom(b, i + |Encode(a)|));
    } else {
      var r := DecodeFrom(b, i);
      assert Prepend(a, r) == r by {
        if r.Some? { assert a + r.value == r.value; }
      }
    }
  }
}
