/**
 * The form decoding of the configuration web page: `+` stands for a space (section 5.1 of the
 * WHATWG URL Standard, application/x-www-form-urlencoded) and `%` followed by two hex digits
 * for one octet (section 2.1 of RFC 3986). The octets are put together and read as UTF-8.
 */
module Web {
  import opened Bytes
  import opened PyStr
  import Utf8

  /** The octet of `%`. */
  const PERCENT: byte := 0x25

  predicate IsHexDigit(c: char)
  {
    '0' <= c <= '9' || 'a' <= c <= 'f' || 'A' <= c <= 'F'
  }

  function HexDigitValue(c: char): (v: nat)
    requires IsHexDigit(c)
    ensures v < 16
  {
    if c <= '9' then c as int - '0' as int
    else if c <= 'F' then c as int - 'A' as int + 10
    else c as int - 'a' as int + 10
  }

  predicate AllHex(d: string)
  {
    forall k :: 0 <= k < |d| ==> IsHexDigit(d[k])
  }

  /** The number the hex digits spell, most significant first. */
  function HexValue(d: string): (v: nat)
    requires AllHex(d)
  {
    if d == [] then 0 else HexValue(d[..|d| - 1]) * 16 + HexDigitValue(d[|d| - 1])
  }

  /**
   * Python's `int(x, 16)` on a slice of at most two characters: surrounding whitespace is
   * dropped, one sign may lead, and what remains must be hex digits; None where it raises
   * ValueError. (A `0x` prefix would need digits after it, which two characters cannot hold.)
   */
  function ParseHex(x: string): (r: Option<int>)
    requires |x| <= 2
  {
    var t := Strip(x);
    if t == [] then None
    else
      var digits := if t[0] == '+' || t[0] == '-' then t[1..] else t;
      if digits == [] || !AllHex(digits) then None
      else
        var v: int := HexValue(digits);
        Some(if t[0] == '-' then -v else v)
  }

  /** `bytes([int(part[:2], 16)])`: the octet, or None where either call raises. */
  function Escape(part: string): Option<byte>
  {
    match ParseHex(part[..Min(2, |part|)])
    case Some(v) => if 0 <= v < 256 then Some(v) else None
    case None => None
  }

  function Min(a: int, b: int): int { if a <= b then a else b }

  /** The octets one piece after a `%` contributes: the body of the loop, `try` and `except`. */
  function DecodePart(part: string): seq<byte>
  {
    match Escape(part)
    case Some(b) => [b] + Utf8.Encode(part[Min(2, |part|)..])
    case None => [PERCENT] + Utf8.Encode(part)
  }

  /** The octets of all the pieces after a `%`, in order. */
  function DecodeParts(parts: seq<string>): seq<byte>
  {
    if parts == [] then [] else DecodeParts(parts[..|parts| - 1]) + DecodePart(parts[|parts| - 1])
  }

  function PlusToSpace(s: string): string
  {
    Replace(s, "+", " ")
  }

  /** What `urldecode(s)` returns; None where the final UTF-8 decoding raises. */
  function Decoded(s: string): Option<string>
  {
    var t := PlusToSpace(s);
    var parts := Split(t, "%");
    if |parts| == 1 then Some(t)
    else Utf8.Decode(Utf8.Encode(parts[0]) + DecodeParts(parts[1..]))
  }

  /** `urldecode(s)`: the loop over the pieces after each `%`. */
  method UrlDecode(s: string) returns (r: Option<string>)
    ensures r == Decoded(s)
  {
    var t := Replace(s, "+", " ");
    var parts := Split(t, "%");
    if |parts| == 1 {
      return Some(t);
    }
    ghost var head := Utf8.Encode(parts[0]);
    var res := Utf8.Encode(parts[0]);
    assert parts[1..1] == [];
    for k := 1 to |parts|
      invariant res == head + DecodeParts(parts[1..k])
    {
      var part := parts[k];
      DecodePartsSnoc(parts[1..k], part);
      SliceSnoc(parts, 1, k);
      Associative(head, DecodeParts(parts[1..k]), DecodePart(part));
      var b := Escape(part);
      if b.Some? {
        res := res + ([b.value] + Utf8.Encode(part[Min(2, |part|)..]));
      } else {
        res := res + ([PERCENT] + Utf8.Encode(part));
      }
    }
    assert parts[1..|parts|] == parts[1..];
    r := Utf8.Decode(res);
  }

  // ---------------------------------------------------------------- properties

  /* `SliceSnoc` and `Associative` are stated apart from `UrlDecode`: asserted inline there,
     in that method's larger context, the two steps cost more than its proof may use. */

  lemma SliceSnoc(xs: seq<string>, i: nat, j: nat)
    requires i <= j < |xs|
    ensures xs[i..j + 1] == xs[i..j] + [xs[j]]
  {
  }

  lemma Associative(a: seq<byte>, b: seq<byte>, c: seq<byte>)
    ensures (a + b) + c == a + (b + c)
  {
  }

  lemma DecodePartsSnoc(ps: seq<string>, p: string)
    ensures DecodeParts(ps + [p]) == DecodeParts(ps) + DecodePart(p)
  {
    assert (ps + [p])[..|ps|] == ps;
  }

  /** `urldecode` in terms of the pieces of the split, once they are known. */
  lemma DecodedFromParts(s: string, parts: seq<string>)
    requires Split(PlusToSpace(s), "%") == parts && |parts| > 1
    ensures Decoded(s) == Utf8.Decode(Utf8.Encode(parts[0]) + DecodeParts(parts[1..]))
  {
  }

  /** Replacing a character that does not occur changes nothing. */
  lemma ReplaceAbsent(s: string, a: char, b: char)
    requires a != b && NoChar(s, a)
    ensures Replace(s, [a], [b]) == s
  {
    ReplaceChar(s, a, b);
  }

  /** After the first step no `+` is left, and every other character is where it was. */
  lemma PlusToSpaceSpec(s: string)
    ensures |PlusToSpace(s)| == |s| && NoChar(PlusToSpace(s), '+')
    ensures forall k :: 0 <= k < |s| ==> PlusToSpace(s)[k] == if s[k] == '+' then ' ' else s[k]
  {
    ReplaceChar(s, '+', ' ');
  }

  /** Every `+` becomes a space before `%` is looked at: a `+` and a space read the same. */
  lemma PlusIsSpace(s: string)
    ensures Decoded(PlusToSpace(s)) == Decoded(s)
  {
    PlusToSpaceSpec(s);
    ReplaceAbsent(PlusToSpace(s), '+', ' ');
  }

  /** Without a `%` the result is the input with `+` made a space, and never fails. */
  lemma NoPercent(s: string)
    requires NoChar(s, '%')
    ensures Decoded(s) == Some(PlusToSpace(s))
  {
    var t := PlusToSpace(s);
    PlusToSpaceSpec(s);
    forall j ensures !OccursAt(t, "%", j) {
      OccursChar(t, '%', j);
    }
    SplitNoSep(t, "%");
  }

  /** The text before the first `%` comes through verbatim, at the front of the result. */
  lemma PrefixVerbatim(s: string)
    requires Decoded(s).Some?
    ensures Split(PlusToSpace(s), "%")[0] <= Decoded(s).value
  {
    var parts := Split(PlusToSpace(s), "%");
    if |parts| > 1 {
      PrefixDecodes(parts[0], DecodeParts(parts[1..]));
    }
  }

  /** UTF-8 decoding of the encoding of `a` and more octets starts with `a`. */
  lemma PrefixDecodes(a: string, rest: seq<byte>)
    requires Utf8.Decode(Utf8.Encode(a) + rest).Some?
    ensures a <= Utf8.Decode(Utf8.Encode(a) + rest).value
  {
    var head := Utf8.Encode(a);
    var b := head + rest;
    assert b[0..|head|] == head;
    Utf8.DecodeAfter(a, b, 0);
  }

  /** Stripping a string that neither starts nor ends with whitespace leaves it as it is. */
  lemma StripNoSpace(x: string)
    requires x != [] && !IsSpace(x[0]) && !IsSpace(x[|x| - 1])
    ensures Strip(x) == x
  {
    assert SkipSpace(x, 0) == 0;
    assert TrimEnd(x, 0, |x|) == |x|;
    assert x[0..|x|] == x;
  }

  /** One or two hex digits read as the number they spell. */
  lemma ParseDigits(x: string)
    requires 1 <= |x| <= 2 && AllHex(x)
    ensures ParseHex(x) == Some(HexValue(x))
  {
    StripNoSpace(x);
  }

  /** A piece that starts with two hex digits gives the octet they spell, then the rest. */
  lemma EscapeTwoHex(part: string)
    requires |part| >= 2 && IsHexDigit(part[0]) && IsHexDigit(part[1])
    ensures Escape(part) == Some(HexDigitValue(part[0]) * 16 + HexDigitValue(part[1]))
    ensures DecodePart(part) == [HexDigitValue(part[0]) * 16 + HexDigitValue(part[1])] + Utf8.Encode(part[2..])
  {
    var x := part[..2];
    assert x[..|x| - 1] == [part[0]] && x[|x| - 1] == part[1];
    assert HexValue([part[0]]) == HexDigitValue(part[0]) by { assert [part[0]][..0] == []; }
    assert HexValue(x) == HexDigitValue(part[0]) * 16 + HexDigitValue(part[1]);
    ParseDigits(x);
  }

  /** A slice whose first character cannot start a number does not parse. */
  lemma ParseRejected(x: string)
    requires 1 <= |x| <= 2 && !IsHexDigit(x[0]) && !IsSpace(x[0]) && x[0] != '+' && x[0] != '-'
    ensures ParseHex(x).None?
  {
    assert SkipSpace(x, 0) == 0;
    var e := TrimEnd(x, 0, |x|);
    assert e > 0;
    assert Strip(x)[0] == x[0];
  }

  /** A piece whose first character cannot start a number, and an empty piece, keep the `%`. */
  lemma EscapeRejected(part: string)
    requires part == [] || (!IsHexDigit(part[0]) && !IsSpace(part[0]) && part[0] != '+' && part[0] != '-')
    ensures Escape(part).None?
    ensures DecodePart(part) == [PERCENT] + Utf8.Encode(part)
  {
    if part != [] {
      ParseRejected(part[..Min(2, |part|)]);
    }
  }

  /** Python's leniency: `% 7` reads as 0x07, `%+7` as 0x07 and `%-0` as 0x00, but `%-1` keeps
      the `%`: `bytes` refuses the value -1. */
  lemma ParseLenient(d: char)
    requires IsHexDigit(d)
    ensures ParseHex([' ', d]) == Some(HexDigitValue(d))
    ensures ParseHex(['+', d]) == Some(HexDigitValue(d))
    ensures ParseHex(['-', d]) == Some(-(HexDigitValue(d) as int))
  {
    var x1 := [' ', d];
    assert SkipSpace(x1, 0) == 1 by { assert SkipSpace(x1, 1) == 1; }
    assert TrimEnd(x1, 1, 2) == 2;
    assert Strip(x1) == [d];
    assert HexValue([d]) == HexDigitValue(d) by { assert [d][..0] == []; }
    StripNoSpace(['+', d]);
    assert ['+', d][1..] == [d];
    StripNoSpace(['-', d]);
    assert ['-', d][1..] == [d];
  }

  lemma EscapeLenient(d: char, rest: string)
    requires IsHexDigit(d)
    ensures Escape([' ', d] + rest) == Some(HexDigitValue(d))
    ensures Escape(['+', d] + rest) == Some(HexDigitValue(d))
    ensures Escape("-0" + rest) == Some(0)
    ensures Escape("-1" + rest).None?
  {
    ParseLenient(d);
    ParseLenient('0');
    ParseLenient('1');
    assert ([' ', d] + rest)[..2] == [' ', d];
    assert (['+', d] + rest)[..2] == ['+', d];
    assert ("-0" + rest)[..2] == ['-', '0'];
    assert ("-1" + rest)[..2] == ['-', '1'];
  }

  // ---------------------------------------------------------------- the inverse

  /** The upper-case hex digit of a number below 16. */
  function HexDigit(n: nat): (c: char)
    requires n < 16
    ensures IsHexDigit(c) && HexDigitValue(c) == n
  {
    if n < 10 then ('0' as int + n) as char else ('A' as int + n - 10) as char
  }

  /** `%XX` with upper-case hex digits, as section 2.1 of RFC 3986 recommends. */
  function HexPair(b: byte): (r: string)
    ensures |r| == 2 && IsHexDigit(r[0]) && IsHexDigit(r[1])
    ensures HexDigitValue(r[0]) * 16 + HexDigitValue(r[1]) == b
  {
    [HexDigit(b / 16), HexDigit(b % 16)]
  }

  /** The two hex digits of every octet. */
  function HexPairs(bs: seq<byte>): (r: seq<string>)
    ensures |r| == |bs| && forall i :: 0 <= i < |bs| ==> r[i] == HexPair(bs[i])
  {
    if bs == [] then [] else HexPairs(bs[..|bs| - 1]) + [HexPair(bs[|bs| - 1])]
  }

  /** Every octet percent-encoded: `%` then two hex digits, one after another. */
  function PercentEncode(bs: seq<byte>): string
  {
    Join([""] + HexPairs(bs), "%")
  }

  lemma {:induction false} DecodePairs(bs: seq<byte>)
    ensures DecodeParts(HexPairs(bs)) == bs
  {
    if bs != [] {
      var init, last := bs[..|bs| - 1], bs[|bs| - 1];
      assert init + [last] == bs;
      assert HexPairs(bs) == HexPairs(init) + [HexPair(last)];
      DecodePartsSnoc(HexPairs(init), HexPair(last));
      DecodePairs(init);
      DecodeHexPair(last);
    }
  }

  lemma DecodeHexPair(b: byte)
    ensures DecodePart(HexPair(b)) == [b]
  {
    var p := HexPair(b);
    EscapeTwoHex(p);
    assert p[2..] == [];
  }

  /** A percent-encoding has no `+`, and splits at `%` into "" and the digit pairs. */
  lemma SplitEncoded(bs: seq<byte>)
    ensures Split(PlusToSpace(PercentEncode(bs)), "%") == [""] + HexPairs(bs)
  {
    var xs := [""] + HexPairs(bs);
    forall k | 0 <= k < |xs| ensures NoChar(xs[k], '+') && NoChar(xs[k], '%') {
      if k > 0 {
        assert xs[k] == HexPair(bs[k - 1]);
      }
    }
    JoinNoChar(xs, "%", '+');
    ReplaceAbsent(PercentEncode(bs), '+', ' ');
    SplitJoinChar(xs, '%');
  }

  lemma DecodeEmpty()
    ensures Decoded("") == Some("")
  {
    assert PlusToSpace("") == "";
    assert Split("", "%") == [""];
  }

  /** Decoding a percent-encoding reads the octets themselves as UTF-8. */
  lemma DecodePercent(bs: seq<byte>)
    ensures Decoded(PercentEncode(bs)) == Utf8.Decode(bs)
  {
    var xs := [""] + HexPairs(bs);
    SplitEncoded(bs);
    if bs == [] {
      DecodeEmpty();
      assert PercentEncode(bs) == "";
    } else {
      DecodedFromParts(PercentEncode(bs), xs);
      assert xs[1..] == HexPairs(bs);
      DecodePairs(bs);
      assert Utf8.Encode(xs[0]) + bs == bs;
    }
  }

  /** Decoding undoes percent-encoding the UTF-8 of any text. */
  lemma DecodeEncode(s: string)
    ensures Decoded(PercentEncode(Utf8.Encode(s))) == Some(s)
  {
    DecodePercent(Utf8.Encode(s));
    Utf8.DecodeEncode(s);
  }

  /** A text with a single `%` and no `+`: the text before it, then the one piece after it. */
  lemma OnePercent(a: string, p: string)
    requires NoChar(a, '%') && NoChar(a, '+') && NoChar(p, '%') && NoChar(p, '+')
    ensures Decoded(a + "%" + p) == Utf8.Decode(Utf8.Encode(a) + DecodePart(p))
  {
    SplitOnePercent(a, p);
    DecodedFromParts(a + "%" + p, [a, p]);
    DecodePartsSnoc([], p);
    assert [a, p][1..] == [p] == [] + [p];
    assert DecodeParts([p]) == DecodePart(p);
  }

  lemma SplitOnePercent(a: string, p: string)
    requires NoChar(a, '%') && NoChar(a, '+') && NoChar(p, '%') && NoChar(p, '+')
    ensures Split(PlusToSpace(a + "%" + p), "%") == [a, p]
  {
    var t := a + "%" + p;
    assert NoChar(t, '+') by {
      forall i | 0 <= i < |t| ensures t[i] != '+' {
        if i > |a| { assert t[i] == p[i - |a| - 1]; }
      }
    }
    ReplaceAbsent(t, '+', ' ');
    IndexOfFirstChar(a, '%', p);
    assert t[..|a|] == a && t[|a| + 1..] == p;
    forall j ensures !OccursAt(p, "%", j) {
      OccursChar(p, '%', j);
    }
    SplitNoSep(p, "%");
    assert PlusToSpace(t) == t;
    assert Split(t, "%") == [t[..|a|]] + Split(t[|a| + 1..], "%");
  }

  /** Example: `+` reads as a space. */
  lemma ExamplePlus()
    ensures Decoded("a+b") == Some("a b")
  {
    NoPercent("a+b");
    PlusToSpaceSpec("a+b");
    assert PlusToSpace("a+b") == "a b";
  }

  /** Example: `%` before characters that are not hex digits stays as it is. */
  lemma ExampleNotHex()
    ensures Decoded("%zz") == Some("%zz")
  {
    OnePercent("", "zz");
    assert "" + "%" + "zz" == "%zz";
    EscapeRejected("zz");
    var e := Utf8.Encode("zz");
    assert Utf8.Encode("%zz") == [PERCENT] + e by {
      assert "%zz"[1..] == "zz";
    }
    assert Utf8.Encode("") + DecodePart("zz") == [PERCENT] + e;
    Utf8.DecodeEncode("%zz");
  }

  /** Example: an escape of an octet that is not UTF-8 on its own makes the decoding fail. */
  lemma ExampleNotUtf8()
    ensures Decoded("%FF") == None
  {
    OnePercent("", "FF");
    assert "" + "%" + "FF" == "%FF";
    EscapeTwoHex("FF");
    assert "FF"[2..] == [];
    assert Utf8.DecodeCharAt([255], 0) == None;
  }
}
