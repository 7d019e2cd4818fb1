/**
 * The Python `str` operations the rule store, the command tokenizer and the URL decoder rely on,
 * with Python's semantics: `in`, `split(sep)`, `sep.join`, `replace`, `strip`, `split(None, n)`,
 * ASCII `lower` and `str(int)`.
 */
module PyStr {
  import opened Bytes

  /** str.isspace for one character: the characters Python treats as whitespace. */
  predicate IsSpace(c: char)
  {
    var n := c as int;
    (0x09 <= n <= 0x0D) || (0x1C <= n <= 0x20) || n == 0x85 || n == 0xA0 || n == 0x1680
    || (0x2000 <= n <= 0x200A) || n == 0x2028 || n == 0x2029 || n == 0x202F || n == 0x205F
    || n == 0x3000
  }

  predicate AllSpace(s: string) { forall k :: 0 <= k < |s| ==> IsSpace(s[k]) }

  /** str.strip(): the text between the leading and the trailing whitespace. */
  function Strip(s: string): (r: string)
  {
    var a := SkipSpace(s, 0);
    s[a..TrimEnd(s, a, |s|)]
  }

  /** The least index e' in [lo, e] such that s[e'..e] is all whitespace. */
  function TrimEnd(s: string, lo: nat, e: nat): (e': nat)
    requires lo <= e <= |s|
    ensures lo <= e' <= e && (e' > lo ==> !IsSpace(s[e' - 1]))
    ensures forall k :: e' <= k < e ==> IsSpace(s[k])
    decreases e
  {
    if e > lo && IsSpace(s[e - 1]) then TrimEnd(s, lo, e - 1) else e
  }

  /** Stripping removes only whitespace, and only from the two ends, and leaves none there. */
  lemma StripSpec(s: string)
    ensures var r := Strip(s);
      (r != [] ==> !IsSpace(r[0]) && !IsSpace(r[|r| - 1]))
      && exists a :: 0 <= a && a + |r| <= |s| && s[a..a + |r|] == r
           && AllSpace(s[..a]) && AllSpace(s[a + |r|..])
  {
    var a := SkipSpace(s, 0);
    var e := TrimEnd(s, a, |s|);
    var r := Strip(s);
    assert r == s[a..e];
    assert AllSpace(s[..a]) by {
      forall k | 0 <= k < a ensures IsSpace(s[..a][k]) { assert s[..a][k] == s[k]; }
    }
    assert AllSpace(s[e..]) by {
      forall k | 0 <= k < |s| - e ensures IsSpace(s[e..][k]) { assert s[e..][k] == s[e + k]; }
    }
    if r != [] {
      assert r[0] == s[a] && r[|r| - 1] == s[e - 1];
    }
  }

  /** A string strips to "" exactly when it is all whitespace. */
  lemma StripEmpty(s: string)
    ensures Strip(s) == [] <==> AllSpace(s)
  {
    var a := SkipSpace(s, 0);
    var e := TrimEnd(s, a, |s|);
    if a < |s| {
      assert !IsSpace(s[a]);
      assert e > a;
    }
  }

  /** Stripping twice strips nothing more. */
  lemma StripIdempotent(s: string)
    ensures Strip(Strip(s)) == Strip(s)
  {
    var r := Strip(s);
    StripSpec(s);
    var a := SkipSpace(r, 0);
    if r != [] {
      assert a == 0;
      var e := TrimEnd(r, 0, |r|);
      assert e == |r|;
      assert r[0..|r|] == r;
    }
  }

  /** Is `p` found in `s` at position `k`? */
  predicate OccursAt(s: string, p: string, k: int)
  {
    0 <= k && k + |p| <= |s| && s[k..k + |p|] == p
  }

  /** The first position where `p` occurs in `s` (str.find), or None. */
  function IndexOf(s: string, p: string): (r: Option<nat>)
    ensures r.Some? ==> OccursAt(s, p, r.value) && forall j :: 0 <= j < r.value ==> !OccursAt(s, p, j)
    ensures r.None? ==> forall j :: !OccursAt(s, p, j)
    decreases |s|
  {
    if |s| < |p| then None
    else if s[..|p|] == p then Some(0)
    else
      var r := IndexOf(s[1..], p);
      assert forall j :: 1 <= j ==> (OccursAt(s, p, j) <==> OccursAt(s[1..], p, j - 1)) by {
        forall j | 1 <= j ensures OccursAt(s, p, j) <==> OccursAt(s[1..], p, j - 1) {
          if j + |p| <= |s| { TailSlice(s, j, |p|); }
        }
      }
      match r
      case None => None
      case Some(k) => Some(k + 1)
  }

  lemma TailSlice(s: string, j: nat, n: nat)
    requires 1 <= j && j + n <= |s|
    ensures s[j..j + n] == s[1..][j - 1..j - 1 + n]
  {
    var x, y := s[j..j + n], s[1..][j - 1..j - 1 + n];
    forall t | 0 <= t < n ensures x[t] == y[t] {
      assert x[t] == s[j + t] && y[t] == s[1..][j - 1 + t];
    }
  }

  /** Python's `p in s`. */
  predicate Contains(s: string, p: string)
  {
    IndexOf(s, p).Some?
  }

  /** Python's `s.split(sep)` for a non-empty separator. */
  function Split(s: string, sep: string): (r: seq<string>)
    requires sep != []
    ensures |r| >= 1
    decreases |s|
  {
    match IndexOf(s, sep)
    case None => [s]
    case Some(k) => [s[..k]] + Split(s[k + |sep|..], sep)
  }

  /** `sep.join(xs)`. */
  function Join(xs: seq<string>, sep: string): string
  {
    if xs == [] then "" else if |xs| == 1 then xs[0] else xs[0] + sep + Join(xs[1..], sep)
  }

  /** `"".join(xs)`. */
  function Concat(xs: seq<string>): string
  {
    if xs == [] then "" else xs[0] + Concat(xs[1..])
  }

  /** Joining the pieces of a split with the same separator gives back the string. */
  lemma {:induction false} JoinSplit(s: string, sep: string)
    requires sep != []
    ensures Join(Split(s, sep), sep) == s
    decreases |s|
  {
    var r := IndexOf(s, sep);
    if r.Some? {
      var k := r.value;
      var rest := s[k + |sep|..];
      var tail := Split(rest, sep);
      assert Split(s, sep) == [s[..k]] + tail;
      JoinSplit(rest, sep);
      JoinCons(s[..k], tail, sep);
      assert Join(tail, sep) == rest;
      SplitAround(s, k, |sep|);
      assert s[k..k + |sep|] == sep;
    }
  }

  lemma SplitAround(s: string, k: nat, n: nat)
    requires k + n <= |s|
    ensures s == s[..k] + s[k..k + n] + s[k + n..]
  {
  }

  lemma JoinCons(x: string, xs: seq<string>, sep: string)
    requires xs != []
    ensures Join([x] + xs, sep) == x + sep + Join(xs, sep)
  {
    assert ([x] + xs)[1..] == xs;
  }

  /** No piece of a split contains the separator. */
  lemma {:induction false} SplitPiecesFree(s: string, sep: string)
    requires sep != []
    ensures forall k :: 0 <= k < |Split(s, sep)| ==> !Contains(Split(s, sep)[k], sep)
    decreases |s|
  {
    match IndexOf(s, sep)
    case None =>
    case Some(k) =>
      SplitPiecesFree(s[k + |sep|..], sep);
      var head := s[..k];
      forall j ensures !OccursAt(head, sep, j) {
        if OccursAt(head, sep, j) {
          assert head[j..j + |sep|] == s[j..j + |sep|];
          assert OccursAt(s, sep, j);
        }
      }
      var r := Split(s, sep);
      assert r == [head] + Split(s[k + |sep|..], sep);
      forall i | 0 <= i < |r| ensures !Contains(r[i], sep) {
        if i > 0 { assert r[i] == Split(s[k + |sep|..], sep)[i - 1]; }
      }
  }

  /** A string with no occurrence of the separator splits into just itself. */
  lemma SplitNoSep(s: string, sep: string)
    requires sep != [] && !Contains(s, sep)
    ensures Split(s, sep) == [s]
  {
  }

  /** Python's `s.replace(pat, repl)`: every occurrence, left to right, none overlapping. */
  function Replace(s: string, pat: string, repl: string): (r: string)
    requires pat != []
    decreases |s|
  {
    match IndexOf(s, pat)
    case None => s
    case Some(k) => s[..k] + repl + Replace(s[k + |pat|..], pat, repl)
  }

  /** Replacing a single character by one that differs leaves no occurrence of it, keeps the
      length and changes nothing else. */
  lemma {:induction false} ReplaceChar(s: string, a: char, b: char)
    requires a != b
    ensures |Replace(s, [a], [b])| == |s|
    ensures forall k :: 0 <= k < |s| ==> Replace(s, [a], [b])[k] == if s[k] == a then b else s[k]
    decreases |s|
  {
    match IndexOf(s, [a])
    case None =>
      forall k | 0 <= k < |s| ensures s[k] != a {
        assert !OccursAt(s, [a], k);
        assert s[k..k + 1] == [s[k]];
      }
    case Some(k) =>
      forall j | 0 <= j < k ensures s[j] != a {
        assert !OccursAt(s, [a], j);
        assert s[j..j + 1] == [s[j]];
      }
      assert s[k..k + 1] == [a];
      ReplaceChar(s[k + 1..], a, b);
  }

  /** The characters, lowered: ASCII letters only (str.lower on ASCII text). */
  function Lower(s: string): (r: string)
    ensures |r| == |s|
    ensures forall k :: 0 <= k < |s| ==> r[k] == if 'A' <= s[k] <= 'Z' then (s[k] as int + 32) as char else s[k]
  {
    if s == [] then []
    else [if 'A' <= s[0] <= 'Z' then (s[0] as int + 32) as char else s[0]] + Lower(s[1..])
  }

  /** The first index at or after `i` that does not hold whitespace (or |s|). */
  function SkipSpace(s: string, i: nat): (j: nat)
    requires i <= |s|
    ensures i <= j <= |s| && (j < |s| ==> !IsSpace(s[j]))
    ensures forall k :: i <= k < j ==> IsSpace(s[k])
    decreases |s| - i
  {
    if i < |s| && IsSpace(s[i]) then SkipSpace(s, i + 1) else i
  }

  /** The first index at or after `i` that holds whitespace (or |s|). */
  function WordEnd(s: string, i: nat): (j: nat)
    requires i <= |s|
    ensures i <= j <= |s| && (j < |s| ==> IsSpace(s[j]))
    ensures forall k :: i <= k < j ==> !IsSpace(s[k])
    decreases |s| - i
  {
    if i < |s| && !IsSpace(s[i]) then WordEnd(s, i + 1) else i
  }

  /** Python's `s.split(None, maxsplit)`: whitespace-separated words, at most `maxsplit` splits;
      the remainder after the last split keeps its inner and trailing whitespace. */
  function SplitWs(s: string, maxsplit: nat): seq<string>
  {
    SplitWsFrom(s, 0, maxsplit)
  }

  function SplitWsFrom(s: string, i: nat, maxsplit: nat): seq<string>
    requires i <= |s|
    decreases |s| - i
  {
    var j := SkipSpace(s, i);
    if j == |s| then []
    else if maxsplit == 0 then [s[j..]]
    else
      var e := WordEnd(s, j);
      [s[j..e]] + SplitWsFrom(s, e, maxsplit - 1)
  }

  /** split(None, n) gives no tokens exactly for blank input. */
  lemma SplitWsBlank(s: string, maxsplit: nat)
    ensures SplitWs(s, maxsplit) == [] <==> AllSpace(s)
  {
    var j := SkipSpace(s, 0);
    if j < |s| {
      assert !IsSpace(s[j]);
    }
  }

  /** The tokens with the whitespace around them: ws[0] + r[0] + ws[1] + ... + r[|r| - 1] + ws[|r|]. */
  function Weave(ws: seq<string>, r: seq<string>): string
    requires |ws| == |r| + 1
    decreases r
  {
    if r == [] then ws[0] else ws[0] + r[0] + Weave(ws[1..], r[1..])
  }

  /** The gaps around n tokens: all whitespace, the ones between two tokens not empty. */
  predicate Gaps(ws: seq<string>, n: nat)
  {
    && |ws| == n + 1
    && (forall k :: 0 <= k < |ws| ==> AllSpace(ws[k]))
    && (forall k :: 0 < k < n ==> ws[k] != [])
  }

  /** Another gap and token in front of a woven string. */
  lemma WeaveCons(w: string, t: string, ws: seq<string>, r: seq<string>)
    requires |ws| == |r| + 1
    ensures Weave([w] + ws, [t] + r) == w + t + Weave(ws, r)
  {
    assert ([w] + ws)[1..] == ws && ([t] + r)[1..] == r;
  }

  /** A whitespace gap in front of the gaps of n tokens, not empty when a token follows. */
  lemma GapsCons(w: string, ws: seq<string>, n: nat)
    requires AllSpace(w) && Gaps(ws, n) && (n > 0 ==> ws[0] != [])
    ensures Gaps([w] + ws, n + 1)
  {
    assert forall k :: 1 <= k < |ws| + 1 ==> ([w] + ws)[k] == ws[k - 1];
  }

  lemma SpaceSlice(s: string, i: nat, j: nat)
    requires i <= j <= |s| && forall k :: i <= k < j ==> IsSpace(s[k])
    ensures AllSpace(s[i..j])
  {
    forall k | 0 <= k < j - i ensures IsSpace(s[i..j][k]) { assert s[i..j][k] == s[i + k]; }
  }

  /** A gap s[i..j] and a word s[j..e] in front of the layout from e. */
  lemma LayoutStep(s: string, i: nat, j: nat, e: nat, ws: seq<string>, r: seq<string>)
    requires i <= j <= e <= |s| && AllSpace(s[i..j])
    requires Gaps(ws, |r|) && s[e..] == Weave(ws, r) && (r != [] ==> ws[0] != [])
    ensures Gaps([s[i..j]] + ws, |r| + 1) && s[i..] == Weave([s[i..j]] + ws, [s[j..e]] + r)
  {
    GapsCons(s[i..j], ws, |r|);
    WeaveCons(s[i..j], s[j..e], ws, r);
    assert s[i..] == s[i..j] + s[j..e] + s[e..];
  }

  /** From index i: at most n + 1 tokens, each starting with a character that is not
      whitespace, and the first n free of whitespace. */
  lemma {:induction false} SplitWsFromTokens(s: string, i: nat, maxsplit: nat)
    requires i <= |s|
    ensures var r := SplitWsFrom(s, i, maxsplit);
      && |r| <= maxsplit + 1
      && (forall k :: 0 <= k < |r| ==> r[k] != [] && !IsSpace(r[k][0]))
      && (forall k, c :: 0 <= k < |r| && k < maxsplit && 0 <= c < |r[k]| ==> !IsSpace(r[k][c]))
    decreases |s| - i
  {
    var j := SkipSpace(s, i);
    var r := SplitWsFrom(s, i, maxsplit);
    if j < |s| && maxsplit > 0 {
      var e := WordEnd(s, j);
      var tail := SplitWsFrom(s, e, maxsplit - 1);
      SplitWsFromTokens(s, e, maxsplit - 1);
      assert r == [s[j..e]] + tail;
      assert forall k :: 1 <= k < |r| ==> r[k] == tail[k - 1];
      assert forall c :: 0 <= c < e - j ==> r[0][c] == s[j + c];
    }
  }

  /** t is the tokens r woven with the gaps ws; a closed layout ends with its last token. */
  predicate LaidOut(t: string, r: seq<string>, ws: seq<string>, closed: bool)
  {
    Gaps(ws, |r|) && t == Weave(ws, r) && (closed ==> ws[|r|] == [])
  }

  /** The whitespace gaps around the tokens `SplitWsFrom(s, i, maxsplit)` takes. */
  function SplitGaps(s: string, i: nat, maxsplit: nat): seq<string>
    requires i <= |s|
    decreases |s| - i
  {
    var j := SkipSpace(s, i);
    if j == |s| then [s[i..]]
    else if maxsplit == 0 then [s[i..j], []]
    else [s[i..j]] + SplitGaps(s, WordEnd(s, j), maxsplit - 1)
  }

  /** From index i the input is the tokens with whitespace gaps between and around them;
      after all n splits nothing follows the last token, which keeps the rest of the input. */
  predicate LayoutFrom(s: string, i: nat, maxsplit: nat)
    requires i <= |s|
  {
    var r := SplitWsFrom(s, i, maxsplit);
    var ws := SplitGaps(s, i, maxsplit);
    LaidOut(s[i..], r, ws, |r| == maxsplit + 1) && (i < |s| && IsSpace(s[i]) ==> ws[0] != [])
  }

  lemma {:induction false} SplitWsFromLayout(s: string, i: nat, maxsplit: nat)
    requires i <= |s|
    ensures LayoutFrom(s, i, maxsplit)
    decreases |s| - i
  {
    var j := SkipSpace(s, i);
    if j == |s| {
      LayoutBlank(s, i);
    } else if maxsplit == 0 {
      LayoutLast(s, i);
    } else {
      SplitWsFromLayout(s, WordEnd(s, j), maxsplit - 1);
      LayoutNext(s, i, maxsplit);
    }
  }

  lemma LayoutBlank(s: string, i: nat)
    requires i <= |s| && SkipSpace(s, i) == |s|
    ensures forall m: nat :: LayoutFrom(s, i, m)
  {
    SpaceSlice(s, i, |s|);
    forall m: nat ensures LayoutFrom(s, i, m) {
      assert SplitWsFrom(s, i, m) == [] && SplitGaps(s, i, m) == [s[i..]];
      assert LaidOut(s[i..], [], [s[i..]], false);
    }
  }

  lemma LayoutLast(s: string, i: nat)
    requires i <= |s| && SkipSpace(s, i) < |s|
    ensures LayoutFrom(s, i, 0)
  {
    var j := SkipSpace(s, i);
    SpaceSlice(s, i, j);
    assert SplitWsFrom(s, i, 0) == [s[j..]] && SplitGaps(s, i, 0) == [s[i..j], []];
    LayoutRest(s, i, j);
  }

  /** A gap s[i..j] and then the rest of the input as the one last token. */
  lemma LayoutRest(s: string, i: nat, j: nat)
    requires i <= j < |s| && AllSpace(s[i..j])
    ensures LaidOut(s[i..], [s[j..]], [s[i..j], []], true)
  {
    WeaveCons(s[i..j], s[j..], [[]], []);
    assert s[i..] == s[i..j] + s[j..];
    GapsCons(s[i..j], [[]], 0);
  }

  lemma LayoutNext(s: string, i: nat, maxsplit: nat)
    requires i <= |s| && SkipSpace(s, i) < |s| && maxsplit > 0
    requires LayoutFrom(s, WordEnd(s, SkipSpace(s, i)), maxsplit - 1)
    ensures LayoutFrom(s, i, maxsplit)
  {
    var j := SkipSpace(s, i);
    SpaceSlice(s, i, j);
    var e := WordEnd(s, j);
    var tail := SplitWsFrom(s, e, maxsplit - 1);
    var ws' := SplitGaps(s, e, maxsplit - 1);
    assert SplitWsFrom(s, i, maxsplit) == [s[j..e]] + tail;
    assert SplitGaps(s, i, maxsplit) == [s[i..j]] + ws';
    if tail != [] {
      assert e < |s|;
    }
    LayoutStep(s, i, j, e, ws', tail);
    assert LaidOut(s[i..], [s[j..e]] + tail, [s[i..j]] + ws', |tail| + 1 == maxsplit + 1);
  }

  /** The tokens of split(None, n): none for blank input; otherwise the input is the tokens
      with whitespace around them, as `SplitWsFromLayout` states from index 0. */
  lemma SplitWsSpec(s: string, maxsplit: nat)
    ensures var r := SplitWs(s, maxsplit);
      && (r == [] <==> AllSpace(s))
      && |r| <= maxsplit + 1
      && (forall k :: 0 <= k < |r| ==> r[k] != [] && !IsSpace(r[k][0]))
      && (forall k, c :: 0 <= k < |r| && k < maxsplit && 0 <= c < |r[k]| ==> !IsSpace(r[k][c]))
      && exists ws :: Gaps(ws, |r|) && s == Weave(ws, r) && (|r| == maxsplit + 1 ==> ws[|r|] == [])
  {
    SplitWsBlank(s, maxsplit);
    SplitWsFromTokens(s, 0, maxsplit);
    SplitWsFromLayout(s, 0, maxsplit);
    assert s[0..] == s;
    var ws := SplitGaps(s, 0, maxsplit);
    assert Gaps(ws, |SplitWs(s, maxsplit)|) && s == Weave(ws, SplitWs(s, maxsplit));
  }

  /** s[x..y] is whitespace. */
  predicate Gap(s: string, x: nat, y: nat)
  {
    x <= y <= |s| && forall k :: x <= k < y ==> IsSpace(s[k])
  }

  /** s[x..y] is a word: not empty, and without whitespace. */
  predicate Word(s: string, x: nat, y: nat)
  {
    x < y <= |s| && forall k :: x <= k < y ==> !IsSpace(s[k])
  }

  /** The character c does not occur in s. */
  predicate NoChar(s: string, c: char)
  {
    forall i :: 0 <= i < |s| ==> s[i] != c
  }

  /** A one-character pattern occurs exactly where its character stands. */
  lemma OccursChar(s: string, c: char, j: int)
    ensures OccursAt(s, [c], j) <==> 0 <= j < |s| && s[j] == c
  {
    if 0 <= j < |s| {
      assert s[j..j + 1] == [s[j]];
    }
  }

  /** The pieces of a split hold no character the string does not hold. */
  lemma {:induction false} SplitNoChar(s: string, sep: string, c: char)
    requires sep != [] && NoChar(s, c)
    ensures forall k :: 0 <= k < |Split(s, sep)| ==> NoChar(Split(s, sep)[k], c)
    decreases |s|
  {
    match IndexOf(s, sep)
    case None =>
    case Some(k) =>
      var rest := s[k + |sep|..];
      assert NoChar(rest, c) by {
        forall i | 0 <= i < |rest| ensures rest[i] != c { assert rest[i] == s[k + |sep| + i]; }
      }
      SplitNoChar(rest, sep, c);
      var r := Split(s, sep);
      assert r == [s[..k]] + Split(rest, sep);
      forall i | 0 <= i < |r| ensures NoChar(r[i], c) {
        if i > 0 { assert r[i] == Split(rest, sep)[i - 1]; }
      }
  }

  /** Joining pieces and a separator that all lack c gives a string that lacks c. */
  lemma {:induction false} JoinNoChar(xs: seq<string>, sep: string, c: char)
    requires NoChar(sep, c) && forall k :: 0 <= k < |xs| ==> NoChar(xs[k], c)
    ensures NoChar(Join(xs, sep), c)
  {
    if |xs| > 1 {
      JoinNoChar(xs[1..], sep, c);
      var t := Join(xs[1..], sep);
      var j := xs[0] + sep + t;
      forall i | 0 <= i < |j| ensures j[i] != c {
        if i < |xs[0]| {
          assert j[i] == xs[0][i];
        } else if i < |xs[0]| + |sep| {
          assert j[i] == sep[i - |xs[0]|];
        } else {
          assert j[i] == t[i - |xs[0]| - |sep|];
        }
      }
    }
  }

  /** The first occurrence of c in a + [c] + b, when a lacks c, is right after a. */
  lemma IndexOfFirstChar(a: string, c: char, b: string)
    requires NoChar(a, c)
    ensures IndexOf(a + [c] + b, [c]) == Some(|a|)
  {
    var s := a + [c] + b;
    OccursChar(s, c, |a|);
    var r := IndexOf(s, [c]);
    OccursChar(s, c, r.value);
    assert s[r.value] == c;
  }

  /** Splitting at a character undoes joining with it, when no piece holds that character. */
  lemma {:induction false} SplitJoinChar(xs: seq<string>, c: char)
    requires xs != [] && forall k :: 0 <= k < |xs| ==> NoChar(xs[k], c)
    ensures Split(Join(xs, [c]), [c]) == xs
  {
    if |xs| == 1 {
      forall j ensures !OccursAt(xs[0], [c], j) {
        OccursChar(xs[0], c, j);
      }
      assert !Contains(xs[0], [c]);
      SplitNoSep(xs[0], [c]);
    } else {
      var t := Join(xs[1..], [c]);
      assert Join(xs, [c]) == xs[0] + [c] + t;
      IndexOfFirstChar(xs[0], c, t);
      assert (xs[0] + [c] + t)[|xs[0]| + 1..] == t;
      assert (xs[0] + [c] + t)[..|xs[0]|] == xs[0];
      SplitJoinChar(xs[1..], c);
      assert Split(Join(xs, [c]), [c]) == [xs[0]] + xs[1..];
    }
  }

  /** Two strings of one length with the character c at the same places split at c into as
      many pieces. */
  lemma {:induction false} SplitCharCount(s: string, t: string, c: char)
    requires |s| == |t| && forall i :: 0 <= i < |s| ==> (s[i] == c <==> t[i] == c)
    ensures |Split(s, [c])| == |Split(t, [c])|
    decreases |s|
  {
    forall j ensures OccursAt(s, [c], j) <==> OccursAt(t, [c], j) {
      OccursChar(s, c, j);
      OccursChar(t, c, j);
    }
    var rs, rt := IndexOf(s, [c]), IndexOf(t, [c]);
    if rs.Some? {
      assert rt.Some?;
      if rs.value < rt.value { assert false; }
      if rt.value < rs.value { assert false; }
      var k := rs.value;
      SplitCharCount(s[k + 1..], t[k + 1..], c);
    }
  }

  /** `sep.join(xs)` is the first piece followed by each later piece with sep in front. */
  lemma {:induction false} JoinAsConcat(xs: seq<string>, sep: string)
    requires xs != []
    ensures Join(xs, sep) == xs[0] + Concat(seq(|xs| - 1, k requires 0 <= k < |xs| - 1 => sep + xs[k + 1]))
  {
    var tail := seq(|xs| - 1, k requires 0 <= k < |xs| - 1 => sep + xs[k + 1]);
    if |xs| == 1 {
      assert tail == [];
    } else {
      JoinAsConcat(xs[1..], sep);
      var tail' := seq(|xs[1..]| - 1, k requires 0 <= k < |xs[1..]| - 1 => sep + xs[1..][k + 1]);
      assert tail == [sep + xs[1]] + tail';
      assert Concat(tail) == sep + xs[1] + Concat(tail');
    }
  }

  /** `"".join` of a sum is the sum of the joins. */
  lemma {:induction false} ConcatAppend(xs: seq<string>, ys: seq<string>)
    ensures Concat(xs + ys) == Concat(xs) + Concat(ys)
  {
    if xs != [] {
      assert (xs + ys)[0] == xs[0] && (xs + ys)[1..] == xs[1..] + ys;
      ConcatAppend(xs[1..], ys);
    } else {
      assert xs + ys == ys;
    }
  }

  /** str(n) for an integer: decimal, with a leading '-' when negative. */
  function IntToString(n: int): string
  {
    if n < 0 then "-" + NatToString(-n) else NatToString(n)
  }

  function NatToString(n: nat): (r: string)
    ensures r != []
    decreases n
  {
    if n < 10 then [Digit(n)] else NatToString(n / 10) + [Digit(n % 10)]
  }

  function Digit(d: nat): char
    requires d < 10
  {
    "0123456789"[d]
  }

  // ---------------------------------------------------------------- int(s) and str(b)

  predicate IsDigit(c: char) { '0' <= c <= '9' }

  /** Decimal digits, each underscore between a digit and the next digit: what `int()` takes
      after the sign. A numeral is a digit, or a numeral followed by a digit or by `_` and a
      digit. */
  predicate IsNumeral(d: string)
    decreases |d|
  {
    && d != [] && IsDigit(d[|d| - 1])
    && (|d| == 1 || IsNumeral(d[..|d| - 1]) || (|d| >= 3 && d[|d| - 2] == '_' && IsNumeral(d[..|d| - 2])))
  }

  /** A numeral starts and ends with a digit. */
  lemma {:induction false} NumeralEnds(d: string)
    requires IsNumeral(d)
    ensures IsDigit(d[0]) && IsDigit(d[|d| - 1])
    decreases |d|
  {
    if |d| > 1 {
      if IsNumeral(d[..|d| - 1]) {
        NumeralEnds(d[..|d| - 1]);
      } else {
        NumeralEnds(d[..|d| - 2]);
      }
    }
  }

  predicate AllDigits(t: string) { forall k :: 0 <= k < |t| ==> IsDigit(t[k]) }

  /** The number the digits of d spell, most significant first; underscores are skipped. */
  function NumeralValue(d: string): nat
  {
    if d == [] then 0
    else if IsDigit(d[|d| - 1]) then NumeralValue(d[..|d| - 1]) * 10 + (d[|d| - 1] as int - '0' as int)
    else NumeralValue(d[..|d| - 1])
  }

  /**
   * Python's `int(s)` on a str: surrounding whitespace is dropped, one sign may lead, and what
   * remains must be a numeral; None where it raises ValueError. Only ASCII digits are read.
   */
  function ParseInt(s: string): Option<int>
  {
    var t := Strip(s);
    if t == [] then None
    else
      var d := if t[0] == '+' || t[0] == '-' then t[1..] else t;
      if !IsNumeral(d) then None
      else
        var v: int := NumeralValue(d);
        Some(if t[0] == '-' then -v else v)
  }

  /** A string without whitespace at either end strips to itself. */
  lemma StripTight(s: string)
    requires s != [] && !IsSpace(s[0]) && !IsSpace(s[|s| - 1])
    ensures Strip(s) == s
  {
    assert SkipSpace(s, 0) == 0;
    assert TrimEnd(s, 0, |s|) == |s|;
  }

  lemma DigitValue(d: nat)
    requires d < 10
    ensures IsDigit(Digit(d)) && Digit(d) as int - '0' as int == d
  {
    assert Digit(d) == "0123456789"[d];
  }

  /** str(n) of a natural number is a numeral spelling n. */
  lemma {:induction false} NatToStringNumeral(n: nat)
    ensures IsNumeral(NatToString(n)) && NumeralValue(NatToString(n)) == n
    decreases n
  {
    var t := NatToString(n);
    DigitValue(n % 10);
    if n >= 10 {
      var u := NatToString(n / 10);
      NatToStringNumeral(n / 10);
      assert t == u + [Digit(n % 10)];
      assert t[..|t| - 1] == u;
    }
  }

  /** str(n) of a natural number holds digits only. */
  lemma {:induction false} NatToStringDigits(n: nat)
    ensures AllDigits(NatToString(n))
    decreases n
  {
    var t := NatToString(n);
    DigitValue(n % 10);
    if n >= 10 {
      var u := NatToString(n / 10);
      NatToStringDigits(n / 10);
      assert t == u + [Digit(n % 10)];
      assert forall k :: 0 <= k < |u| ==> t[k] == u[k];
    }
  }

  /** A numeral reads as its value. */
  lemma ParseDigits(u: string)
    requires IsNumeral(u)
    ensures ParseInt(u) == Some(NumeralValue(u))
  {
    NumeralEnds(u);
    StripTight(u);
  }

  /** After a minus sign, a numeral reads as its value negated. */
  lemma ParseNegDigits(t: string)
    requires |t| >= 2 && t[0] == '-' && IsNumeral(t[1..])
    ensures ParseInt(t) == Some(-(NumeralValue(t[1..]) as int))
  {
    NumeralEnds(t[1..]);
    assert t[|t| - 1] == t[1..][|t| - 2];
    StripTight(t);
  }

  /** str(n) holds digits and perhaps a leading minus sign. */
  lemma IntToStringChars(n: int)
    ensures forall k :: 0 <= k < |IntToString(n)| ==> IsDigit(IntToString(n)[k]) || IntToString(n)[k] == '-'
  {
    var m: nat := if n < 0 then -n else n;
    var u := NatToString(m);
    NatToStringDigits(m);
    if n < 0 {
      var t := IntToString(n);
      assert t == "-" + u;
      forall k | 0 <= k < |t| ensures IsDigit(t[k]) || t[k] == '-' {
        if k > 0 {
          assert t[k] == u[k - 1];
        }
      }
    }
  }

  /** `int(str(n)) == n`: the conversions are inverse on every integer. */
  lemma ParseIntToString(n: int)
    ensures ParseInt(IntToString(n)) == Some(n)
  {
    var t := IntToString(n);
    if n < 0 {
      NegativeString(n);
      ParseNegDigits(t);
    } else {
      NatToStringNumeral(n);
      ParseDigits(t);
    }
  }

  /** str(n) of a negative n is a minus sign and the numeral of -n. */
  lemma NegativeString(n: int)
    requires n < 0
    ensures var t := IntToString(n);
      |t| >= 2 && t[0] == '-' && IsNumeral(t[1..]) && NumeralValue(t[1..]) == -n
  {
    NatToStringNumeral(-n);
    MinusNumeral(NatToString(-n), -n);
  }

  /** A minus sign before a numeral u leaves u as the rest of the text. */
  lemma MinusNumeral(u: string, m: nat)
    requires IsNumeral(u) && NumeralValue(u) == m
    ensures var t := "-" + u;
      |t| >= 2 && t[0] == '-' && IsNumeral(t[1..]) && NumeralValue(t[1..]) == m
  {
    var t := "-" + u;
    assert t[1..] == u;
  }

  /** The characters `r'...'` of a byte in the repr of bytes quoted with q. */
  function ByteRepr(b: byte, q: char): string
  {
    if b == q as int || b == '\\' as int then ['\\', b as char]
    else if b == '\t' as int then "\\t"
    else if b == '\n' as int then "\\n"
    else if b == '\r' as int then "\\r"
    else if b < 0x20 || b >= 0x7F then "\\x" + [HexLower(b / 16), HexLower(b % 16)]
    else [b as char]
  }

  function HexLower(d: nat): char
    requires d < 16
  {
    "0123456789abcdef"[d]
  }

  function BytesReprBody(bs: seq<byte>, q: char): string
  {
    if bs == [] then [] else BytesReprBody(bs[..|bs| - 1], q) + ByteRepr(bs[|bs| - 1], q)
  }

  /** `str(b)` of bytes, their repr: `b'...'`, or `b"..."` when the bytes hold a single
      quote and no double quote. */
  function BytesRepr(bs: seq<byte>): (r: string)
    ensures |r| >= 3 && r[0] == 'b' && r[1] == r[|r| - 1]
  {
    var q := if '\'' as int in bs && '"' as int !in bs then '"' else '\'';
    "b" + [q] + BytesReprBody(bs, q) + [q]
  }
}
