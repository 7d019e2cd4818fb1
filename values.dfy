/**
 * The Python values the codec reads and writes, and the few Python built-ins it applies to them.
 * A Python dict is an insertion-ordered list of entries: assigning to a present key replaces its
 * value where it stands, assigning to an absent key appends it, `del` removes it.
 */
module Values {
  import opened Bytes
  import opened Errors
  import Utf8
  import PyStr

  /** A dict key of a message: a field name (str) or a field number (int). */
  datatype Key = Name(name: string) | Num(num: int)

  /**
   * A message value. A float is carried as the IEEE-754 bit pattern of the field it was read
   * from (`double` says whether that was 64 bits wide); see README for what is left out.
   */
  datatype Value =
    | VInt(i: int)
    | VBool(b: bool)
    | VFloat(bits: nat, double: bool)
    | VStr(s: string)
    | VBytes(bytes: seq<byte>)
    | VList(items: seq<Value>)
    | VDict(entries: seq<Entry>)

  datatype Entry = Entry(key: Key, val: Value)

  // ---------------------------------------------------------------- dicts

  function Keys(d: seq<Entry>): (ks: seq<Key>)
    ensures |ks| == |d| && forall k :: 0 <= k < |d| ==> ks[k] == d[k].key
  {
    if d == [] then [] else [d[0].key] + Keys(d[1..])
  }

  predicate DistinctKeys(d: seq<Entry>)
  {
    forall a, b :: 0 <= a < b < |d| ==> d[a].key != d[b].key
  }

  /** `d.get(k)`. */
  function Lookup(d: seq<Entry>, k: Key): (r: Option<Value>)
    ensures r.None? <==> k !in Keys(d)
    ensures r.Some? ==> exists j :: 0 <= j < |d| && d[j] == Entry(k, r.value)
  {
    if d == [] then None
    else if d[0].key == k then Some(d[0].val)
    else Lookup(d[1..], k)
  }

  /** The first entry with key k gives the value `d.get(k)` returns. */
  lemma {:induction false} LookupAt(d: seq<Entry>, k: Key, j: nat)
    requires j < |d| && d[j].key == k && forall i :: 0 <= i < j ==> d[i].key != k
    ensures Lookup(d, k) == Some(d[j].val)
  {
    if j > 0 {
      LookupAt(d[1..], k, j - 1);
    }
  }

  /** `d[k] = v`. */
  function Set(d: seq<Entry>, k: Key, v: Value): (r: seq<Entry>)
  {
    if k in Keys(d) then SetPresent(d, k, v) else d + [Entry(k, v)]
  }

  function SetPresent(d: seq<Entry>, k: Key, v: Value): (r: seq<Entry>)
    ensures |r| == |d| && Keys(r) == Keys(d)
  {
    if d == [] then []
    else if d[0].key == k then [Entry(k, v)] + d[1..]
    else [d[0]] + SetPresent(d[1..], k, v)
  }

  /** `del d[k]` (or `d.pop(k, None)`): every entry with key k goes. */
  function Remove(d: seq<Entry>, k: Key): (r: seq<Entry>)
    ensures k !in Keys(r) && |r| <= |d|
  {
    if d == [] then []
    else if d[0].key == k then Remove(d[1..], k)
    else [d[0]] + Remove(d[1..], k)
  }

  /** After `d[k] = v`, k maps to v and every other key keeps its value. */
  lemma {:induction false} SetLookup(d: seq<Entry>, k: Key, v: Value, k': Key)
    ensures Lookup(Set(d, k, v), k') == if k' == k then Some(v) else Lookup(d, k')
    ensures Keys(Set(d, k, v)) == if k in Keys(d) then Keys(d) else Keys(d) + [k]
  {
    if k in Keys(d) {
      SetPresentLookup(d, k, v, k');
    } else {
      LookupAppend(d, Entry(k, v), k');
      KeysAppend(d, Entry(k, v));
    }
  }

  lemma {:induction false} SetPresentLookup(d: seq<Entry>, k: Key, v: Value, k': Key)
    requires k in Keys(d)
    ensures Lookup(SetPresent(d, k, v), k') == if k' == k then Some(v) else Lookup(d, k')
  {
    if d[0].key != k {
      assert Keys(d) == [d[0].key] + Keys(d[1..]);
      SetPresentLookup(d[1..], k, v, k');
    }
  }

  lemma {:induction false} LookupAppend(d: seq<Entry>, e: Entry, k: Key)
    ensures Lookup(d + [e], k) == if k in Keys(d) then Lookup(d, k) else if k == e.key then Some(e.val) else None
  {
    if d != [] {
      assert (d + [e])[1..] == d[1..] + [e];
      LookupAppend(d[1..], e, k);
    }
  }

  lemma {:induction false} KeysAppend(d: seq<Entry>, e: Entry)
    ensures Keys(d + [e]) == Keys(d) + [e.key]
  {
  }

  /** `del d[k]` leaves every other key with its value. */
  lemma {:induction false} RemoveLookup(d: seq<Entry>, k: Key, k': Key)
    ensures Lookup(Remove(d, k), k') == if k' == k then None else Lookup(d, k')
  {
    if d != [] {
      RemoveLookup(d[1..], k, k');
    }
  }

  /** Removing keeps the other entries in their order: it is a filter. */
  lemma {:induction false} RemoveAbsent(d: seq<Entry>, k: Key)
    requires k !in Keys(d)
    ensures Remove(d, k) == d
  {
    if d != [] {
      RemoveAbsent(d[1..], k);
    }
  }

  // ---------------------------------------------------------------- built-ins on values

  /**
   * `int(v)`: an int; a bool, a subclass of int; a str holding a decimal numeral between
   * whitespace; bytes holding one between ASCII whitespace (no other byte outside printable
   * ASCII is allowed in bytes). Every other value raises.
   */
  function IntOf(v: Value): (r: Result<int>)
    ensures v.VInt? ==> r == Ok(v.i)
    ensures v.VBool? ==> r == Ok(if v.b then 1 else 0)
    ensures r.Ok? ==> v.VInt? || v.VBool? || v.VStr? || v.VBytes?
  {
    match v
    case VInt(n) => Ok(n)
    case VBool(b) => Ok(if b then 1 else 0)
    case VStr(s) => IntOfText(s)
    case VBytes(bs) => if AsciiText(bs) then IntOfText(Latin1(bs)) else Err(InvalidIntLiteral)
    case _ => Err(TypeMismatch)
  }

  function IntOfText(s: string): Result<int>
  {
    match PyStr.ParseInt(s)
    case Some(n) => Ok(n)
    case None => Err(InvalidIntLiteral)
  }

  /** The bytes that can stand in an int literal: ASCII, except the separators 0x1C-0x1F,
      which str.isspace counts as whitespace and bytes do not. */
  predicate AsciiText(bs: seq<byte>)
  {
    forall k :: 0 <= k < |bs| ==> bs[k] < 0x80 && !(0x1C <= bs[k] <= 0x1F)
  }

  /** The characters of bytes, one per byte. */
  function Latin1(bs: seq<byte>): (s: string)
    ensures |s| == |bs| && forall k :: 0 <= k < |bs| ==> s[k] as int == bs[k]
  {
    seq(|bs|, k requires 0 <= k < |bs| => bs[k] as char)
  }

  /** `int(str(n)) == n`, and the same for the bytes of str(n). */
  lemma IntOfDecimal(n: int, bs: seq<byte>)
    requires Latin1(bs) == PyStr.IntToString(n)
    ensures IntOf(VStr(PyStr.IntToString(n))) == Ok(n)
    ensures IntOf(VBytes(bs)) == Ok(n)
  {
    PyStr.ParseIntToString(n);
    PyStr.IntToStringChars(n);
    assert AsciiText(bs) by {
      forall k | 0 <= k < |bs| ensures bs[k] < 0x80 && !(0x1C <= bs[k] <= 0x1F) {
        assert Latin1(bs)[k] as int == bs[k];
      }
    }
  }

  /** `bool(v)`: zero, empty and false values are false. */
  function Truthy(v: Value): bool
  {
    match v
    case VInt(n) => n != 0
    case VBool(b) => b
    case VFloat(bits, double) =>
      // +0.0 and -0.0 are false
      bits % (if double then TWO_63 else TWO_31) != 0
    case VStr(s) => s != []
    case VBytes(bs) => bs != []
    case VList(vs) => vs != []
    case VDict(es) => es != []
  }

  /** `bytes(v)`: a bytes value itself, n zero bytes for an int n >= 0, or a list of byte values. */
  function BytesOf(v: Value): (r: Result<seq<byte>>)
    ensures v.VBytes? ==> r == Ok(v.bytes)
    ensures v.VInt? ==> (r.Ok? <==> v.i >= 0) && (r.Err? ==> r.error == ByteRange)
    ensures v.VInt? && v.i >= 0 ==> r.Ok? && |r.value| == v.i && forall k :: 0 <= k < v.i ==> r.value[k] == 0
  {
    match v
    case VBytes(bs) => Ok(bs)
    case VInt(n) => if n >= 0 then Ok(seq(n, _ => 0)) else Err(ByteRange)
    case VBool(b) => Ok(if b then [0] else [])
    case VList(vs) => ListBytes(vs)
    case _ => Err(TypeMismatch)
  }

  /** An element `bytes()` takes from a list: an int in range(0, 256), or a bool (an int too). */
  predicate ByteItem(v: Value)
  {
    (v.VInt? && 0 <= v.i < 256) || v.VBool?
  }

  function ItemByte(v: Value): byte
    requires ByteItem(v)
  {
    if v.VBool? then (if v.b then 1 else 0) else v.i as byte
  }

  /** `bytes(vs)` of a list: it succeeds exactly when every element is a byte value, giving
      those values in order; the first element that is not raises. */
  function ListBytes(vs: seq<Value>): (r: Result<seq<byte>>)
    ensures r.Ok? <==> forall k :: 0 <= k < |vs| ==> ByteItem(vs[k])
    ensures r.Ok? ==> |r.value| == |vs| && forall k :: 0 <= k < |vs| ==> r.value[k] == ItemByte(vs[k])
    ensures r.Err? && vs != [] && !ByteItem(vs[0]) ==> r.error == if vs[0].VInt? then ByteRange else TypeMismatch
  {
    if vs == [] then Ok([])
    else if !ByteItem(vs[0]) then Err(if vs[0].VInt? then ByteRange else TypeMismatch)
    else
      match ListBytes(vs[1..])
      case Err(e) =>
        assert forall k :: 1 <= k < |vs| ==> vs[k] == vs[1..][k - 1];
        Err(e)
      case Ok(rest) => Ok([ItemByte(vs[0])] + rest)
  }

  /** `v.encode("utf-8")`: only a str has an encode method. */
  function StrBytes(v: Value): (r: Result<seq<byte>>)
    ensures r.Ok? <==> v.VStr?
  {
    if v.VStr? then Ok(Utf8.Encode(v.s)) else Err(TypeMismatch)
  }

  /** The list a field value stands for: its items, or the value alone. */
  function AsList(v: Value): seq<Value>
  {
    if v.VList? then v.items else [v]
  }

  // ---------------------------------------------------------------- nesting

  /** How many dict levels lie below a message's own: 0 for a message with no nested message. */
  function MsgDepth(es: seq<Entry>): nat
    decreases es
  {
    if es == [] then 0 else
      assert es[0] in es;
      Max(EntryDepth(es[0]), MsgDepth(es[1..]))
  }

  function EntryDepth(e: Entry): nat
    decreases e
  {
    ValueDepth(e.val)
  }

  function ValueDepth(v: Value): nat
    decreases v
  {
    match v
    case VDict(es) => 1 + MsgDepth(es)
    case VList(vs) => ListDepth(vs)
    case _ => 0
  }

  function ListDepth(vs: seq<Value>): nat
    decreases vs
  {
    if vs == [] then 0 else
      assert vs[0] in vs;
      Max(ValueDepth(vs[0]), ListDepth(vs[1..]))
  }

  function Max(a: nat, b: nat): nat { if a >= b then a else b }

  // ---------------------------------------------------------------- size

  /** The number of constructors in a value: what a recursion over nested values uses up. */
  function Size(v: Value): nat
    decreases v
  {
    match v
    case VList(vs) => 1 + ListSize(vs)
    case VDict(es) => 1 + EntriesSize(es)
    case _ => 1
  }

  function EntrySize(e: Entry): nat
    decreases e
  {
    1 + Size(e.val)
  }

  function EntriesSize(es: seq<Entry>): nat
    decreases es
  {
    if es == [] then 0 else
      assert es[0] in es;
      EntrySize(es[0]) + EntriesSize(es[1..])
  }

  function ListSize(vs: seq<Value>): nat
    decreases vs
  {
    if vs == [] then 0 else
      assert vs[0] in vs;
      Size(vs[0]) + ListSize(vs[1..])
  }

  lemma {:induction false} EntriesSizeElem(es: seq<Entry>, k: nat)
    requires k < |es|
    ensures EntrySize(es[k]) <= EntriesSize(es)
  {
    if k > 0 {
      EntriesSizeElem(es[1..], k - 1);
    }
  }

  lemma {:induction false} ListSizeElem(vs: seq<Value>, k: nat)
    requires k < |vs|
    ensures Size(vs[k]) <= ListSize(vs)
  {
    if k > 0 {
      ListSizeElem(vs[1..], k - 1);
    }
  }

  lemma ListSizeTail(vs: seq<Value>)
    requires vs != []
    ensures ListSize(vs[1..]) < ListSize(vs)
  {
  }

  lemma ListDepthTail(vs: seq<Value>)
    requires vs != []
    ensures ListDepth(vs[1..]) <= ListDepth(vs)
  {
  }

  lemma {:induction false} MsgDepthElem(es: seq<Entry>, k: nat)
    requires k < |es|
    ensures EntryDepth(es[k]) <= MsgDepth(es)
  {
    if k > 0 {
      MsgDepthElem(es[1..], k - 1);
    }
  }

  lemma {:induction false} ListDepthElem(vs: seq<Value>, k: nat)
    requires k < |vs|
    ensures ValueDepth(vs[k]) <= ListDepth(vs)
  {
    if k > 0 {
      ListDepthElem(vs[1..], k - 1);
    }
  }

  /** Assigning to the key of the last entry, when no earlier entry has it, replaces that
      entry's value. */
  lemma {:induction false} SetLast(d: seq<Entry>, k: Key, a: Value, b: Value)
    requires k !in Keys(d)
    ensures Set(d + [Entry(k, a)], k, b) == d + [Entry(k, b)]
  {
    KeysAppend(d, Entry(k, a));
    SetPresentLast(d, k, a, b);
  }

  lemma {:induction false} SetPresentLast(d: seq<Entry>, k: Key, a: Value, b: Value)
    requires k !in Keys(d)
    ensures SetPresent(d + [Entry(k, a)], k, b) == d + [Entry(k, b)]
  {
    if d != [] {
      assert (d + [Entry(k, a)])[1..] == d[1..] + [Entry(k, a)];
      assert Keys(d) == [d[0].key] + Keys(d[1..]);
      SetPresentLast(d[1..], k, a, b);
    }
  }
}
