/**
 * The codec's round trip: for a schema whose names and numbers agree and a message whose
 * values fit their field types, `decode(encode(values, schema), schema)` gives the message back.
 */
module RoundTrip {
  import opened Bytes
  import opened Errors
  import opened Wire
  import opened Values
  import opened Schema
  import opened Encoder
  import opened Decoder
  import Utf8

  // ---------------------------------------------------------------- the domain

  /** Names and numbers agree, every field number has a key below 2^64, at every level. */
  predicate WellFormed(s: Schema)
    decreases s, 1
  {
    && Consistent(s)
    && (forall f :: f in s.fields ==> 0 <= f < TWO_61)
    && (forall f :: f in s.fields ==> KindWellFormed(s.fields[f].kind))
  }

  predicate KindWellFormed(k: Kind)
    decreases k, 0
  {
    match k
    case Message(sub) => WellFormed(sub)
    case RepeatedMessage(sub) => WellFormed(sub)
    case _ => true
  }

  /** A value of scalar type t that the field type can carry: an integer in the type's range,
      a bool, a str, bytes, or a float's bit pattern of the type's width. */
  predicate ScalarIn(t: ScalarType, v: Value)
  {
    match t
    case TVarint => v.VInt? && IsUint64(v.i)
    case TUint64 => v.VInt? && IsUint64(v.i)
    case TFixed64 => v.VInt? && IsUint64(v.i)
    case TUint32 => v.VInt? && IsUint32(v.i)
    case TFixed32 => v.VInt? && IsUint32(v.i)
    case TInt64 => v.VInt? && IsInt64(v.i)
    case TSint => v.VInt? && IsInt64(v.i)
    case TSint64 => v.VInt? && IsInt64(v.i)
    case TSfixed64 => v.VInt? && IsInt64(v.i)
    case TInt32 => v.VInt? && IsInt32(v.i)
    case TSint32 => v.VInt? && IsInt32(v.i)
    case TSfixed32 => v.VInt? && IsInt32(v.i)
    case TFloat => v.VFloat? && !v.double && IsUint32(v.bits)
    case TDouble => v.VFloat? && v.double && IsUint64(v.bits)
    case TBool => v.VBool?
    case TString => v.VStr?
    case TBytes => v.VBytes?
  }

  /** A message of schema s in the form decode produces: str keys the schema names, each once,
      at most one alternative of each oneof, and values of the declared kinds. */
  predicate MsgIn(es: seq<Entry>, s: Schema)
    decreases es, 3
  {
    && DistinctKeys(es)
    && !SameGroup(es, s)
    && (forall k :: 0 <= k < |es| ==> EntryIn(es[k], s))
  }

  predicate EntryIn(e: Entry, s: Schema)
    decreases e, 2
  {
    && e.key.Name?
    && e.key.name in s.names
    && s.names[e.key.name] in s.fields
    && ValueIn(s.fields[s.names[e.key.name]].kind, e.val)
  }

  /** A packed field holds a list (possibly empty); a repeated field a non-empty list, since
      decode never stores an empty one; a singleton the value itself. */
  predicate ValueIn(kind: Kind, v: Value)
    decreases v, 1
  {
    match kind
    case Scalar(t) => ScalarIn(t, v)
    case Message(sub) => v.VDict? && MsgIn(v.entries, sub)
    case Packed(t) => Packable(t) && v.VList? && forall k :: 0 <= k < |v.items| ==> ScalarIn(t, v.items[k])
    case RepeatedScalar(t) => v.VList? && v.items != [] && forall k :: 0 <= k < |v.items| ==> ScalarIn(t, v.items[k])
    case RepeatedMessage(sub) => v.VList? && v.items != [] && ItemsIn(v.items, sub)
  }

  predicate ItemsIn(vs: seq<Value>, s: Schema)
    decreases vs, 2
  {
    forall k :: 0 <= k < |vs| ==> ItemIn(vs[k], s)
  }

  predicate ItemIn(v: Value, s: Schema)
    decreases v, 2
  {
    v.VDict? && MsgIn(v.entries, s)
  }

  // ---------------------------------------------------------------- scalars

  /** A varint-typed scalar converts to a uint64, and decoding that number with the same type
      gives the value back. */
  lemma {:induction false} VarintScalarRoundTrip(t: ScalarType, v: Value)
    requires IsVarintType(t) && ScalarIn(t, v)
    ensures VarintValue(t, v).Ok? && IsUint64(VarintValue(t, v).value)
    ensures FromVarint(Some(t), VarintValue(t, v).value) == v
  {
    match t
    case TInt64 => I64RoundTrip(v.i);
    case TInt32 => I32RoundTrip(v.i);
    case TSint => ZigzagRoundTrip(v.i);
    case TSint64 => ZigzagRoundTrip(v.i);
    case TSint32 => Zz32RoundTrip(v.i);
    case _ =>
  }

  /** The fixed-width bytes of a scalar read back, as decode reads them, as the scalar. */
  lemma {:induction false} FixedScalarRoundTrip(t: ScalarType, v: Value)
    requires (WireType(t) == 1 || WireType(t) == 5) && ScalarIn(t, v)
    ensures FixedBytes(t, v).Ok?
    ensures WireType(t) == 5 ==> From32(Some(t), FromLittleEndian(FixedBytes(t, v).value)) == v
    ensures WireType(t) == 1 ==> From64(Some(t), FromLittleEndian(FixedBytes(t, v).value)) == v
  {
    var p := FixedBytes(t, v).value;
    assert p[0..|p|] == p;
    match t
    case TFloat => Fixed32RoundTrip(v.bits, p, 0);
    case TFixed32 => Fixed32RoundTrip(v.i, p, 0);
    case TSfixed32 => Sfixed32RoundTrip(v.i, p, 0);
    case TDouble => Fixed64RoundTrip(v.bits, p, 0);
    case TFixed64 => Fixed64RoundTrip(v.i, p, 0);
    case TSfixed64 => Sfixed64RoundTrip(v.i, p, 0);
  }

  /** Where the bytes x + y stand in b, x and y stand one after the other. */
  lemma {:induction false} SliceSplit(b: seq<byte>, i: nat, x: seq<byte>, y: seq<byte>, j: nat, e: nat)
    requires j == i + |x| && e == i + |x + y| <= |b| && b[i..e] == x + y
    ensures e == j + |y| && b[i..j] == x && b[j..e] == y
  {
    assert b[i..j] == b[i..e][..|x|];
    assert b[j..e] == b[i..e][|x|..];
  }

  /** A value of a packable type always has element bytes, and at least one. */
  lemma {:induction false} PackedElemOk(t: ScalarType, v: Value)
    requires Packable(t) && ScalarIn(t, v)
    ensures PackedElem(t, v).Ok? && |PackedElem(t, v).value| >= 1
  {
    if IsVarintType(t) {
      VarintScalarRoundTrip(t, v);
      var n := VarintValue(t, v).value;
      VarintBytesShape(n);
      assert PackedElem(t, v) == Ok(VarintBytes(n));
    } else {
      FixedScalarRoundTrip(t, v);
      assert PackedElem(t, v) == Ok(FixedBytes(t, v).value);
    }
  }

  /** One packed element written at i reads back as itself, with the index after its bytes. */
  lemma {:induction false} PackedElemRoundTrip(t: ScalarType, v: Value, p: seq<byte>, b: seq<byte>, i: nat, j: nat)
    requires Packable(t) && ScalarIn(t, v) && PackedElem(t, v) == Ok(p)
    requires j == i + |p| <= |b| && b[i..j] == p
    ensures PackedElemAt(b, i, t) == Ok((v, j))
  {
    if IsVarintType(t) {
      VarintScalarRoundTrip(t, v);
      var n := VarintValue(t, v).value;
      assert p == VarintBytes(n);
      PackedVarintAt(t, v, n, b, i);
    } else {
      FixedScalarRoundTrip(t, v);
      assert p == FixedBytes(t, v).value;
      PackedFixedAt(t, v, p, b, i);
    }
  }

  lemma {:induction false} PackedVarintAt(t: ScalarType, v: Value, n: nat, b: seq<byte>, i: nat)
    requires IsVarintType(t) && IsUint64(n) && FromVarint(Some(t), n) == v
    requires i + |VarintBytes(n)| <= |b| && b[i..i + |VarintBytes(n)|] == VarintBytes(n)
    ensures PackedElemAt(b, i, t) == Ok((v, i + |VarintBytes(n)|))
  {
    ReadWriteVarintAt(n, b, i, i + |VarintBytes(n)|);
  }

  lemma {:induction false} PackedFixedAt(t: ScalarType, v: Value, p: seq<byte>, b: seq<byte>, i: nat)
    requires WireType(t) == 1 || WireType(t) == 5
    requires |p| == (if WireType(t) == 5 then 4 else 8)
    requires WireType(t) == 5 ==> From32(Some(t), FromLittleEndian(p)) == v
    requires WireType(t) == 1 ==> From64(Some(t), FromLittleEndian(p)) == v
    requires i + |p| <= |b| && b[i..i + |p|] == p
    ensures PackedElemAt(b, i, t) == Ok((v, i + |p|))
  {
  }

  /** `PackedValues` under a name of its own, so that the lemmas below speak of it at one level
      of unfolding. */
  function ValuesFrom(b: seq<byte>, i: nat, t: ScalarType): Result<seq<Value>>
  {
    PackedValues(b, i, t)
  }

  /** A list of values of the element type always packs: its bytes are the first element's
      followed by the rest's. */
  lemma {:induction false} PackedEncodingOk(vs: seq<Value>, t: ScalarType)
    requires Packable(t) && forall k :: 0 <= k < |vs| ==> ScalarIn(t, vs[k])
    ensures PackedEncoding(vs, t).Ok?
    ensures vs != [] ==>
              && PackedElem(t, vs[0]).Ok? && |PackedElem(t, vs[0]).value| >= 1
              && PackedEncoding(vs[1..], t).Ok?
              && PackedEncoding(vs, t).value == PackedElem(t, vs[0]).value + PackedEncoding(vs[1..], t).value
    decreases vs
  {
    if vs != [] {
      PackedElemOk(t, vs[0]);
      ScalarsTail(t, vs);
      PackedEncodingOk(vs[1..], t);
    }
  }

  /** `_decode_packed(_encode_packed(vals, t), t) == vals`, for values of the element type. */
  lemma {:induction false} PackedRoundTrip(vs: seq<Value>, t: ScalarType, b: seq<byte>, i: nat)
    requires Packable(t) && forall k :: 0 <= k < |vs| ==> ScalarIn(t, vs[k])
    requires i <= |b| && PackedEncoding(vs, t).Ok? && b[i..] == PackedEncoding(vs, t).value
    ensures ValuesFrom(b, i, t) == Ok(vs)
    decreases vs
  {
    if vs == [] {
      PackedEncodingOk(vs, t);
      assert i == |b|;
    } else {
      PackedEncodingOk(vs, t);
      var j := PackedHead(b, i, t, vs[0], PackedElem(t, vs[0]).value, PackedEncoding(vs[1..], t).value);
      ScalarsTail(t, vs);
      PackedRoundTrip(vs[1..], t, b, j);
      PackedValuesStep(b, i, t, vs, j);
    }
  }

  /** Where the bytes from i on are one packed element followed by more, the element reads back
      at i and the rest follows it. */
  lemma {:induction false} PackedHead(b: seq<byte>, i: nat, t: ScalarType, v: Value, p: seq<byte>, rest: seq<byte>)
    returns (j: nat)
    requires Packable(t) && ScalarIn(t, v) && PackedElem(t, v) == Ok(p)
    requires i <= |b| && b[i..] == p + rest
    ensures j == i + |p| && i < j <= |b| && PackedElemAt(b, i, t) == Ok((v, j)) && b[j..] == rest
  {
    PackedElemOk(t, v);
    SuffixSplit(b, i, p, rest);
    j := i + |p|;
    PackedElemRoundTrip(t, v, p, b, i, j);
  }

  lemma {:induction false} ScalarsTail(t: ScalarType, vs: seq<Value>)
    requires vs != [] && forall k :: 0 <= k < |vs| ==> ScalarIn(t, vs[k])
    ensures forall k :: 0 <= k < |vs[1..]| ==> ScalarIn(t, vs[1..][k])
  {
    forall k | 0 <= k < |vs[1..]| ensures ScalarIn(t, vs[1..][k]) {
      assert vs[1..][k] == vs[k + 1];
    }
  }

  /** Where b ends with x + y from i on, x stands at i and y follows it to the end. */
  lemma {:induction false} SuffixSplit(b: seq<byte>, i: nat, x: seq<byte>, y: seq<byte>)
    requires i <= |b| && b[i..] == x + y
    ensures i + |x| <= |b| && b[i..i + |x|] == x && b[i + |x|..] == y
  {
    assert b[i..i + |x|] == b[i..][..|x|];
    assert b[i + |x|..] == b[i..][|x|..];
  }

  lemma {:induction false} PackedValuesStep(b: seq<byte>, i: nat, t: ScalarType, vs: seq<Value>, j: nat)
    requires vs != [] && i < |b| && PackedElemAt(b, i, t) == Ok((vs[0], j)) && ValuesFrom(b, j, t) == Ok(vs[1..])
    ensures ValuesFrom(b, i, t) == Ok(vs)
  {
    assert vs == [vs[0]] + vs[1..];
  }

  // ---------------------------------------------------------------- one field on the wire

  /** What the encoder writes after a field's key: a varint, the bytes of a fixed-width number
      (wire type 1 or 5), or a length-prefixed payload. */
  datatype Layout = LVarint(n: nat) | LFixed(wt: nat, p: seq<byte>) | LDelimited(p: seq<byte>)

  function LayoutWireType(l: Layout): (wt: nat)
    ensures wt < 8
  {
    match l
    case LVarint(_) => 0
    case LFixed(wt, _) => if wt == 1 then 1 else 5
    case LDelimited(_) => 2
  }

  function LayoutBytes(l: Layout): seq<byte>
  {
    match l
    case LVarint(n) => VarintBytes(n)
    case LFixed(_, p) => p
    case LDelimited(p) => VarintBytes(|p|) + p
  }

  predicate LayoutFits(l: Layout)
  {
    match l
    case LVarint(n) => IsUint64(n)
    case LFixed(wt, p) => (wt == 1 && |p| == 8) || (wt == 5 && |p| == 4)
    case LDelimited(_) => true
  }

  /** The bytes of one field: its key, then its layout. */
  function LaidOut(field: nat, l: Layout): seq<byte>
  {
    WriteKey(field, LayoutWireType(l)).value + LayoutBytes(l)
  }

  /** What decode makes of a layout under the field's spec. */
  function ReadBack(l: Layout, spec: Option<FieldSpec>, depth: nat): Result<Value>
  {
    match l
    case LVarint(n) => Ok(if spec.Some? then FromVarint(TypeOf(spec), n) else VInt(n))
    case LFixed(wt, p) =>
      Ok(if wt == 1 then From64(TypeOf(spec), FromLittleEndian(p)) else From32(TypeOf(spec), FromLittleEndian(p)))
    case LDelimited(p) => LdValue(p, spec, depth)
  }

  /** A key is never empty. */
  lemma {:induction false} KeyLength(field: nat, wt: nat)
    requires wt < 8
    ensures WriteKey(field, wt).Ok? && |WriteKey(field, wt).value| >= 1
  {
    VarintBytesShape(field * 8 + wt);
  }

  /** A field laid out at i is read back as its number and the value its layout decodes to,
      with the index just past it. */
  lemma {:induction false} ReadLayout(b: seq<byte>, i: nat, ns: Schema, depth: nat, field: nat, l: Layout, v: Value)
    requires field < TWO_61 && LayoutFits(l) && |b| < TWO_64
    requires |LayoutBytes(l)| < TWO_64 ==> ReadBack(l, SpecOf(ns, field), depth) == Ok(v)
    ensures |LaidOut(field, l)| >= 1
    ensures var f := LaidOut(field, l);
      i + |f| <= |b| && b[i..i + |f|] == f ==> ReadField(b, i, ns, depth) == Ok(Field(field, v, i + |f|))
  {
    KeyLength(field, LayoutWireType(l));
    var f := LaidOut(field, l);
    if i + |f| <= |b| && b[i..i + |f|] == f {
      assert |LayoutBytes(l)| < TWO_64;
      ReadLayoutAt(b, i, ns, depth, field, l, v, i + |f|);
    }
  }

  lemma {:induction false} ReadLayoutAt(b: seq<byte>, i: nat, ns: Schema, depth: nat, field: nat, l: Layout, v: Value,
                                        next: nat)
    requires field < TWO_61 && LayoutFits(l) && |b| < TWO_64
    requires ReadBack(l, SpecOf(ns, field), depth) == Ok(v)
    requires |WriteKey(field, LayoutWireType(l)).value| >= 1
    requires next == i + |LaidOut(field, l)| <= |b| && b[i..next] == LaidOut(field, l)
    ensures ReadField(b, i, ns, depth) == Ok(Field(field, v, next))
  {
    var key, i1 := KeyHeader(b, i, field, l, next);
    ReadAfterKey(b, i, ns, depth, field, l, v, key, i1, next);
  }

  /** The field laid out at i, once its key is read, by its layout. */
  lemma {:induction false} ReadAfterKey(b: seq<byte>, i: nat, ns: Schema, depth: nat, field: nat, l: Layout, v: Value,
                     key: nat, i1: nat, next: nat)
    requires LayoutFits(l) && |b| < TWO_64 && ReadBack(l, SpecOf(ns, field), depth) == Ok(v)
    requires i < |b| && Varint(b, i) == Ok((key, i1)) && key / 8 == field && key % 8 == LayoutWireType(l)
    requires next == i1 + |LayoutBytes(l)| <= |b| && b[i1..next] == LayoutBytes(l)
    ensures ReadField(b, i, ns, depth) == Ok(Field(field, v, next))
  {
    match l
    case LVarint(n) =>
      VarintAt(b, i1, n, next);
      ReadVarintCase(b, i, ns, depth, field, key, i1, n, next, v);
    case LFixed(wt, p) =>
      FixedHeader(b, i1, wt, p, next);
      ReadFixedCase(b, i, ns, depth, field, key, i1, wt, p, v, next);
    case LDelimited(p) =>
      var i2 := LdHeader(b, i1, p, next);
      ReadLdCase(b, i, ns, depth, field, key, i1, i2, p, v, next);
  }

  /** The key of a field laid out at i reads back as its number and wire type. */
  lemma {:induction false} KeyHeader(b: seq<byte>, i: nat, field: nat, l: Layout, next: nat) returns (key: nat, i1: nat)
    requires field < TWO_61
    requires next == i + |LaidOut(field, l)| <= |b| && b[i..next] == LaidOut(field, l)
    ensures i1 == i + |WriteKey(field, LayoutWireType(l)).value|
    ensures next == i1 + |LayoutBytes(l)| && b[i1..next] == LayoutBytes(l)
    ensures i < |b| && Varint(b, i) == Ok((key, i1)) && key / 8 == field && key % 8 == LayoutWireType(l)
  {
    var k := WriteKey(field, LayoutWireType(l)).value;
    var y := LayoutBytes(l);
    i1 := i + |k|;
    SliceSplit(b, i, k, y, i1, next);
    ReadWriteKey(field, LayoutWireType(l), b, i);
    KeyLength(field, LayoutWireType(l));
    key := ReadVarintAt(b, i).value.0;
  }

  /** The wire-type-0 branch of decode's field loop. */
  lemma {:induction false} ReadVarintCase(b: seq<byte>, i: nat, ns: Schema, depth: nat, field: nat, key: nat, i1: nat,
                       n: nat, j: nat, v: Value)
    requires i < |b| && Varint(b, i) == Ok((key, i1)) && key / 8 == field && key % 8 == 0
    requires Varint(b, i1) == Ok((n, j))
    requires ReadBack(LVarint(n), SpecOf(ns, field), depth) == Ok(v)
    ensures ReadField(b, i, ns, depth) == Ok(Field(field, v, j))
  {
  }

  /** After the key of a fixed-width field, its little-endian number. */
  lemma {:induction false} FixedHeader(b: seq<byte>, i1: nat, wt: nat, p: seq<byte>, next: nat)
    requires (wt == 1 && |p| == 8) || (wt == 5 && |p| == 4)
    requires next == i1 + |p| <= |b| && b[i1..next] == p
    ensures wt == 1 ==> ReadFixed64(b, i1) == Ok((FromLittleEndian(p), next))
    ensures wt == 5 ==> ReadFixed32(b, i1) == Ok((FromLittleEndian(p), next))
  {
  }

  /** The wire-type-1 and wire-type-5 branches of decode's field loop. */
  lemma {:induction false} ReadFixedCase(b: seq<byte>, i: nat, ns: Schema, depth: nat, field: nat, key: nat, i1: nat,
                      wt: nat, p: seq<byte>, v: Value, next: nat)
    requires i < |b| && Varint(b, i) == Ok((key, i1)) && key / 8 == field && key % 8 == LayoutWireType(LFixed(wt, p))
    requires wt == 1 ==> ReadFixed64(b, i1) == Ok((FromLittleEndian(p), next))
    requires wt == 5 ==> ReadFixed32(b, i1) == Ok((FromLittleEndian(p), next))
    requires (wt == 1 && |p| == 8) || (wt == 5 && |p| == 4)
    requires ReadBack(LFixed(wt, p), SpecOf(ns, field), depth) == Ok(v)
    ensures ReadField(b, i, ns, depth) == Ok(Field(field, v, next))
  {
  }

  /** After the key of a length-delimited field, the length prefix and the payload. */
  lemma {:induction false} LdHeader(b: seq<byte>, i1: nat, p: seq<byte>, next: nat) returns (i2: nat)
    requires |b| < TWO_64
    requires next == i1 + |LayoutBytes(LDelimited(p))| <= |b| && b[i1..next] == LayoutBytes(LDelimited(p))
    ensures Varint(b, i1) == Ok((|p|, i2)) && next == i2 + |p| && b[i2..next] == p
  {
    var n := VarintBytes(|p|);
    assert LayoutBytes(LDelimited(p)) == n + p;
    i2 := i1 + |n|;
    SliceSplit(b, i1, n, p, i2, next);
    VarintAt(b, i1, |p|, i2);
  }

  /** A length prefix written at j reads back as the length, with the index after it. */
  lemma {:induction false} VarintAt(b: seq<byte>, j: nat, n: nat, e: nat)
    requires n < TWO_64
    requires e == j + |VarintBytes(n)| <= |b| && b[j..e] == VarintBytes(n)
    ensures Varint(b, j) == Ok((n, e))
  {
    ReadWriteVarintAt(n, b, j, e);
  }

  /** The wire-type-2 branch of decode's field loop. */
  lemma {:induction false} ReadLdCase(b: seq<byte>, i: nat, ns: Schema, depth: nat, field: nat, key: nat, i1: nat, i2: nat,
                   p: seq<byte>, v: Value, next: nat)
    requires i < |b| && Varint(b, i) == Ok((key, i1)) && key / 8 == field && key % 8 == 2
    requires Varint(b, i1) == Ok((|p|, i2)) && next == i2 + |p| <= |b| && b[i2..next] == p
    requires ReadBack(LDelimited(p), SpecOf(ns, field), depth) == Ok(v)
    ensures ReadField(b, i, ns, depth) == Ok(Field(field, v, next))
  {
  }

  // ---------------------------------------------------------------- what each value is written as

  /** The field spec's kinds under which a scalar of type t is written one value per key. */
  predicate OneValueKind(kind: Kind, t: ScalarType)
  {
    kind == Scalar(t) || (kind == RepeatedScalar(t) && !Packable(t))
  }

  function ScalarLayout(t: ScalarType, v: Value): Layout
    requires ScalarIn(t, v)
  {
    if IsVarintType(t) then
      VarintScalarRoundTrip(t, v);
      LVarint(VarintValue(t, v).value)
    else if t == TString then LDelimited(Utf8.Encode(v.s))
    else if t == TBytes then LDelimited(v.bytes)
    else
      FixedScalarRoundTrip(t, v);
      LFixed(WireType(t), FixedBytes(t, v).value)
  }

  /** A scalar field is written as its key and the scalar's layout, which decode reads back as
      the scalar. */
  lemma {:induction false} ScalarLaidOut(field: nat, t: ScalarType, v: Value, sp: FieldSpec, depth: nat)
    requires ScalarIn(t, v) && OneValueKind(sp.kind, t)
    ensures LayoutFits(ScalarLayout(t, v))
    ensures ScalarField(field, t, v) == Ok(LaidOut(field, ScalarLayout(t, v)))
    ensures ReadBack(ScalarLayout(t, v), Some(sp), depth) == Ok(v)
  {
    if IsVarintType(t) {
      VarintScalarRoundTrip(t, v);
    } else if t == TString {
      Utf8.DecodeEncode(v.s);
    } else if t != TBytes {
      FixedScalarRoundTrip(t, v);
    }
  }

  /** A packed list is written as one length-delimited field whose payload decode reads back
      as the list. */
  lemma {:induction false} PackedLaidOut(field: nat, t: ScalarType, vs: seq<Value>, sp: FieldSpec, depth: nat)
    requires sp.kind == Packed(t) || sp.kind == RepeatedScalar(t)
    requires Packable(t) && forall k :: 0 <= k < |vs| ==> ScalarIn(t, vs[k])
    ensures PackedEncoding(vs, t).Ok?
    ensures LdWrite(field, PackedEncoding(vs, t).value) == Ok(LaidOut(field, LDelimited(PackedEncoding(vs, t).value)))
    ensures ReadBack(LDelimited(PackedEncoding(vs, t).value), Some(sp), depth) == Ok(VList(vs))
  {
    PackedEncodingOk(vs, t);
    var p := PackedEncoding(vs, t).value;
    assert p[0..] == p;
    PackedRoundTrip(vs, t, p, 0);
    assert WriteKey(field, 2).value + VarintBytes(|p|) + p == WriteKey(field, 2).value + (VarintBytes(|p|) + p);
  }

  /** A nested message is written as one length-delimited field whose payload decode reads back,
      one level deeper, as the message. */
  lemma {:induction false} MessageLaidOut(field: nat, sub: Schema, v: Value, sp: FieldSpec, depth: nat)
    requires sp.kind == Message(sub) || sp.kind == RepeatedMessage(sub)
    requires WellFormed(sub) && ItemIn(v, sub) && depth + 1 + MsgDepth(v.entries) <= MAX_NESTING_DEPTH
    ensures Encoded(v.entries, sub).Ok?
    ensures MessageField(field, sub, v) == Ok(LaidOut(field, LDelimited(Encoded(v.entries, sub).value)))
    ensures var l := LDelimited(Encoded(v.entries, sub).value);
      |LayoutBytes(l)| < TWO_64 ==> ReadBack(l, Some(sp), depth) == Ok(v)
    decreases Size(v), 0
  {
    MsgRoundTrip(v.entries, sub, depth + 1);
    var p := Encoded(v.entries, sub).value;
    assert WriteKey(field, 2).value + VarintBytes(|p|) + p == WriteKey(field, 2).value + (VarintBytes(|p|) + p);
    if |p| < TWO_64 {
      assert Nested(p, sub, depth) == Ok(v);
      assert ReadBack(LDelimited(p), Some(sp), depth) == LdValue(p, Some(sp), depth) == Nested(p, sub, depth);
    }
  }

  // ---------------------------------------------------------------- storing what was read

  /** What decode's loop returns when it resumes at i with the entries `out` stored and the
      oneof groups `seen` selected. */
  function Resume(b: seq<byte>, i: nat, ns: Schema, depth: nat, out: seq<Entry>, seen: map<string, string>)
    : Result<seq<Entry>>
    requires i <= |b|
  {
    Fields(b, i, ns, depth, out, seen)
  }

  /** `oneof_seen` after a field of spec sp is stored. */
  function SeenAfter(seen: map<string, string>, sp: FieldSpec): map<string, string>
  {
    if GroupOfSpec(sp).Some? then seen[GroupOfSpec(sp).value := sp.name] else seen
  }

  /** A singleton seen for the first time, with no member of its group stored before, is
      appended. */
  lemma {:induction false} MergeSingletonNew(out: seq<Entry>, seen: map<string, string>, sp: FieldSpec, field: int, v: Value)
    requires !IsRepeated(sp) && Name(sp.name) !in Keys(out)
    requires GroupOfSpec(sp).Some? ==> GroupOfSpec(sp).value !in seen
    ensures Merge(out, seen, Some(sp), field, v) == Ok((out + [Entry(Name(sp.name), v)], SeenAfter(seen, sp)))
  {
  }

  /** A repeated field seen for the first time stores the list of its values. */
  lemma {:induction false} MergeRepeatedNew(out: seq<Entry>, seen: map<string, string>, sp: FieldSpec, field: int, v: Value)
    requires IsRepeated(sp) && Name(sp.name) !in Keys(out)
    ensures Merge(out, seen, Some(sp), field, v) == Ok((out + [Entry(Name(sp.name), VList(AsList(v)))], seen))
  {
  }

  /** The output after the values `prefix` of a repeated field were stored under `key`. */
  function Acc(out: seq<Entry>, key: Key, prefix: seq<Value>): seq<Entry>
  {
    if prefix == [] then out else out + [Entry(key, VList(prefix))]
  }

  /** A repeated field's value is appended to what its earlier occurrences stored. */
  lemma {:induction false} MergeRepeatedNext(out: seq<Entry>, seen: map<string, string>, sp: FieldSpec, field: int,
                          prefix: seq<Value>, x: Value)
    requires IsRepeated(sp) && Name(sp.name) !in Keys(out) && !x.VList?
    ensures Merge(Acc(out, Name(sp.name), prefix), seen, Some(sp), field, x)
            == Ok((Acc(out, Name(sp.name), prefix + [x]), seen))
  {
    var key := Name(sp.name);
    if prefix == [] {
      assert [] + [x] == [x];
    } else {
      LookupAppend(out, Entry(key, VList(prefix)), key);
      SetLast(out, key, VList(prefix), VList(prefix + [x]));
    }
  }

  /** Reading a field laid out at i stores it as decode's merge step says. */
  lemma {:induction false} StoreField(b: seq<byte>, i: nat, ns: Schema, depth: nat, out: seq<Entry>, seen: map<string, string>,
                   field: nat, l: Layout, v: Value, out': seq<Entry>, seen': map<string, string>)
    requires field < TWO_61 && LayoutFits(l) && |b| < TWO_64
    requires |LayoutBytes(l)| < TWO_64 ==> ReadBack(l, SpecOf(ns, field), depth) == Ok(v)
    requires Merge(out, seen, SpecOf(ns, field), field, v) == Ok((out', seen'))
    ensures |LaidOut(field, l)| >= 1
    ensures var f := LaidOut(field, l);
      i + |f| <= |b| && b[i..i + |f|] == f ==>
      Resume(b, i, ns, depth, out, seen) == Resume(b, i + |f|, ns, depth, out', seen')
  {
    KeyLength(field, LayoutWireType(l));
    var f := LaidOut(field, l);
    if i + |f| <= |b| && b[i..i + |f|] == f {
      assert ReadBack(l, SpecOf(ns, field), depth) == Ok(v) by {
        assert |f| == |WriteKey(field, LayoutWireType(l)).value| + |LayoutBytes(l)|;
      }
      ReadThenStore(b, i, ns, depth, out, seen, field, l, v, out', seen', i + |f|);
    }
  }

  lemma {:induction false} ReadThenStore(b: seq<byte>, i: nat, ns: Schema, depth: nat, out: seq<Entry>, seen: map<string, string>,
                      field: nat, l: Layout, v: Value, out': seq<Entry>, seen': map<string, string>, next: nat)
    requires field < TWO_61 && LayoutFits(l) && |b| < TWO_64
    requires ReadBack(l, SpecOf(ns, field), depth) == Ok(v)
    requires |WriteKey(field, LayoutWireType(l)).value| >= 1
    requires Merge(out, seen, SpecOf(ns, field), field, v) == Ok((out', seen'))
    requires next == i + |LaidOut(field, l)| <= |b| && b[i..next] == LaidOut(field, l)
    ensures Resume(b, i, ns, depth, out, seen) == Resume(b, next, ns, depth, out', seen')
  {
    ReadLayoutAt(b, i, ns, depth, field, l, v, next);
    FieldsAt(b, i, ns, depth, out, seen, field, v, next, out', seen');
  }

  lemma {:induction false} FieldsAt(b: seq<byte>, i: nat, ns: Schema, depth: nat, out: seq<Entry>, seen: map<string, string>,
                 field: nat, v: Value, next: nat, out': seq<Entry>, seen': map<string, string>)
    requires i < next <= |b| && ReadField(b, i, ns, depth) == Ok(Field(field, v, next))
    requires Merge(out, seen, SpecOf(ns, field), field, v) == Ok((out', seen'))
    ensures Resume(b, i, ns, depth, out, seen) == Resume(b, next, ns, depth, out', seen')
  {
    assert Resume(b, i, ns, depth, out, seen) == FieldStep(b, i, ns, depth, out, seen);
  }

  /** Reading a singleton field laid out at i appends it to the output. */
  lemma {:induction false} StoreSingleton(b: seq<byte>, i: nat, ns: Schema, depth: nat, out: seq<Entry>, seen: map<string, string>,
                       field: nat, l: Layout, v: Value)
    requires field < TWO_61 && field in ns.fields && !IsRepeated(ns.fields[field])
    requires LayoutFits(l) && |b| < TWO_64
    requires |LayoutBytes(l)| < TWO_64 ==> ReadBack(l, SpecOf(ns, field), depth) == Ok(v)
    requires Name(ns.fields[field].name) !in Keys(out)
    requires GroupOfSpec(ns.fields[field]).Some? ==> GroupOfSpec(ns.fields[field]).value !in seen
    ensures var f := LaidOut(field, l); var sp := ns.fields[field];
      i + |f| <= |b| && b[i..i + |f|] == f ==>
      Resume(b, i, ns, depth, out, seen) == Resume(b, i + |f|, ns, depth, out + [Entry(Name(sp.name), v)], SeenAfter(seen, sp))
  {
    var sp := ns.fields[field];
    MergeSingletonNew(out, seen, sp, field, v);
    StoreField(b, i, ns, depth, out, seen, field, l, v, out + [Entry(Name(sp.name), v)], SeenAfter(seen, sp));
  }

  /** Reading a packed field laid out at i stores its list. */
  lemma {:induction false} StorePacked(b: seq<byte>, i: nat, ns: Schema, depth: nat, out: seq<Entry>, seen: map<string, string>,
                    field: nat, l: Layout, vs: seq<Value>)
    requires field < TWO_61 && field in ns.fields && IsRepeated(ns.fields[field])
    requires LayoutFits(l) && |b| < TWO_64
    requires ReadBack(l, SpecOf(ns, field), depth) == Ok(VList(vs))
    requires Name(ns.fields[field].name) !in Keys(out)
    ensures var f := LaidOut(field, l); var sp := ns.fields[field];
      i + |f| <= |b| && b[i..i + |f|] == f ==>
      Resume(b, i, ns, depth, out, seen) == Resume(b, i + |f|, ns, depth, out + [Entry(Name(sp.name), VList(vs))], seen)
  {
    var sp := ns.fields[field];
    MergeRepeatedNew(out, seen, sp, field, VList(vs));
    StoreField(b, i, ns, depth, out, seen, field, l, VList(vs), out + [Entry(Name(sp.name), VList(vs))], seen);
  }

  /** Reading one occurrence of a repeated field laid out at i extends its list. */
  lemma {:induction false} StoreRepeated(b: seq<byte>, i: nat, ns: Schema, depth: nat, out: seq<Entry>, seen: map<string, string>,
                      field: nat, l: Layout, x: Value, prefix: seq<Value>)
    requires field < TWO_61 && field in ns.fields && IsRepeated(ns.fields[field]) && !x.VList?
    requires LayoutFits(l) && |b| < TWO_64
    requires |LayoutBytes(l)| < TWO_64 ==> ReadBack(l, SpecOf(ns, field), depth) == Ok(x)
    requires Name(ns.fields[field].name) !in Keys(out)
    ensures |LaidOut(field, l)| >= 1
    ensures var f := LaidOut(field, l); var key := Name(ns.fields[field].name);
      i + |f| <= |b| && b[i..i + |f|] == f ==>
      Resume(b, i, ns, depth, Acc(out, key, prefix), seen) == Resume(b, i + |f|, ns, depth, Acc(out, key, prefix + [x]), seen)
  {
    var sp := ns.fields[field];
    var key := Name(sp.name);
    MergeRepeatedNext(out, seen, sp, field, prefix, x);
    StoreField(b, i, ns, depth, Acc(out, key, prefix), seen, field, l, x, Acc(out, key, prefix + [x]), seen);
  }

  // ---------------------------------------------------------------- the round trip

  /** The items of a repeated field written one value per key. */
  predicate ItemsFit(kind: Kind, vs: seq<Value>)
  {
    match kind
    case RepeatedScalar(t) => !Packable(t) && forall k :: 0 <= k < |vs| ==> ScalarIn(t, vs[k])
    case RepeatedMessage(sub) => WellFormed(sub) && ItemsIn(vs, sub)
    case _ => false
  }

  lemma {:induction false} ItemsFitTail(kind: Kind, vs: seq<Value>)
    requires vs != [] && ItemsFit(kind, vs)
    ensures ItemsFit(kind, vs[1..])
  {
    if kind.RepeatedScalar? {
      ScalarsTail(kind.elem, vs);
    } else {
      forall k | 0 <= k < |vs[1..]| ensures ItemIn(vs[1..][k], kind.schema) {
        assert vs[1..][k] == vs[k + 1];
      }
    }
  }

  /** The chunks cs written one after another. */
  function Concat(cs: seq<seq<byte>>): seq<byte>
  {
    if cs == [] then [] else cs[0] + Concat(cs[1..])
  }

  lemma {:induction false} ConcatAppend(a: seq<seq<byte>>, c: seq<seq<byte>>)
    ensures Concat(a + c) == Concat(a) + Concat(c)
  {
    if a != [] {
      assert (a + c)[0] == a[0] && (a + c)[1..] == a[1..] + c;
      ConcatAppend(a[1..], c);
      assert a[0] + (Concat(a[1..]) + Concat(c)) == (a[0] + Concat(a[1..])) + Concat(c);
    } else {
      assert a + c == c;
    }
  }

  /** The bytes of the first k chunks are a prefix of those of all. */
  lemma {:induction false} ConcatPrefix(cs: seq<seq<byte>>, k: nat)
    requires k <= |cs|
    ensures |Concat(cs[..k])| <= |Concat(cs)|
  {
    ConcatAppend(cs[..k], cs[k..]);
    assert cs[..k] + cs[k..] == cs;
  }

  /** Where chunk k of cs begins: the length of the chunks before it. */
  function Offset(cs: seq<seq<byte>>, k: nat): (n: nat)
    requires k <= |cs|
    ensures n <= |Concat(cs)|
    ensures k == |cs| ==> n == |Concat(cs)|
  {
    ConcatPrefix(cs, k);
    assert k == |cs| ==> cs[..k] == cs;
    |Concat(cs[..k])|
  }

  /** Chunk k stands between the chunks before it and those after it. */
  lemma {:induction false} ConcatAt(cs: seq<seq<byte>>, k: nat)
    requires k < |cs|
    ensures Concat(cs) == Concat(cs[..k]) + (cs[k] + Concat(cs[k + 1..]))
  {
    assert Concat(cs) == Concat(cs[..k]) + Concat(cs[k..]) by {
      ConcatAppend(cs[..k], cs[k..]);
      assert cs[..k] + cs[k..] == cs;
    }
    assert Concat(cs[k..]) == cs[k] + Concat(cs[k + 1..]) by {
      assert cs[k..][1..] == cs[k + 1..];
    }
  }

  /** The first k + 1 chunks are the first k and chunk k. */
  lemma {:induction false} ConcatTake(cs: seq<seq<byte>>, k: nat)
    requires k < |cs|
    ensures Concat(cs[..k + 1]) == Concat(cs[..k]) + cs[k]
  {
    assert Concat([cs[k]]) == cs[k] by {
      assert Concat([cs[k]]) == cs[k] + Concat([]);
    }
    ConcatAppend(cs[..k], [cs[k]]);
    assert cs[..k] + [cs[k]] == cs[..k + 1];
  }

  /** Where the chunks cs stand at i0 in b, chunk k stands after the k before it. */
  lemma {:induction false} ConcatSlice(b: seq<byte>, i0: nat, cs: seq<seq<byte>>, k: nat)
    requires k < |cs|
    requires var e := Concat(cs); i0 + |e| <= |b| && b[i0..i0 + |e|] == e
    ensures Offset(cs, k) <= Offset(cs, k + 1) && i0 + Offset(cs, k + 1) <= |b|
    ensures b[i0 + Offset(cs, k)..i0 + Offset(cs, k + 1)] == cs[k]
  {
    var a := Concat(cs[..k]);
    var x := cs[k];
    var e := Concat(cs);
    var r := Concat(cs[k + 1..]);
    ConcatAt(cs, k);
    ConcatTake(cs, k);
    MiddleSlice(b, i0, a, x, r);
    assert Offset(cs, k) == |a| && Offset(cs, k + 1) == |a| + |x|;
  }

  /** x is written as the layout l, whose bytes under the field's key are c, and which decode
      reads back as x. */
  predicate ItemReads(field: nat, sp: FieldSpec, depth: nat, l: Layout, c: seq<byte>, x: Value)
  {
    && LayoutFits(l) && !x.VList? && c == LaidOut(field, l)
    && (|LayoutBytes(l)| < TWO_64 ==> ReadBack(l, Some(sp), depth) == Ok(x))
  }

  /** The values vs of the repeated field `field` (spec sp), each laid out by itself as ls says
      in the bytes cs, with no earlier list under the field's name in out, are written at i0
      in b. */
  predicate RepeatedAt(b: seq<byte>, i0: nat, ns: Schema, depth: nat, field: nat, sp: FieldSpec,
                       vs: seq<Value>, ls: seq<Layout>, cs: seq<seq<byte>>, out: seq<Entry>)
  {
    RepeatedIn(ns, field, sp, out) && ItemsRead(field, sp, depth, vs, ls, cs) && ChunksAt(b, i0, cs)
  }

  /** `field` is a repeated field of ns, with no list under its name in out yet. */
  predicate RepeatedIn(ns: Schema, field: nat, sp: FieldSpec, out: seq<Entry>)
  {
    field < TWO_61 && SpecOf(ns, field) == Some(sp) && IsRepeated(sp) && Name(sp.name) !in Keys(out)
  }

  /** Each value vs[k] is laid out as ls[k], in the bytes cs[k]. */
  predicate ItemsRead(field: nat, sp: FieldSpec, depth: nat, vs: seq<Value>, ls: seq<Layout>, cs: seq<seq<byte>>)
  {
    && |ls| == |vs| && |cs| == |vs|
    && (forall k {:trigger ItemReads(field, sp, depth, ls[k], cs[k], vs[k])} ::
          0 <= k < |vs| ==> ItemReads(field, sp, depth, ls[k], cs[k], vs[k]))
  }

  /** The chunks cs stand one after another at i0 in b. */
  predicate ChunksAt(b: seq<byte>, i0: nat, cs: seq<seq<byte>>)
  {
    |b| < TWO_64 && var e := Concat(cs); i0 + |e| <= |b| && b[i0..i0 + |e|] == e
  }

  /** What decode reads from the end of the first k chunks on, with the first k values of the
      repeated field collected under its key. */
  function ReadOn(b: seq<byte>, i0: nat, ns: Schema, depth: nat, key: Key, vs: seq<Value>,
                  cs: seq<seq<byte>>, out: seq<Entry>, seen: map<string, string>, k: nat): Result<seq<Entry>>
    requires k <= |vs| == |cs| && i0 + |Concat(cs)| <= |b|
  {
    Resume(b, i0 + Offset(cs, k), ns, depth, Acc(out, key, vs[..k]), seen)
  }

  /** When each value read after the ones before it leaves the outcome unchanged, reading from
      the k-th value on gives what reading from the end does. */
  lemma {:induction false} ReadOnChain(b: seq<byte>, i0: nat, ns: Schema, depth: nat, key: Key, vs: seq<Value>,
                                       cs: seq<seq<byte>>, out: seq<Entry>, seen: map<string, string>, k: nat)
    requires k <= |vs| == |cs| && i0 + |Concat(cs)| <= |b|
    requires forall j :: k <= j < |vs| ==>
               ReadOn(b, i0, ns, depth, key, vs, cs, out, seen, j) == ReadOn(b, i0, ns, depth, key, vs, cs, out, seen, j + 1)
    ensures ReadOn(b, i0, ns, depth, key, vs, cs, out, seen, k) == ReadOn(b, i0, ns, depth, key, vs, cs, out, seen, |vs|)
    decreases |vs| - k
  {
    if k < |vs| {
      ReadOnChain(b, i0, ns, depth, key, vs, cs, out, seen, k + 1);
    }
  }

  /** Reading value k of a repeated field, after the k before it, appends it to the list. */
  lemma {:induction false} RepeatedAfter(b: seq<byte>, i0: nat, ns: Schema, depth: nat, field: nat, sp: FieldSpec,
                      vs: seq<Value>, l: Layout, cs: seq<seq<byte>>, k: nat,
                      out: seq<Entry>, seen: map<string, string>)
    requires k < |vs| == |cs| && ChunksAt(b, i0, cs)
    requires RepeatedIn(ns, field, sp, out) && ItemReads(field, sp, depth, l, cs[k], vs[k])
    ensures ReadOn(b, i0, ns, depth, Name(sp.name), vs, cs, out, seen, k)
            == ReadOn(b, i0, ns, depth, Name(sp.name), vs, cs, out, seen, k + 1)
  {
    ConcatSlice(b, i0, cs, k);
    TakeStep(vs, k);
    StoreRepeatedAt(b, i0 + Offset(cs, k), i0 + Offset(cs, k + 1), ns, depth, out, seen,
                    field, sp, l, vs[k], cs[k], vs[..k], vs[..k + 1]);
  }

  /** Each value of a repeated field is read after the ones before it. */
  lemma {:induction false} RepeatedSteps(b: seq<byte>, i0: nat, ns: Schema, depth: nat, field: nat, sp: FieldSpec,
                      vs: seq<Value>, ls: seq<Layout>, cs: seq<seq<byte>>,
                      out: seq<Entry>, seen: map<string, string>)
    requires RepeatedAt(b, i0, ns, depth, field, sp, vs, ls, cs, out)
    ensures forall j :: 0 <= j < |vs| ==>
              ReadOn(b, i0, ns, depth, Name(sp.name), vs, cs, out, seen, j)
              == ReadOn(b, i0, ns, depth, Name(sp.name), vs, cs, out, seen, j + 1)
  {
    forall j | 0 <= j < |vs|
      ensures ReadOn(b, i0, ns, depth, Name(sp.name), vs, cs, out, seen, j)
              == ReadOn(b, i0, ns, depth, Name(sp.name), vs, cs, out, seen, j + 1)
    {
      assert ItemReads(field, sp, depth, ls[j], cs[j], vs[j]);
      RepeatedAfter(b, i0, ns, depth, field, sp, vs, ls[j], cs, j, out, seen);
    }
  }

  /** The values vs of a repeated field, each written under its own key one after another at
      i0, are read back as one list stored under the field's name. */
  lemma {:induction false} RepeatedRead(b: seq<byte>, i0: nat, ns: Schema, depth: nat, field: nat, sp: FieldSpec,
                     vs: seq<Value>, ls: seq<Layout>, cs: seq<seq<byte>>,
                     out: seq<Entry>, seen: map<string, string>)
    requires RepeatedAt(b, i0, ns, depth, field, sp, vs, ls, cs, out)
    ensures Resume(b, i0, ns, depth, out, seen)
            == Resume(b, i0 + |Concat(cs)|, ns, depth, Acc(out, Name(sp.name), vs), seen)
  {
    RepeatedSteps(b, i0, ns, depth, field, sp, vs, ls, cs, out, seen);
    ReadOnEnds(b, i0, ns, depth, Name(sp.name), vs, cs, out, seen);
  }

  /** The chain of ReadOn steps from before the first value to after the last. */
  lemma {:induction false} ReadOnEnds(b: seq<byte>, i0: nat, ns: Schema, depth: nat, key: Key, vs: seq<Value>,
                   cs: seq<seq<byte>>, out: seq<Entry>, seen: map<string, string>)
    requires |vs| == |cs| && i0 + |Concat(cs)| <= |b|
    requires forall j :: 0 <= j < |vs| ==>
               ReadOn(b, i0, ns, depth, key, vs, cs, out, seen, j) == ReadOn(b, i0, ns, depth, key, vs, cs, out, seen, j + 1)
    ensures Resume(b, i0, ns, depth, out, seen)
            == Resume(b, i0 + |Concat(cs)|, ns, depth, Acc(out, key, vs), seen)
  {
    ReadOnChain(b, i0, ns, depth, key, vs, cs, out, seen, 0);
    assert cs[..0] == [] && Offset(cs, 0) == 0;
    assert vs[..0] == [] && Acc(out, key, vs[..0]) == out;
    assert vs[..|vs|] == vs;
    assert ReadOn(b, i0, ns, depth, key, vs, cs, out, seen, 0) == Resume(b, i0, ns, depth, out, seen);
    assert ReadOn(b, i0, ns, depth, key, vs, cs, out, seen, |vs|)
        == Resume(b, i0 + |Concat(cs)|, ns, depth, Acc(out, key, vs), seen);
  }

  /** StoreRepeated, with the position after the field and the values read so far given. */
  lemma {:induction false} StoreRepeatedAt(b: seq<byte>, i: nat, j: nat, ns: Schema, depth: nat, out: seq<Entry>,
                        seen: map<string, string>, field: nat, sp: FieldSpec, l: Layout, x: Value,
                        c: seq<byte>, prefix: seq<Value>, prefix': seq<Value>)
    requires RepeatedIn(ns, field, sp, out) && ItemReads(field, sp, depth, l, c, x) && |b| < TWO_64
    requires j == i + |c| <= |b| && b[i..j] == c
    requires prefix' == prefix + [x]
    ensures Resume(b, i, ns, depth, Acc(out, Name(sp.name), prefix), seen)
            == Resume(b, j, ns, depth, Acc(out, Name(sp.name), prefix'), seen)
  {
    var f := LaidOut(field, l);
    assert field in ns.fields && ns.fields[field] == sp;
    assert c == f && j == i + |f|;
    StoreRepeated(b, i, ns, depth, out, seen, field, l, x, prefix);
  }

  lemma {:induction false} TakeStep<T>(vs: seq<T>, k: nat)
    requires k < |vs|
    ensures vs[..k] + [vs[k]] == vs[..k + 1]
  {
  }

  /** Where a + (x + r) stands at i0 in b, x stands after a. */
  lemma {:induction false} MiddleSlice(b: seq<byte>, i0: nat, a: seq<byte>, x: seq<byte>, r: seq<byte>)
    requires var e := a + (x + r); i0 + |e| <= |b| && b[i0..i0 + |e|] == e
    ensures i0 + |a| + |x| <= |b| && b[i0 + |a|..i0 + |a| + |x|] == x
  {
    var e := a + (x + r);
    assert e[|a|..|a| + |x|] == x;
    SubSlice(b, i0, e, |a|, |x|);
  }

  /** Where e stands at i0 in b, each slice of e stands at the same offset from i0. */
  lemma {:induction false} SubSlice(b: seq<byte>, i0: nat, e: seq<byte>, x: nat, y: nat)
    requires i0 + |e| <= |b| && b[i0..i0 + |e|] == e && x + y <= |e|
    ensures b[i0 + x..i0 + x + y] == e[x..x + y]
  {
    var d := b[i0 + x..i0 + x + y];
    var g := e[x..x + y];
    forall t | 0 <= t < y ensures d[t] == g[t] {
      assert b[i0..i0 + |e|][x + t] == b[i0 + x + t];
    }
  }

  /** Value k of a repeated field in the domain is written as its key and a layout that reads
      back as the value. */
  lemma {:induction false} RepeatedItem(field: nat, vs: seq<Value>, k: nat, sp: FieldSpec, depth: nat) returns (l: Layout)
    requires k < |vs| && ItemsFit(sp.kind, vs) && depth + ListDepth(vs) <= MAX_NESTING_DEPTH
    ensures ItemReads(field, sp, depth, l, LaidOut(field, l), vs[k])
    ensures EncodeOne(field, sp.kind, vs[k]) == Ok(LaidOut(field, l))
    decreases ListSize(vs), 1
  {
    ListSizeElem(vs, k);
    ListDepthElem(vs, k);
    var x := vs[k];
    if sp.kind.RepeatedScalar? {
      ScalarLaidOut(field, sp.kind.elem, x, sp, depth);
      l := ScalarLayout(sp.kind.elem, x);
    } else {
      assert ItemIn(vs[k], sp.kind.schema);
      MessageLaidOut(field, sp.kind.schema, x, sp, depth);
      l := LDelimited(Encoded(x.entries, sp.kind.schema).value);
    }
  }

  /** The values of a repeated field in the domain are written one after another, each as its
      key and a layout that reads back as the value. */
  lemma {:induction false} RepeatedLayouts(field: nat, vs: seq<Value>, sp: FieldSpec, depth: nat)
    returns (ls: seq<Layout>, cs: seq<seq<byte>>)
    requires ItemsFit(sp.kind, vs) && depth + ListDepth(vs) <= MAX_NESTING_DEPTH
    ensures |ls| == |vs| && |cs| == |vs|
    ensures forall k {:trigger ItemReads(field, sp, depth, ls[k], cs[k], vs[k])} ::
      0 <= k < |vs| ==> ItemReads(field, sp, depth, ls[k], cs[k], vs[k])
    ensures EachValue(field, sp.kind, vs) == Ok(Concat(cs))
    decreases ListSize(vs), 2
  {
    if vs == [] {
      ls, cs := [], [];
    } else {
      var l := RepeatedItem(field, vs, 0, sp, depth);
      ItemsFitTail(sp.kind, vs);
      ListSizeTail(vs);
      ListDepthTail(vs);
      var ls', cs' := RepeatedLayouts(field, vs[1..], sp, depth);
      ls, cs := [l] + ls', [LaidOut(field, l)] + cs';
      assert ls[1..] == ls' && cs[1..] == cs';
      forall k | 0 <= k < |vs| ensures ItemReads(field, sp, depth, ls[k], cs[k], vs[k]) {
        if k > 0 {
          assert ls[k] == ls'[k - 1] && cs[k] == cs'[k - 1] && vs[k] == vs[1..][k - 1];
          assert ItemReads(field, sp, depth, ls'[k - 1], cs'[k - 1], vs[1..][k - 1]);
        }
      }
    }
  }

  /** One entry of a message is written as bytes that decode reads back into that entry,
      appended after the entries before it. */
  lemma {:induction false} EntryRoundTrip(e: Entry, s: Schema, depth: nat, b: seq<byte>, i: nat,
                                          out: seq<Entry>, seen: map<string, string>)
    requires WellFormed(s) && EntryIn(e, s) && depth + EntryDepth(e) <= MAX_NESTING_DEPTH && |b| < TWO_64
    requires e.key !in Keys(out)
    requires var sp := s.fields[s.names[e.key.name]]; GroupOfSpec(sp).Some? ==> GroupOfSpec(sp).value !in seen
    ensures EncodeEntry(e, s).Ok?
    ensures var E := EncodeEntry(e, s).value; var sp := s.fields[s.names[e.key.name]];
      i + |E| <= |b| && b[i..i + |E|] == E ==>
      Resume(b, i, s, depth, out, seen) == Resume(b, i + |E|, s, depth, out + [e], SeenAfter(seen, sp))
    decreases EntrySize(e), 2, 0
  {
    var sp := s.fields[s.names[e.key.name]];
    if sp.kind.Scalar? || sp.kind.Message? {
      SingletonEntry(e, s, depth, b, i, out, seen);
    } else if sp.kind.Packed? || (sp.kind.RepeatedScalar? && Packable(sp.kind.elem)) {
      PackedEntry(e, s, depth, b, i, out, seen);
    } else {
      RepeatedEntry(e, s, depth, b, i, out, seen);
    }
  }

  /** The key an entry is written under names its field. */
  lemma {:induction false} EntryField(e: Entry, s: Schema)
    requires WellFormed(s) && EntryIn(e, s)
    ensures var field := s.names[e.key.name]; var sp := s.fields[field];
      FieldNumber(s, e.key) == Some(field) && SpecOf(s, field) == Some(sp)
      && e == Entry(Name(sp.name), e.val) && 0 <= field < TWO_61
  {
  }

  lemma {:induction false} SingletonEntry(e: Entry, s: Schema, depth: nat, b: seq<byte>, i: nat,
                                          out: seq<Entry>, seen: map<string, string>)
    requires WellFormed(s) && EntryIn(e, s) && depth + EntryDepth(e) <= MAX_NESTING_DEPTH && |b| < TWO_64
    requires e.key !in Keys(out)
    requires var sp := s.fields[s.names[e.key.name]]; sp.kind.Scalar? || sp.kind.Message?
    requires var sp := s.fields[s.names[e.key.name]]; GroupOfSpec(sp).Some? ==> GroupOfSpec(sp).value !in seen
    ensures EncodeEntry(e, s).Ok?
    ensures var E := EncodeEntry(e, s).value; var sp := s.fields[s.names[e.key.name]];
      i + |E| <= |b| && b[i..i + |E|] == E ==>
      Resume(b, i, s, depth, out, seen) == Resume(b, i + |E|, s, depth, out + [e], SeenAfter(seen, sp))
    decreases EntrySize(e), 1
  {
    var field := s.names[e.key.name];
    EntryField(e, s);
    var l := SingletonLayout(e, s, depth);
    StoreSingleton(b, i, s, depth, out, seen, field, l, e.val);
  }

  /** A scalar or message entry is written as one field, which decode reads back as its value. */
  lemma {:induction false} SingletonLayout(e: Entry, s: Schema, depth: nat) returns (l: Layout)
    requires WellFormed(s) && EntryIn(e, s) && depth + EntryDepth(e) <= MAX_NESTING_DEPTH
    requires var sp := s.fields[s.names[e.key.name]]; sp.kind.Scalar? || sp.kind.Message?
    ensures var field := s.names[e.key.name];
      LayoutFits(l) && EncodeEntry(e, s) == Ok(LaidOut(field, l))
    ensures |LayoutBytes(l)| < TWO_64 ==> ReadBack(l, Some(s.fields[s.names[e.key.name]]), depth) == Ok(e.val)
    decreases EntrySize(e), 0
  {
    var field := s.names[e.key.name];
    var sp := s.fields[field];
    var v := e.val;
    EntryField(e, s);
    if sp.kind.Scalar? {
      ScalarLaidOut(field, sp.kind.t, v, sp, depth);
      l := ScalarLayout(sp.kind.t, v);
    } else {
      MessageLaidOut(field, sp.kind.schema, v, sp, depth);
      l := LDelimited(Encoded(v.entries, sp.kind.schema).value);
    }
    assert EncodeEntry(e, s) == EncodeValues(field, sp.kind, v) == EncodeOne(field, sp.kind, v);
  }

  lemma {:induction false} PackedEntry(e: Entry, s: Schema, depth: nat, b: seq<byte>, i: nat,
                                       out: seq<Entry>, seen: map<string, string>)
    requires WellFormed(s) && EntryIn(e, s) && |b| < TWO_64
    requires e.key !in Keys(out)
    requires var kind := s.fields[s.names[e.key.name]].kind;
      kind.Packed? || (kind.RepeatedScalar? && Packable(kind.elem))
    ensures EncodeEntry(e, s).Ok?
    ensures var E := EncodeEntry(e, s).value;
      i + |E| <= |b| && b[i..i + |E|] == E ==>
      Resume(b, i, s, depth, out, seen) == Resume(b, i + |E|, s, depth, out + [e], seen)
  {
    var field := s.names[e.key.name];
    var sp := s.fields[field];
    EntryField(e, s);
    var l := PackedLayout(e, s, depth);
    var items := e.val.items;
    assert e == Entry(Name(sp.name), VList(items)) && sp.name == e.key.name;
    StorePacked(b, i, s, depth, out, seen, field, l, items);
    assert EncodeEntry(e, s).value == LaidOut(field, l);
  }

  /** A packed entry is written as one length-delimited field, which decode reads back as the
      entry's list. */
  lemma {:induction false} PackedLayout(e: Entry, s: Schema, depth: nat) returns (l: Layout)
    requires WellFormed(s) && EntryIn(e, s)
    requires var kind := s.fields[s.names[e.key.name]].kind;
      kind.Packed? || (kind.RepeatedScalar? && Packable(kind.elem))
    ensures var field := s.names[e.key.name];
      LayoutFits(l) && EncodeEntry(e, s) == Ok(LaidOut(field, l))
      && ReadBack(l, SpecOf(s, field), depth) == Ok(e.val)
  {
    var field := s.names[e.key.name];
    var sp := s.fields[field];
    var t := if sp.kind.Packed? then sp.kind.elem else sp.kind.elem;
    var items := e.val.items;
    EntryField(e, s);
    PackedLaidOut(field, t, items, sp, depth);
    l := LDelimited(PackedEncoding(items, t).value);
    assert EncodeEntry(e, s) == Ok(LaidOut(field, l));
  }

  lemma {:induction false} RepeatedEntry(e: Entry, s: Schema, depth: nat, b: seq<byte>, i: nat,
                                         out: seq<Entry>, seen: map<string, string>)
    requires WellFormed(s) && EntryIn(e, s) && depth + EntryDepth(e) <= MAX_NESTING_DEPTH && |b| < TWO_64
    requires e.key !in Keys(out)
    requires var kind := s.fields[s.names[e.key.name]].kind;
      kind.RepeatedMessage? || (kind.RepeatedScalar? && !Packable(kind.elem))
    ensures EncodeEntry(e, s).Ok?
    ensures var E := EncodeEntry(e, s).value;
      i + |E| <= |b| && b[i..i + |E|] == E ==>
      Resume(b, i, s, depth, out, seen) == Resume(b, i + |E|, s, depth, out + [e], seen)
    decreases EntrySize(e), 0
  {
    var field := s.names[e.key.name];
    var sp := s.fields[field];
    var items := e.val.items;
    EntryField(e, s);
    assert EncodeEntry(e, s) == EncodeValues(field, sp.kind, e.val) == EachValue(field, sp.kind, items);
    assert ListSize(items) < EntrySize(e);
    var ls, cs := RepeatedLayouts(field, items, sp, depth);
    var E := Concat(cs);
    if i + |E| <= |b| && b[i..i + |E|] == E {
      RepeatedRead(b, i, s, depth, field, sp, items, ls, cs, out, seen);
    }
  }

  /** The entries from the k-th on are read back after the first k, whose bytes come first. */
  lemma {:induction false} EntriesRoundTrip(es: seq<Entry>, s: Schema, depth: nat, b: seq<byte>, k: nat,
                                            seen: map<string, string>)
    requires WellFormed(s) && MsgIn(es, s) && depth + MsgDepth(es) <= MAX_NESTING_DEPTH && k <= |es|
    requires EncodeEntries(es, s).Ok? && b == EncodeEntries(es, s).value && |b| < TWO_64
    requires forall g :: g in seen ==> exists j :: 0 <= j < k && GroupOf(s, es[j].key) == Some(g)
    ensures EncodeEntries(es[..k], s).Ok? && |EncodeEntries(es[..k], s).value| <= |b|
    ensures Resume(b, |EncodeEntries(es[..k], s).value|, s, depth, es[..k], seen) == Ok(es)
    decreases EntriesSize(es), 3, |es| - k
  {
    if k == |es| {
      assert es[..k] == es;
    } else {
      var e := es[k];
      EntriesSizeElem(es, k);
      MsgDepthElem(es, k);
      var sp := s.fields[s.names[e.key.name]];
      KeyFresh(es, k);
      if GroupOfSpec(sp).Some? {
        GroupUnseen(es, s, k, seen, GroupOfSpec(sp).value);
      }
      EntryAfter(es, s, depth, k, seen);
      SeenStep(es, s, k, seen);
      EntriesRoundTrip(es, s, depth, b, k + 1, SeenAfter(seen, sp));
    }
  }

  /** Reading entry k, after the k before it, stores it. */
  lemma {:induction false} EntryAfter(es: seq<Entry>, s: Schema, depth: nat, k: nat, seen: map<string, string>)
    requires k < |es| && WellFormed(s) && EntryIn(es[k], s) && depth + EntryDepth(es[k]) <= MAX_NESTING_DEPTH
    requires EncodeEntries(es, s).Ok? && |EncodeEntries(es, s).value| < TWO_64
    requires EntrySize(es[k]) <= EntriesSize(es)
    requires es[k].key !in Keys(es[..k])
    requires var sp := s.fields[s.names[es[k].key.name]]; GroupOfSpec(sp).Some? ==> GroupOfSpec(sp).value !in seen
    ensures EncodeEntries(es[..k], s).Ok? && EncodeEntries(es[..k + 1], s).Ok?
    ensures var b := EncodeEntries(es, s).value; var sp := s.fields[s.names[es[k].key.name]];
      var i := |EncodeEntries(es[..k], s).value|; var j := |EncodeEntries(es[..k + 1], s).value|;
      i <= j <= |b| && Resume(b, i, s, depth, es[..k], seen) == Resume(b, j, s, depth, es[..k + 1], SeenAfter(seen, sp))
    decreases EntriesSize(es), 2
  {
    EntryBytes(es, s, k);
    TakeStep(es, k);
    EntryAt(es[k], s, depth, EncodeEntries(es, s).value, |EncodeEntries(es[..k], s).value|,
            |EncodeEntries(es[..k + 1], s).value|, es[..k], es[..k + 1], seen);
  }

  /** EntryRoundTrip, with the position after the entry and the entries read by then given. */
  lemma {:induction false} EntryAt(e: Entry, s: Schema, depth: nat, b: seq<byte>, i: nat, j: nat,
                out: seq<Entry>, out': seq<Entry>, seen: map<string, string>)
    requires WellFormed(s) && EntryIn(e, s) && depth + EntryDepth(e) <= MAX_NESTING_DEPTH && |b| < TWO_64
    requires e.key !in Keys(out) && out' == out + [e]
    requires var sp := s.fields[s.names[e.key.name]]; GroupOfSpec(sp).Some? ==> GroupOfSpec(sp).value !in seen
    requires EncodeEntry(e, s).Ok? && j == i + |EncodeEntry(e, s).value| <= |b|
    requires b[i..j] == EncodeEntry(e, s).value
    ensures Resume(b, i, s, depth, out, seen)
            == Resume(b, j, s, depth, out', SeenAfter(seen, s.fields[s.names[e.key.name]]))
    decreases EntrySize(e), 2, 1
  {
    EntryRoundTrip(e, s, depth, b, i, out, seen);
  }

  /** The bytes of the first k + 1 entries are those of the first k followed by entry k's. */
  lemma {:induction false} EntryBytes(es: seq<Entry>, s: Schema, k: nat)
    requires k < |es| && EncodeEntries(es, s).Ok?
    ensures EncodeEntries(es[..k], s).Ok? && EncodeEntry(es[k], s).Ok? && EncodeEntries(es[..k + 1], s).Ok?
    ensures var a := EncodeEntries(es[..k], s).value; var x := EncodeEntry(es[k], s).value;
      var b := EncodeEntries(es, s).value;
      EncodeEntries(es[..k + 1], s).value == a + x && |a| + |x| <= |b| && b[|a|..|a| + |x|] == x
    ensures |EncodeEntries(es[..k + 1], s).value|
            == |EncodeEntries(es[..k], s).value| + |EncodeEntry(es[k], s).value|
  {
    var e := es[k];
    EncodeEntriesAppend(es[..k], es[k..], s);
    assert es[..k] + es[k..] == es;
    assert es[k..][0] == e && es[k..][1..] == es[k + 1..];
    EncodeEntriesOk(es[k..], s);
    var a := EncodeEntries(es[..k], s).value;
    var x := EncodeEntry(e, s).value;
    var rest := EncodeEntries(es[k + 1..], s).value;
    var b := EncodeEntries(es, s).value;
    assert b == a + (x + rest);
    assert b[|a|..|a| + |x|] == x;
    assert es[..k] + [e] == es[..k + 1];
    EncodeEntriesAppend(es[..k], [e], s);
    assert [e][1..] == [];
  }

  /** In a message with distinct keys, the key of entry k is not among those before it. */
  lemma {:induction false} KeyFresh(es: seq<Entry>, k: nat)
    requires k < |es| && DistinctKeys(es)
    ensures es[k].key !in Keys(es[..k])
  {
    forall j | 0 <= j < k ensures Keys(es[..k])[j] != es[k].key {
      assert Keys(es[..k])[j] == es[j].key;
    }
  }

  /** Every group seen after entry k is stored is the group of one of the first k + 1 entries. */
  lemma {:induction false} SeenStep(es: seq<Entry>, s: Schema, k: nat, seen: map<string, string>)
    requires k < |es| && WellFormed(s) && EntryIn(es[k], s)
    requires forall g :: g in seen ==> exists j :: 0 <= j < k && GroupOf(s, es[j].key) == Some(g)
    ensures var seen' := SeenAfter(seen, s.fields[s.names[es[k].key.name]]);
      forall g :: g in seen' ==> exists j :: 0 <= j < k + 1 && GroupOf(s, es[j].key) == Some(g)
  {
    var sp := s.fields[s.names[es[k].key.name]];
    EntryField(es[k], s);
    forall g | g in SeenAfter(seen, sp) ensures exists j :: 0 <= j < k + 1 && GroupOf(s, es[j].key) == Some(g) {
      if g !in seen {
        assert GroupOf(s, es[k].key) == Some(g);
      }
    }
  }

  /** No earlier entry selects a member of the group of entry k. */
  lemma {:induction false} GroupUnseen(es: seq<Entry>, s: Schema, k: nat, seen: map<string, string>, g: string)
    requires k < |es| && !SameGroup(es, s) && GroupOf(s, es[k].key) == Some(g)
    requires forall g' :: g' in seen ==> exists j :: 0 <= j < k && GroupOf(s, es[j].key) == Some(g')
    ensures g !in seen
  {
    forall j | 0 <= j < k ensures GroupOf(s, es[j].key) != Some(g) {
      assert !(GroupOf(s, es[j].key).Some? && GroupOf(s, es[j].key) == GroupOf(s, es[k].key));
    }
  }

  /** `decode(encode(values, schema), schema) == values` for a message in the domain, at any
      nesting depth the message leaves room for; the encoding of such a message never raises. */
  lemma {:induction false} MsgRoundTrip(es: seq<Entry>, s: Schema, depth: nat)
    requires WellFormed(s) && MsgIn(es, s) && depth + MsgDepth(es) <= MAX_NESTING_DEPTH
    ensures Encoded(es, s).Ok?
    ensures |Encoded(es, s).value| < TWO_64 ==> Decode(Encoded(es, s).value, Normalized(s), depth) == Ok(es)
    decreases EntriesSize(es), 4
  {
    PrescanDecides(es, s);
    forall k | 0 <= k < |es| ensures EncodeEntry(es[k], s).Ok? {
      EntriesSizeElem(es, k);
      MsgDepthElem(es, k);
      EntryRoundTrip(es[k], s, depth, [], 0, [], map[]);
    }
    EncodeEntriesOk(es, s);
    var b := Encoded(es, s).value;
    if |b| < TWO_64 {
      EntriesRoundTrip(es, s, depth, b, 0, map[]);
      assert es[..0] == [];
    }
  }

  /** `decode(encode(values, schema), schema) == values` for a schema given as a description
      or already normalized: both sides normalize it to the same schema. */
  lemma {:induction false} EncodeDecode(values: seq<Entry>, schema: SchemaArg)
    requires NormalizeArg(schema).Ok? && WellFormed(NormalizeArg(schema).value)
    requires MsgIn(values, NormalizeArg(schema).value) && MsgDepth(values) <= MAX_NESTING_DEPTH
    ensures EncodeWith(values, schema).Ok?
    ensures |EncodeWith(values, schema).value| < TWO_64 ==>
      Decode(EncodeWith(values, schema).value, schema, 0) == Ok(values)
  {
    var s := NormalizeArg(schema).value;
    MsgRoundTrip(values, s, 0);
    var b := EncodeWith(values, schema).value;
    assert Decode(b, schema, 0) == Fields(b, 0, s, 0, [], map[]) == Decode(b, Normalized(s), 0);
  }
}
