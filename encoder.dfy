/**
 * `encode` and `_encode_packed` as functions: the bytes an encoding of a field map produces, or
 * the exception it raises first. Python evaluates left to right and stops at the first
 * exception; `Then` keeps that order.
 */
module Encoder {
  import opened Bytes
  import opened Errors
  import opened Wire
  import opened Values
  import opened Schema

  /** `a` followed by `b`; the first exception wins. */
  function Then(a: Result<seq<byte>>, b: Result<seq<byte>>): (r: Result<seq<byte>>)
    ensures r.Ok? <==> a.Ok? && b.Ok?
    ensures r.Ok? ==> r.value == a.value + b.value
    ensures a.Err? ==> r == a
    ensures a.Ok? && b.Err? ==> r == b
    ensures a == Ok([]) ==> r == b
    ensures b == Ok([]) ==> r == a
  {
    assert a.Ok? ==> a.value + [] == a.value;
    assert b.Ok? ==> [] + b.value == b.value;
    match a
    case Err(e) => Err(e)
    case Ok(x) =>
      match b
      case Err(e) => Err(e)
      case Ok(y) => Ok(x + y)
  }

  /** The number written as a varint for a varint-typed value: `int(v)` masked or transformed
      as the type requires, or `1 if bool(v) else 0`. */
  function VarintValue(t: ScalarType, v: Value): (r: Result<int>)
    requires IsVarintType(t)
  {
    if t == TBool then Ok(if Truthy(v) then 1 else 0)
    else match IntOf(v)
      case Err(e) => Err(e)
      case Ok(n) =>
        match t
        case TUint32 => Ok(n % TWO_32)
        case TInt64 => Ok(n % TWO_64)
        case TInt32 => Ok(I32ToUvarint(n))
        case TSint => Ok(ZigzagEncode(n))
        case TSint64 => Ok(ZigzagEncode(n))
        case TSint32 => Zz32(n)
        case _ => Ok(n)
  }

  /** The bytes of a fixed-width value: `struct.pack` with "<I", "<i", "<Q", "<q", and the bit
      pattern of a float of the same width. */
  function FixedBytes(t: ScalarType, v: Value): (r: Result<seq<byte>>)
    requires WireType(t) == 1 || WireType(t) == 5
    ensures r.Ok? ==> |r.value| == (if WireType(t) == 5 then 4 else 8)
  {
    match t
    case TFloat => if v.VFloat? && !v.double then WriteFixed32(v.bits) else Err(TypeMismatch)
    case TDouble => if v.VFloat? && v.double then WriteFixed64(v.bits) else Err(TypeMismatch)
    case _ =>
      match IntOf(v)
      case Err(e) => Err(e)
      case Ok(n) =>
        match t
        case TFixed32 => WriteFixed32(n)
        case TSfixed32 => WriteSfixed32(n)
        case TFixed64 => WriteFixed64(n)
        case _ => WriteSfixed64(n)
  }

  /** `_ld_write(field, payload)`: key with wire type 2, varint length, payload. */
  function LdWrite(field: int, payload: seq<byte>): (r: Result<seq<byte>>)
    ensures r.Ok? <==> field >= 0
    ensures r.Ok? ==> r.value == WriteKey(field, 2).value + VarintBytes(|payload|) + payload
  {
    Then(WriteKey(field, 2), Ok(VarintBytes(|payload|) + payload))
  }

  /** One element of `_encode_packed`: its bytes without a key. */
  function PackedElem(t: ScalarType, v: Value): Result<seq<byte>>
  {
    if IsVarintType(t) then
      match VarintValue(t, v)
      case Err(e) => Err(e)
      case Ok(n) => EncodeVarint(n)
    else if WireType(t) == 2 then Err(UnsupportedPackedElem)
    else FixedBytes(t, v)
  }

  /** `_encode_packed(vals, t)`: the elements' bytes, concatenated. */
  function PackedEncoding(vals: seq<Value>, t: ScalarType): Result<seq<byte>>
  {
    if vals == [] then Ok([])
    else Then(PackedElem(t, vals[0]), PackedEncoding(vals[1..], t))
  }

  /** One scalar value with its key, in the order encode builds it: for a varint, `int(v)`
      before the key; for a fixed-width value, the key before `int(v)`. */
  function ScalarField(field: int, t: ScalarType, v: Value): Result<seq<byte>>
  {
    if IsVarintType(t) then
      match VarintValue(t, v)
      case Err(e) => Err(e)
      case Ok(n) => Then(WriteKey(field, 0), EncodeVarint(n))
    else if t == TString then
      match StrBytes(v)
      case Err(e) => Err(e)
      case Ok(bs) => LdWrite(field, bs)
    else if t == TBytes then
      match BytesOf(v)
      case Err(e) => Err(e)
      case Ok(bs) => LdWrite(field, bs)
    else Then(WriteKey(field, WireType(t)), FixedBytes(t, v))
  }

  /** The field number a key names: an int key is a number, a str key is looked up. */
  function FieldNumber(ns: Schema, k: Key): Option<int>
  {
    match k
    case Num(n) => Some(n)
    case Name(s) => if s in ns.names then Some(ns.names[s]) else None
  }

  /** The oneof group of a key's field, when that is a non-empty group name ("if grp:"). */
  function GroupOf(ns: Schema, k: Key): Option<string>
  {
    match FieldNumber(ns, k)
    case None => None
    case Some(f) =>
      if f in ns.fields && ns.fields[f].oneof.Some? && ns.fields[f].oneof.value != ""
      then ns.fields[f].oneof else None
  }

  /** The prescan's `groups` dict: each group with the keys that select one of its members. */
  function Groups(es: seq<Entry>, ns: Schema): map<string, seq<Key>>
  {
    if es == [] then map[]
    else
      var gs := Groups(es[..|es| - 1], ns);
      var k := es[|es| - 1].key;
      match GroupOf(ns, k)
      case None => gs
      case Some(g) => AddToGroup(gs, g, k)
  }

  /** `groups.setdefault(g, []).append(k)`. */
  function AddToGroup(gs: map<string, seq<Key>>, g: string, k: Key): map<string, seq<Key>>
  {
    gs[g := (if g in gs then gs[g] else []) + [k]]
  }

  /** A group with more than one key set. */
  predicate Conflict(gs: map<string, seq<Key>>)
  {
    exists g :: g in gs && |gs[g]| > 1
  }

  /** `encode(values, schema)` on a normalized schema: the prescan, then every entry in order. */
  function Encoded(es: seq<Entry>, ns: Schema): Result<seq<byte>>
    decreases es, 1
  {
    if Conflict(Groups(es, ns)) then Err(OneofConflict) else EncodeEntries(es, ns)
  }

  /** `encode(values, schema)`: the schema is normalized first. */
  function EncodeWith(es: seq<Entry>, arg: SchemaArg): Result<seq<byte>>
  {
    match NormalizeArg(arg)
    case Err(e) => Err(e)
    case Ok(ns) => Encoded(es, ns)
  }

  function EncodeEntries(es: seq<Entry>, ns: Schema): Result<seq<byte>>
    decreases es, 0
  {
    if es == [] then Ok([])
    else
      assert es[0] in es;
      Then(EncodeEntry(es[0], ns), EncodeEntries(es[1..], ns))
  }

  /** The emission for one key and value. */
  function EncodeEntry(e: Entry, ns: Schema): Result<seq<byte>>
    decreases e
  {
    match FieldNumber(ns, e.key)
    case None => Err(UnknownFieldName)
    case Some(field) =>
      if field !in ns.fields then Err(UnknownFieldNumber)
      else
        match ns.fields[field].kind
        case Packed(t) =>
          (match PackedEncoding(AsList(e.val), t)
           case Err(err) => Err(err)
           case Ok(p) => LdWrite(field, p))
        case RepeatedScalar(t) =>
          if Packable(t) then
            // packed into one segment on the first pass of the loop; nothing for an empty list
            if AsList(e.val) == [] then Ok([])
            else match PackedEncoding(AsList(e.val), t)
              case Err(err) => Err(err)
              case Ok(p) => LdWrite(field, p)
          else EncodeValues(field, ns.fields[field].kind, e.val)
        case _ => EncodeValues(field, ns.fields[field].kind, e.val)
  }

  /** `for v in vals`: a list value emits each element, anything else emits itself once. */
  function EncodeValues(field: int, kind: Kind, v: Value): Result<seq<byte>>
    requires !kind.Packed?
    decreases v, 1
  {
    match v
    case VList(items) => EachValue(field, kind, items)
    case _ => EncodeOne(field, kind, v)
  }

  function EachValue(field: int, kind: Kind, vs: seq<Value>): Result<seq<byte>>
    requires !kind.Packed?
    decreases vs
  {
    if vs == [] then Ok([])
    else
      assert vs[0] in vs;
      Then(EncodeOne(field, kind, vs[0]), EachValue(field, kind, vs[1..]))
  }

  /** One pass of the loop: a scalar with its key, or a length-delimited string, bytes or
      nested message (encoded with the field's normalized schema). */
  function EncodeOne(field: int, kind: Kind, v: Value): Result<seq<byte>>
    requires !kind.Packed?
    decreases v, 0
  {
    match kind
    case Scalar(t) => ScalarField(field, t, v)
    case RepeatedScalar(t) =>
      if t == TString || t == TBytes then ScalarField(field, t, v)
      else Err(UnsupportedRepeatedType)
    case Message(s) => MessageField(field, s, v)
    case RepeatedMessage(s) => MessageField(field, s, v)
  }

  function MessageField(field: int, s: Schema, v: Value): Result<seq<byte>>
    decreases v, 0, 0
  {
    match v
    case VDict(es) =>
      (match Encoded(es, s)
       case Err(e) => Err(e)
       case Ok(inner) => LdWrite(field, inner))
    case _ => Err(TypeMismatch)
  }

  // ---------------------------------------------------------------- the oneof prescan

  /** The keys of `es`, in order, that select a member of group g. */
  function Members(es: seq<Entry>, ns: Schema, g: string): seq<Key>
  {
    if es == [] then []
    else
      var e := es[|es| - 1];
      Members(es[..|es| - 1], ns, g) + (if GroupOf(ns, e.key) == Some(g) then [e.key] else [])
  }

  /** Two keys select members of the same oneof group. */
  predicate SameGroup(es: seq<Entry>, ns: Schema)
  {
    exists i, j :: 0 <= i < j < |es| && GroupOf(ns, es[i].key).Some? && GroupOf(ns, es[i].key) == GroupOf(ns, es[j].key)
  }

  /** The prescan's dict holds, for every group that is used, the keys that use it. */
  lemma {:induction false} GroupsMembers(es: seq<Entry>, ns: Schema)
    ensures forall g :: g in Groups(es, ns) <==> Members(es, ns, g) != []
    ensures forall g :: g in Groups(es, ns) ==> Groups(es, ns)[g] == Members(es, ns, g)
  {
    if es != [] {
      GroupsMembers(es[..|es| - 1], ns);
    }
  }

  lemma {:induction false} MembersCount(es: seq<Entry>, ns: Schema, g: string)
    ensures Members(es, ns, g) != [] <==> exists i :: 0 <= i < |es| && GroupOf(ns, es[i].key) == Some(g)
    ensures |Members(es, ns, g)| > 1 <==>
      exists i, j :: 0 <= i < j < |es| && GroupOf(ns, es[i].key) == Some(g) && GroupOf(ns, es[j].key) == Some(g)
  {
    if es != [] {
      var p := es[..|es| - 1];
      var last := |es| - 1;
      MembersCount(p, ns, g);
      assert forall i :: 0 <= i < |p| ==> p[i] == es[i];
      if GroupOf(ns, es[last].key) == Some(g) {
        if |Members(es, ns, g)| > 1 {
          var i :| 0 <= i < |p| && GroupOf(ns, p[i].key) == Some(g);
          assert GroupOf(ns, es[i].key) == Some(g) && GroupOf(ns, es[last].key) == Some(g);
        }
      }
      if exists i, j :: 0 <= i < j < |es| && GroupOf(ns, es[i].key) == Some(g) && GroupOf(ns, es[j].key) == Some(g) {
        var i, j :| 0 <= i < j < |es| && GroupOf(ns, es[i].key) == Some(g) && GroupOf(ns, es[j].key) == Some(g);
        if j < last {
          assert GroupOf(ns, p[i].key) == Some(g) && GroupOf(ns, p[j].key) == Some(g);
        } else {
          assert GroupOf(ns, p[i].key) == Some(g);
        }
      }
    }
  }

  /** The prescan raises exactly when two keys select members of one group; otherwise the
      entries are emitted. */
  lemma PrescanDecides(es: seq<Entry>, ns: Schema)
    ensures Conflict(Groups(es, ns)) <==> SameGroup(es, ns)
    ensures Encoded(es, ns) == if SameGroup(es, ns) then Err(OneofConflict) else EncodeEntries(es, ns)
  {
    GroupsMembers(es, ns);
    if Conflict(Groups(es, ns)) {
      var g :| g in Groups(es, ns) && |Groups(es, ns)[g]| > 1;
      MembersCount(es, ns, g);
    }
    if SameGroup(es, ns) {
      var i, j :| 0 <= i < j < |es| && GroupOf(ns, es[i].key).Some? && GroupOf(ns, es[i].key) == GroupOf(ns, es[j].key);
      var g := GroupOf(ns, es[i].key).value;
      MembersCount(es, ns, g);
      assert |Groups(es, ns)[g]| > 1;
    }
  }

  // ---------------------------------------------------------------- emission order

  /** Writing `a`, then `b`, then `c` does not depend on how the writes are grouped. */
  lemma ThenAssoc(a: Result<seq<byte>>, b: Result<seq<byte>>, c: Result<seq<byte>>)
    ensures Then(Then(a, b), c) == Then(a, Then(b, c))
  {
    if a.Ok? && b.Ok? && c.Ok? {
      assert (a.value + b.value) + c.value == a.value + (b.value + c.value);
    }
  }

  /** Entries are emitted one after another in the caller's order. */
  lemma {:induction false} EncodeEntriesAppend(a: seq<Entry>, b: seq<Entry>, ns: Schema)
    ensures EncodeEntries(a + b, ns) == Then(EncodeEntries(a, ns), EncodeEntries(b, ns))
  {
    if a != [] {
      assert (a + b)[0] == a[0] && (a + b)[1..] == a[1..] + b;
      EncodeEntriesAppend(a[1..], b, ns);
      ThenAssoc(EncodeEntry(a[0], ns), EncodeEntries(a[1..], ns), EncodeEntries(b, ns));
    } else {
      assert a + b == b;
    }
  }

  /** The encoding succeeds exactly when every entry does, and it is their concatenation. */
  lemma {:induction false} EncodeEntriesOk(es: seq<Entry>, ns: Schema)
    ensures EncodeEntries(es, ns).Ok? <==> forall i :: 0 <= i < |es| ==> EncodeEntry(es[i], ns).Ok?
    ensures es != [] && EncodeEntries(es, ns).Ok? ==>
      EncodeEntries(es, ns).value == EncodeEntry(es[0], ns).value + EncodeEntries(es[1..], ns).value
  {
    if es != [] {
      EncodeEntriesOk(es[1..], ns);
      assert forall i :: 1 <= i < |es| ==> es[i] == es[1..][i - 1];
    }
  }

  /** The values of a repeated field are emitted one after another in list order. */
  lemma {:induction false} EachValueAppend(field: int, kind: Kind, a: seq<Value>, c: seq<Value>)
    requires !kind.Packed?
    ensures EachValue(field, kind, a + c) == Then(EachValue(field, kind, a), EachValue(field, kind, c))
  {
    if a != [] {
      assert (a + c)[0] == a[0] && (a + c)[1..] == a[1..] + c;
      EachValueAppend(field, kind, a[1..], c);
      ThenAssoc(EncodeOne(field, kind, a[0]), EachValue(field, kind, a[1..]), EachValue(field, kind, c));
    } else {
      assert a + c == c;
    }
  }

  /** The first entry that cannot be encoded decides the exception. */
  lemma {:induction false} EncodeEntriesFirstError(es: seq<Entry>, ns: Schema, k: nat)
    requires k < |es| && EncodeEntry(es[k], ns).Err?
    requires forall i :: 0 <= i < k ==> EncodeEntry(es[i], ns).Ok?
    ensures EncodeEntries(es, ns) == Err(EncodeEntry(es[k], ns).error)
  {
    if k > 0 {
      EncodeEntriesFirstError(es[1..], ns, k - 1);
    }
  }

  /** A str key the schema does not name, or a number it does not define, raises once the
      entries before it have been emitted. */
  lemma UnknownKeyRaises(es: seq<Entry>, ns: Schema, k: nat)
    requires k < |es| && !SameGroup(es, ns)
    requires forall i :: 0 <= i < k ==> EncodeEntry(es[i], ns).Ok?
    ensures es[k].key.Name? && es[k].key.name !in ns.names ==> Encoded(es, ns) == Err(UnknownFieldName)
    ensures es[k].key.Num? && es[k].key.num !in ns.fields ==> Encoded(es, ns) == Err(UnknownFieldNumber)
  {
    PrescanDecides(es, ns);
    if EncodeEntry(es[k], ns).Err? {
      EncodeEntriesFirstError(es, ns, k);
    }
  }

  /** A value that is not a list is encoded as the one-element list holding it. */
  lemma EncodeValuesAsList(field: int, kind: Kind, v: Value)
    requires !kind.Packed?
    ensures EncodeValues(field, kind, v) == EachValue(field, kind, AsList(v))
  {
    if !v.VList? {
      assert [v][1..] == [];
    }
  }

  // ---------------------------------------------------------------- the encoder as written

  /** The bytes `out` already written, followed by what remains. */
  function Prepend(out: seq<byte>, r: Result<seq<byte>>): (p: Result<seq<byte>>)
    ensures p.Ok? <==> r.Ok?
    ensures r.Ok? ==> p.value == out + r.value
    ensures r.Err? ==> p == r
    ensures out == [] ==> p == r
    ensures r == Ok([]) ==> p == Ok(out)
  {
    assert out + [] == out;
    assert r.Ok? ==> [] + r.value == r.value;
    match r
    case Err(e) => Err(e)
    case Ok(x) => Ok(out + x)
  }

  /** Writing one more chunk moves it from what remains to what is written. */
  lemma PrependStep(out: seq<byte>, a: Result<seq<byte>>, b: Result<seq<byte>>)
    requires a.Ok?
    ensures Prepend(out, Then(a, b)) == Prepend(out + a.value, b)
  {
    if b.Ok? {
      assert out + (a.value + b.value) == (out + a.value) + b.value;
    }
  }

  /** `_encode_packed(vals, elem_type)`. */
  method EncodePacked(vals: seq<Value>, t: ScalarType) returns (r: Result<seq<byte>>)
    ensures r == PackedEncoding(vals, t)
  {
    var out: seq<byte> := [];
    var k := 0;
    while k < |vals|
      invariant k <= |vals|
      invariant PackedEncoding(vals, t) == Prepend(out, PackedEncoding(vals[k..], t))
    {
      assert vals[k..][1..] == vals[k + 1..];
      var bs := PackedElem(t, vals[k]);
      if bs.Err? {
        return Err(bs.error);
      }
      PrependStep(out, bs, PackedEncoding(vals[k + 1..], t));
      out := out + bs.value;
      k := k + 1;
    }
    assert vals[k..] == [];
    return Ok(out);
  }

  /** `encode(values, schema)`: normalize, run the oneof prescan, then emit every entry. */
  method Encode(values: seq<Entry>, schema: SchemaArg) returns (r: Result<seq<byte>>)
    ensures r == EncodeWith(values, schema)
    decreases EntriesSize(values), 2
  {
    var nr := Normalize(schema);
    if nr.Err? {
      return Err(nr.error);
    }
    var ns := nr.value;

    var groups: map<string, seq<Key>> := map[];
    var k := 0;
    while k < |values|
      invariant k <= |values|
      invariant groups == Groups(values[..k], ns)
    {
      assert values[..k + 1][..k] == values[..k];
      var key := values[k].key;
      var grp := GroupOf(ns, key);
      if grp.Some? {
        var g := grp.value;
        groups := groups[g := (if g in groups then groups[g] else []) + [key]];
      }
      k := k + 1;
    }
    assert values[..k] == values;

    var unchecked := groups.Keys;
    while unchecked != {}
      invariant unchecked <= groups.Keys
      invariant forall g :: g in groups && g !in unchecked ==> |groups[g]| <= 1
      decreases unchecked
    {
      var g :| g in unchecked;
      if |groups[g]| > 1 {
        return Err(OneofConflict);
      }
      unchecked := unchecked - {g};
    }

    var out: seq<byte> := [];
    k := 0;
    while k < |values|
      invariant k <= |values|
      invariant EncodeEntries(values, ns) == Prepend(out, EncodeEntries(values[k..], ns))
    {
      assert values[k..][0] == values[k] && values[k..][1..] == values[k + 1..];
      EntriesSizeElem(values, k);
      var chunk := EmitEntry(values[k], ns);
      if chunk.Err? {
        return Err(chunk.error);
      }
      PrependStep(out, chunk, EncodeEntries(values[k + 1..], ns));
      out := out + chunk.value;
      k := k + 1;
    }
    assert values[k..] == [];
    return Ok(out);
  }

  /** The body of the emission loop for one key and value. */
  method EmitEntry(e: Entry, ns: Schema) returns (r: Result<seq<byte>>)
    ensures r == EncodeEntry(e, ns)
    decreases EntrySize(e), 1
  {
    var field;
    match e.key {
      case Num(n) => field := n;
      case Name(s) =>
        if s !in ns.names {
          return Err(UnknownFieldName);
        }
        field := ns.names[s];
    }
    if field !in ns.fields {
      return Err(UnknownFieldNumber);
    }
    var spec := ns.fields[field];
    var vals := AsList(e.val);
    if spec.kind.Packed? {
      var packed := EncodePacked(vals, spec.kind.elem);
      if packed.Err? {
        return Err(packed.error);
      }
      return LdWrite(field, packed.value);
    }
    if spec.kind.RepeatedScalar? && Packable(spec.kind.elem) {
      // the loop packs the whole list on its first pass and breaks
      if vals == [] {
        return Ok([]);
      }
      var packed := EncodePacked(vals, spec.kind.elem);
      if packed.Err? {
        return Err(packed.error);
      }
      return LdWrite(field, packed.value);
    }
    r := EmitValues(field, spec.kind, e.val);
  }

  /** `for v in vals`: the per-value loop of the emission. */
  method EmitValues(field: int, kind: Kind, v: Value) returns (r: Result<seq<byte>>)
    requires !kind.Packed?
    ensures r == EncodeValues(field, kind, v)
    decreases Size(v), 1
  {
    EncodeValuesAsList(field, kind, v);
    var vals := AsList(v);
    var out: seq<byte> := [];
    var j := 0;
    while j < |vals|
      invariant j <= |vals|
      invariant EachValue(field, kind, vals) == Prepend(out, EachValue(field, kind, vals[j..]))
    {
      assert vals[j..][0] == vals[j] && vals[j..][1..] == vals[j + 1..];
      if v.VList? {
        ListSizeElem(v.items, j);
      }
      assert Size(vals[j]) < Size(v) || (vals[j] == v && !v.VList?);
      var chunk := EmitValue(field, kind, vals[j]);
      if chunk.Err? {
        return Err(chunk.error);
      }
      PrependStep(out, chunk, EachValue(field, kind, vals[j + 1..]));
      out := out + chunk.value;
      j := j + 1;
    }
    assert vals[j..] == [];
    return Ok(out);
  }

  /** One pass of the per-value loop; a nested message is encoded by a recursive call. */
  method EmitValue(field: int, kind: Kind, v: Value) returns (r: Result<seq<byte>>)
    requires !kind.Packed?
    ensures r == EncodeOne(field, kind, v)
    decreases Size(v), 0
  {
    if kind.Message? || kind.RepeatedMessage? {
      if !v.VDict? {
        return Err(TypeMismatch);
      }
      var inner := Encode(v.entries, Normalized(kind.schema));
      if inner.Err? {
        return Err(inner.error);
      }
      return LdWrite(field, inner.value);
    }
    return EncodeOne(field, kind, v);
  }
}
