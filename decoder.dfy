/**
 * `decode` and `_decode_packed` as functions: the field map a buffer decodes to, or the
 * exception raised first. A field whose number the schema does not define is kept under its
 * number; the schema's spec decides how a known field's value is converted and merged.
 */
module Decoder {
  import opened Bytes
  import opened Errors
  import opened Wire
  import opened Values
  import opened Schema
  import Utf8

  const MAX_NESTING_DEPTH: nat := 100

  /** `spec.get("type")`. */
  function TypeOf(spec: Option<FieldSpec>): Option<ScalarType>
  {
    if spec.None? then None
    else match spec.value.kind
      case Scalar(t) => Some(t)
      case Packed(t) => Some(t)
      case RepeatedScalar(t) => Some(t)
      case _ => None
  }

  /** The conversions of a varint `decode` and `_decode_packed` share; other types keep it. */
  function FromVarint(t: Option<ScalarType>, v: nat): Value
  {
    match t
    case Some(TSint) => VInt(ZigzagDecode(v))
    case Some(TSint64) => VInt(ZigzagDecode(v))
    case Some(TSint32) => VInt(I32FromUvarint(ZigzagDecode(v)))
    case Some(TInt64) => VInt(I64FromUvarint(v))
    case Some(TInt32) => VInt(I32FromUvarint(v))
    case Some(TUint32) => VInt(v % TWO_32)
    case Some(TBool) => VBool(v != 0)
    case _ => VInt(v)
  }

  /** A 64-bit field: a double keeps its bit pattern, an sfixed64 is made signed. */
  function From64(t: Option<ScalarType>, v: nat): Value
  {
    match t
    case Some(TDouble) => VFloat(v, true)
    case Some(TSfixed64) => VInt(FromSfixed64(v))
    case _ => VInt(v)
  }

  /** A 32-bit field: a float keeps its bit pattern, an sfixed32 is made signed. */
  function From32(t: Option<ScalarType>, v: nat): Value
  {
    match t
    case Some(TFloat) => VFloat(v, false)
    case Some(TSfixed32) => VInt(FromSfixed32(v))
    case _ => VInt(v)
  }

  /** A varint read at `i`, with the bounds of a successful read. */
  function Varint(b: seq<byte>, i: nat): (r: Result<(nat, nat)>)
    ensures r == ReadVarintAt(b, i)
    ensures r.Ok? ==> i < r.value.1 <= |b|
  {
    var r := ReadVarintAt(b, i);
    if r.Ok? then ReadVarintBounds(b, i); r else r
  }

  // ---------------------------------------------------------------- packed elements

  /** One element of `_decode_packed` at `i`, and the index after it. */
  function PackedElemAt(chunk: seq<byte>, i: nat, t: ScalarType): (r: Result<(Value, nat)>)
    ensures r.Ok? ==> i < r.value.1 <= |chunk|
  {
    if IsVarintType(t) then
      match Varint(chunk, i)
      case Err(e) => Err(e)
      case Ok((v, j)) => Ok((FromVarint(Some(t), v), j))
    else if WireType(t) == 5 then
      match ReadFixed32(chunk, i)
      case Err(e) => Err(e)
      case Ok((v, j)) => Ok((From32(Some(t), v), j))
    else if WireType(t) == 1 then
      match ReadFixed64(chunk, i)
      case Err(e) => Err(e)
      case Ok((v, j)) => Ok((From64(Some(t), v), j))
    else Err(UnsupportedPackedElem)
  }

  /** `_decode_packed(chunk, t)` from index `i`: the elements up to the end of the chunk. */
  function PackedValues(chunk: seq<byte>, i: nat, t: ScalarType): Result<seq<Value>>
    decreases |chunk| - i
  {
    if i >= |chunk| then Ok([])
    else
      match PackedElemAt(chunk, i, t)
      case Err(e) => Err(e)
      case Ok((v, j)) =>
        match PackedValues(chunk, j, t)
        case Err(e) => Err(e)
        case Ok(rest) => Ok([v] + rest)
  }

  // ---------------------------------------------------------------- messages

  /** A field as read from the stream: its number, its converted value, the index after it. */
  datatype Field = Field(number: int, value: Value, next: nat)

  /** `decode(buf, schema, _depth)`. */
  function Decode(b: seq<byte>, arg: SchemaArg, depth: nat): Result<seq<Entry>>
    decreases |b|, 2
  {
    if depth > MAX_NESTING_DEPTH then Err(NestingTooDeep)
    else
      match NormalizeArg(arg)
      case Err(e) => Err(e)
      case Ok(ns) => Fields(b, 0, ns, depth, [], map[])
  }

  /** The `while i < n` loop from index `i`, with the output dict and `oneof_seen` so far. */
  function Fields(b: seq<byte>, i: nat, ns: Schema, depth: nat, out: seq<Entry>, seen: map<string, string>)
    : Result<seq<Entry>>
    requires i <= |b|
    decreases |b|, 1, |b| - i, 1
  {
    if i == |b| then Ok(out) else FieldStep(b, i, ns, depth, out, seen)
  }

  /** One turn of the loop: read the field at `i`, store it, go on after it. */
  function FieldStep(b: seq<byte>, i: nat, ns: Schema, depth: nat, out: seq<Entry>, seen: map<string, string>)
    : Result<seq<Entry>>
    requires i < |b|
    decreases |b|, 1, |b| - i, 0
  {
    match ReadField(b, i, ns, depth)
    case Err(e) => Err(e)
    case Ok(f) =>
      match Merge(out, seen, SpecOf(ns, f.number), f.number, f.value)
      case Err(e) => Err(e)
      case Ok((out', seen')) => Fields(b, f.next, ns, depth, out', seen')
  }

  /** `ns["fields"].get(field)`. */
  function SpecOf(ns: Schema, field: int): Option<FieldSpec>
  {
    if field in ns.fields then Some(ns.fields[field]) else None
  }

  /** One field at `i`: the key (`key >> 3`, `key & 7`), then a value of its wire type. */
  function ReadField(b: seq<byte>, i: nat, ns: Schema, depth: nat): (r: Result<Field>)
    requires i < |b|
    ensures r.Ok? ==> i < r.value.next <= |b|
    decreases |b|, 0
  {
    match Varint(b, i)
    case Err(e) => Err(e)
    case Ok((key, i1)) =>
      var field := key / 8;
      var wt := key % 8;
      var spec := SpecOf(ns, field);
      if wt == 0 then
        match Varint(b, i1)
        case Err(e) => Err(e)
        case Ok((v, i2)) => Ok(Field(field, if spec.Some? then FromVarint(TypeOf(spec), v) else VInt(v), i2))
      else if wt == 1 then
        match ReadFixed64(b, i1)
        case Err(e) => Err(e)
        case Ok((v, i2)) => Ok(Field(field, From64(TypeOf(spec), v), i2))
      else if wt == 2 then
        match Varint(b, i1)
        case Err(e) => Err(e)
        case Ok((len, i2)) =>
          if i2 + len > |b| then Err(TruncatedLengthDelimited)
          else
            match LdValue(b[i2..i2 + len], spec, depth)
            case Err(e) => Err(e)
            case Ok(v) => Ok(Field(field, v, i2 + len))
      else if wt == 5 then
        match ReadFixed32(b, i1)
        case Err(e) => Err(e)
        case Ok((v, i2)) => Ok(Field(field, From32(TypeOf(spec), v), i2))
      else Err(UnsupportedWireType)
  }

  /** A length-delimited payload: a nested message one level deeper, a packed list, a str, or
      the bytes themselves. */
  function LdValue(chunk: seq<byte>, spec: Option<FieldSpec>, depth: nat): Result<Value>
    decreases |chunk|, 4
  {
    if spec.None? then Ok(VBytes(chunk))
    else
      match spec.value.kind
      case Message(s) => Nested(chunk, s, depth)
      case RepeatedMessage(s) => Nested(chunk, s, depth)
      case RepeatedScalar(t) =>
        if Packable(t) then Packed(chunk, t)
        else if t == TString then Text(chunk)
        else Ok(VBytes(chunk))
      case Packed(t) => Packed(chunk, t)
      case Scalar(t) => if t == TString then Text(chunk) else Ok(VBytes(chunk))
  }

  function Nested(chunk: seq<byte>, s: Schema, depth: nat): Result<Value>
    decreases |chunk|, 3
  {
    match Decode(chunk, Normalized(s), depth + 1)
    case Err(e) => Err(e)
    case Ok(es) => Ok(VDict(es))
  }

  function Packed(chunk: seq<byte>, t: ScalarType): Result<Value>
  {
    match PackedValues(chunk, 0, t)
    case Err(e) => Err(e)
    case Ok(vs) => Ok(VList(vs))
  }

  /** `chunk.decode("utf-8")`. */
  function Text(chunk: seq<byte>): Result<Value>
  {
    match Utf8.Decode(chunk)
    case None => Err(InvalidUtf8)
    case Some(s) => Ok(VStr(s))
  }

  /** A repeated or packed field (`kind in {"repeated", "packed"}`). */
  predicate IsRepeated(sp: FieldSpec)
  {
    sp.kind.RepeatedScalar? || sp.kind.RepeatedMessage? || sp.kind.Packed?
  }

  /** Storing one decoded field into `out`:
      - a repeated or packed field extends the list under its name (`setdefault(...).extend`);
      - a singleton replaces the value under its name, and a oneof member first deletes the
        member of its group stored before (last one wins);
      - a field the schema does not know is kept under its number, and a second occurrence
        makes a list of the values. */
  function Merge(out: seq<Entry>, seen: map<string, string>, spec: Option<FieldSpec>, field: int, v: Value)
    : Result<(seq<Entry>, map<string, string>)>
  {
    match spec
    case Some(sp) =>
      var key := Name(sp.name);
      if IsRepeated(sp) then
        var more := AsList(v);
        match Lookup(out, key)
        case None => Ok((Set(out, key, VList(more)), seen))
        case Some(prev) =>
          if prev.VList? then Ok((Set(out, key, VList(prev.items + more)), seen))
          else Err(MergeNotList)
      else if sp.oneof.Some? && sp.oneof.value != "" then
        var g := sp.oneof.value;
        var out1 :=
          if g in seen && seen[g] != "" && Name(seen[g]) in Keys(out) then Remove(out, Name(seen[g]))
          else out;
        Ok((Set(out1, key, v), seen[g := sp.name]))
      else Ok((Set(out, key, v), seen))
    case None =>
      var key := Num(field);
      match Lookup(out, key)
      case None => Ok((Set(out, key, v), seen))
      case Some(prev) =>
        if prev.VList? then Ok((Set(out, key, VList(prev.items + [v])), seen))
        else Ok((Set(out, key, VList([prev, v])), seen))
  }

  // ---------------------------------------------------------------- merge semantics

  /** The oneof group a singleton spec belongs to, when that is a non-empty name. */
  function GroupOfSpec(sp: FieldSpec): Option<string>
  {
    if !IsRepeated(sp) && sp.oneof.Some? && sp.oneof.value != "" then sp.oneof else None
  }

  /** What `out[k]` is after one field is stored, key by key. */
  function MergedAt(out: seq<Entry>, seen: map<string, string>, spec: Option<FieldSpec>, field: int, v: Value, k: Key)
    : Option<Value>
  {
    match spec
    case None =>
      if k != Num(field) then Lookup(out, k)
      else
        (match Lookup(out, k)
         case None => Some(v)
         case Some(p) => Some(if p.VList? then VList(p.items + [v]) else VList([p, v])))
    case Some(sp) =>
      if k == Name(sp.name) then
        if IsRepeated(sp) then
          Some(VList((if Lookup(out, k).Some? && Lookup(out, k).value.VList? then Lookup(out, k).value.items else [])
                     + AsList(v)))
        else Some(v)
      else if GroupOfSpec(sp).Some? && GroupOfSpec(sp).value in seen && seen[GroupOfSpec(sp).value] != ""
              && k == Name(seen[GroupOfSpec(sp).value])
      then None
      else Lookup(out, k)
  }

  /** Storing a field: a repeated field extends its list in stream order, an unknown field seen
      again becomes a list of its values, a singleton is replaced, and a oneof member deletes the
      member of its group stored before it; no other key changes. It fails only when a repeated
      field's name already holds something other than a list. */
  lemma MergeLookup(out: seq<Entry>, seen: map<string, string>, spec: Option<FieldSpec>, field: int, v: Value, k: Key)
    ensures Merge(out, seen, spec, field, v).Err? <==>
      spec.Some? && IsRepeated(spec.value) && Lookup(out, Name(spec.value.name)).Some?
      && !Lookup(out, Name(spec.value.name)).value.VList?
    ensures Merge(out, seen, spec, field, v).Ok? ==>
      Lookup(Merge(out, seen, spec, field, v).value.0, k) == MergedAt(out, seen, spec, field, v, k)
  {
    if spec.None? {
      MergeUnknownLookup(out, seen, field, v, k);
    } else if IsRepeated(spec.value) {
      MergeRepeatedLookup(out, seen, spec.value, field, v, k);
    } else {
      MergeSingletonLookup(out, seen, spec.value, field, v, k);
    }
  }

  lemma MergeUnknownLookup(out: seq<Entry>, seen: map<string, string>, field: int, v: Value, k: Key)
    ensures Merge(out, seen, None, field, v).Ok?
    ensures Lookup(Merge(out, seen, None, field, v).value.0, k) == MergedAt(out, seen, None, field, v, k)
  {
    var key := Num(field);
    var prev := Lookup(out, key);
    if prev.None? {
      SetLookup(out, key, v, k);
    } else {
      var p := prev.value;
      SetLookup(out, key, if p.VList? then VList(p.items + [v]) else VList([p, v]), k);
    }
  }

  lemma MergeRepeatedLookup(out: seq<Entry>, seen: map<string, string>, sp: FieldSpec, field: int, v: Value, k: Key)
    requires IsRepeated(sp)
    ensures Merge(out, seen, Some(sp), field, v).Err? <==>
      Lookup(out, Name(sp.name)).Some? && !Lookup(out, Name(sp.name)).value.VList?
    ensures Merge(out, seen, Some(sp), field, v).Ok? ==>
      Lookup(Merge(out, seen, Some(sp), field, v).value.0, k) == MergedAt(out, seen, Some(sp), field, v, k)
  {
    var key := Name(sp.name);
    var prev := Lookup(out, key);
    if prev.None? {
      assert [] + AsList(v) == AsList(v);
      SetLookup(out, key, VList(AsList(v)), k);
    } else if prev.value.VList? {
      SetLookup(out, key, VList(prev.value.items + AsList(v)), k);
    }
  }

  lemma MergeSingletonLookup(out: seq<Entry>, seen: map<string, string>, sp: FieldSpec, field: int, v: Value, k: Key)
    requires !IsRepeated(sp)
    ensures Merge(out, seen, Some(sp), field, v).Ok?
    ensures Lookup(Merge(out, seen, Some(sp), field, v).value.0, k) == MergedAt(out, seen, Some(sp), field, v, k)
  {
    var key := Name(sp.name);
    if sp.oneof.Some? && sp.oneof.value != "" {
      var g := sp.oneof.value;
      assert GroupOfSpec(sp) == Some(g);
      if g in seen && seen[g] != "" && Name(seen[g]) in Keys(out) {
        SetLookup(Remove(out, Name(seen[g])), key, v, k);
        RemoveLookup(out, Name(seen[g]), k);
      } else {
        SetLookup(out, key, v, k);
      }
    } else {
      SetLookup(out, key, v, k);
    }
  }

  // ---------------------------------------------------------------- oneof: last one wins

  /** The field names and numbers of a schema agree in both directions, as they do for a
      description without duplicate names or numbers, and no name is empty. */
  predicate Consistent(ns: Schema)
  {
    && (forall n :: n in ns.names ==> n != "" && ns.names[n] in ns.fields && ns.fields[ns.names[n]].name == n)
    && (forall f :: f in ns.fields ==> ns.fields[f].name in ns.names && ns.names[ns.fields[f].name] == f)
  }

  /** The group of the singleton field named n. */
  function MemberOf(ns: Schema, n: string): Option<string>
  {
    if n in ns.names && ns.names[n] in ns.fields then GroupOfSpec(ns.fields[ns.names[n]]) else None
  }

  /** At most one member of each group is in `out`, and it is the one `seen` records. */
  ghost predicate OneofInv(ns: Schema, out: seq<Entry>, seen: map<string, string>)
  {
    forall n :: Name(n) in Keys(out) && MemberOf(ns, n).Some? ==>
      MemberOf(ns, n).value in seen && seen[MemberOf(ns, n).value] == n
  }

  /** Two names in the output that belong to the same group are the same name. */
  ghost predicate AtMostOneMember(ns: Schema, out: seq<Entry>)
  {
    forall n1, n2 ::
      (Name(n1) in Keys(out) && Name(n2) in Keys(out) && MemberOf(ns, n1).Some? && MemberOf(ns, n1) == MemberOf(ns, n2))
      ==> n1 == n2
  }

  lemma InvAtMostOne(ns: Schema, out: seq<Entry>, seen: map<string, string>)
    requires OneofInv(ns, out, seen)
    ensures AtMostOneMember(ns, out)
  {
  }

  /** Storing a field keeps the invariant; a stored oneof member is afterwards the only member
      of its group in the output. */
  lemma MergeKeepsOneof(ns: Schema, out: seq<Entry>, seen: map<string, string>, field: int, v: Value)
    requires Consistent(ns) && OneofInv(ns, out, seen)
    requires Merge(out, seen, SpecOf(ns, field), field, v).Ok?
    ensures var (out', seen') := Merge(out, seen, SpecOf(ns, field), field, v).value;
      && OneofInv(ns, out', seen')
      && (field in ns.fields && GroupOfSpec(ns.fields[field]).Some? ==>
            && Name(ns.fields[field].name) in Keys(out')
            && forall n :: (Name(n) in Keys(out') && MemberOf(ns, n) == GroupOfSpec(ns.fields[field])) ==>
                 n == ns.fields[field].name)
  {
    var spec := SpecOf(ns, field);
    var (out', seen') := Merge(out, seen, spec, field, v).value;
    forall n | Name(n) in Keys(out') && MemberOf(ns, n).Some?
      ensures MemberOf(ns, n).value in seen' && seen'[MemberOf(ns, n).value] == n
    {
      MergeInvAt(ns, out, seen, field, v, n);
    }
    if field in ns.fields && GroupOfSpec(ns.fields[field]).Some? {
      MergeLookup(out, seen, spec, field, v, Name(ns.fields[field].name));
      assert seen'[GroupOfSpec(ns.fields[field]).value] == ns.fields[field].name;
    }
  }

  lemma MergeInvAt(ns: Schema, out: seq<Entry>, seen: map<string, string>, field: int, v: Value, n: string)
    requires Consistent(ns) && OneofInv(ns, out, seen)
    requires Merge(out, seen, SpecOf(ns, field), field, v).Ok?
    requires Name(n) in Keys(Merge(out, seen, SpecOf(ns, field), field, v).value.0) && MemberOf(ns, n).Some?
    ensures var seen' := Merge(out, seen, SpecOf(ns, field), field, v).value.1;
      MemberOf(ns, n).value in seen' && seen'[MemberOf(ns, n).value] == n
  {
    var spec := SpecOf(ns, field);
    var seen' := Merge(out, seen, spec, field, v).value.1;
    MergeLookup(out, seen, spec, field, v, Name(n));
    MergeSeen(out, seen, spec, field, v);
    var g := MemberOf(ns, n).value;
    if spec.Some? && n == spec.value.name {
      assert ns.names[n] == field;
      assert GroupOfSpec(spec.value) == Some(g);
    } else {
      assert Lookup(out, Name(n)).Some?;
      assert seen[g] == n;
      if spec.Some? && GroupOfSpec(spec.value).Some? {
        assert GroupOfSpec(spec.value).value != g;
      }
    }
  }

  /** Only a oneof member changes `seen`, recording itself as its group's member. */
  lemma MergeSeen(out: seq<Entry>, seen: map<string, string>, spec: Option<FieldSpec>, field: int, v: Value)
    requires Merge(out, seen, spec, field, v).Ok?
    ensures Merge(out, seen, spec, field, v).value.1 ==
      if spec.Some? && GroupOfSpec(spec.value).Some? then seen[GroupOfSpec(spec.value).value := spec.value.name]
      else seen
  {
  }

  lemma {:induction false} FieldsOneof(b: seq<byte>, i: nat, ns: Schema, depth: nat, out: seq<Entry>, seen: map<string, string>)
    requires i <= |b| && Consistent(ns) && OneofInv(ns, out, seen)
    requires Fields(b, i, ns, depth, out, seen).Ok?
    ensures AtMostOneMember(ns, Fields(b, i, ns, depth, out, seen).value)
    decreases |b| - i
  {
    if i == |b| {
      InvAtMostOne(ns, out, seen);
    } else {
      var f := ReadField(b, i, ns, depth).value;
      MergeKeepsOneof(ns, out, seen, f.number, f.value);
      var (out', seen') := Merge(out, seen, SpecOf(ns, f.number), f.number, f.value).value;
      FieldsOneof(b, f.next, ns, depth, out', seen');
    }
  }

  /** In a decoded message at most one member of each oneof group is present (for a schema
      whose names and numbers agree). */
  lemma DecodeOneof(b: seq<byte>, ns: Schema, depth: nat)
    requires Consistent(ns) && Decode(b, Normalized(ns), depth).Ok?
    ensures AtMostOneMember(ns, Decode(b, Normalized(ns), depth).value)
  {
    FieldsOneof(b, 0, ns, depth, [], map[]);
  }

  // ---------------------------------------------------------------- what decode raises

  /** A message nested more than 100 levels deep is refused before a byte is read. */
  lemma DecodeTooDeep(b: seq<byte>, arg: SchemaArg, depth: nat)
    requires depth > MAX_NESTING_DEPTH
    ensures Decode(b, arg, depth) == Err(NestingTooDeep)
  {
  }

  /** After a key is read: a wire type other than 0, 1, 2 and 5 raises; so does a fixed-width
      value the buffer ends inside, and a length prefix reaching beyond the end of the buffer. */
  lemma ReadFieldErrors(b: seq<byte>, i: nat, ns: Schema, depth: nat)
    requires i < |b| && Varint(b, i).Ok?
    ensures var (key, i1) := Varint(b, i).value;
      var r := ReadField(b, i, ns, depth);
      && (key % 8 !in {0, 1, 2, 5} ==> r == Err(UnsupportedWireType))
      && (key % 8 == 1 && i1 + 8 > |b| ==> r == Err(TruncatedFixed64))
      && (key % 8 == 5 && i1 + 4 > |b| ==> r == Err(TruncatedFixed32))
      && (key % 8 == 2 && Varint(b, i1).Ok? && Varint(b, i1).value.1 + Varint(b, i1).value.0 > |b| ==>
            r == Err(TruncatedLengthDelimited))
  {
  }

  /** A field that cannot be read ends the loop with its exception, whatever was stored. */
  lemma FieldErrorRaises(b: seq<byte>, i: nat, ns: Schema, depth: nat, out: seq<Entry>, seen: map<string, string>)
    requires i < |b| && ReadField(b, i, ns, depth).Err?
    ensures Fields(b, i, ns, depth, out, seen) == Err(ReadField(b, i, ns, depth).error)
  {
  }

  // ---------------------------------------------------------------- the decoder as written

  /** `_decode_packed(chunk, elem_type)`. */
  method DecodePacked(chunk: seq<byte>, t: ScalarType) returns (r: Result<seq<Value>>)
    ensures r == PackedValues(chunk, 0, t)
  {
    var out: seq<Value> := [];
    var i := 0;
    while i < |chunk|
      invariant i <= |chunk|
      invariant PackedValues(chunk, 0, t) == PrependValues(out, PackedValues(chunk, i, t))
      decreases |chunk| - i
    {
      var elem;
      if IsVarintType(t) {
        var rv := ReadVarint(chunk, i);
        if rv.Err? {
          return Err(rv.error);
        }
        ReadVarintBounds(chunk, i);
        elem := Ok((FromVarint(Some(t), rv.value.0), rv.value.1));
      } else if WireType(t) == 5 {
        var rf := ReadFixed32(chunk, i);
        if rf.Err? {
          return Err(rf.error);
        }
        elem := Ok((From32(Some(t), rf.value.0), rf.value.1));
      } else if WireType(t) == 1 {
        var rf := ReadFixed64(chunk, i);
        if rf.Err? {
          return Err(rf.error);
        }
        elem := Ok((From64(Some(t), rf.value.0), rf.value.1));
      } else {
        return Err(UnsupportedPackedElem);
      }
      assert elem == PackedElemAt(chunk, i, t);
      PackedStep(chunk, i, t, out);
      out := out + [elem.value.0];
      i := elem.value.1;
    }
    assert out + [] == out;
    return Ok(out);
  }

  lemma PackedStep(chunk: seq<byte>, i: nat, t: ScalarType, out: seq<Value>)
    requires i < |chunk| && PackedElemAt(chunk, i, t).Ok?
    ensures var (v, j) := PackedElemAt(chunk, i, t).value;
      PrependValues(out, PackedValues(chunk, i, t)) == PrependValues(out + [v], PackedValues(chunk, j, t))
  {
    var (v, j) := PackedElemAt(chunk, i, t).value;
    var rest := PackedValues(chunk, j, t);
    if rest.Ok? {
      assert out + ([v] + rest.value) == (out + [v]) + rest.value;
    }
  }

  /** The values `out` already appended, followed by what remains. */
  function PrependValues(out: seq<Value>, r: Result<seq<Value>>): (p: Result<seq<Value>>)
    ensures r.Err? ==> p == r
    ensures out == [] ==> p == r
    ensures r.Ok? ==> p == Ok(out + r.value)
  {
    assert r.Ok? ==> [] + r.value == r.value;
    match r
    case Err(e) => Err(e)
    case Ok(x) => Ok(out + x)
  }

  /** `decode(buf, schema, _depth)`: the loop over the buffer, storing each field as read. */
  method DecodeMessage(b: seq<byte>, schema: SchemaArg, depth: nat) returns (r: Result<seq<Entry>>)
    ensures r == Decode(b, schema, depth)
    decreases |b|, 2
  {
    if depth > MAX_NESTING_DEPTH {
      return Err(NestingTooDeep);
    }
    var nr := Normalize(schema);
    if nr.Err? {
      return Err(nr.error);
    }
    var ns := nr.value;
    var out: seq<Entry> := [];
    var seen: map<string, string> := map[];
    var i := 0;
    while i < |b|
      invariant i <= |b|
      invariant Decode(b, schema, depth) == Fields(b, i, ns, depth, out, seen)
      decreases |b| - i
    {
      var f := ReadFieldAt(b, i, ns, depth);
      if f.Err? {
        return Err(f.error);
      }
      var merged := Merge(out, seen, SpecOf(ns, f.value.number), f.value.number, f.value.value);
      if merged.Err? {
        return Err(merged.error);
      }
      out, seen := merged.value.0, merged.value.1;
      i := f.value.next;
    }
    return Ok(out);
  }

  /** One pass of decode's loop up to the merge: the key, then the value of its wire type. */
  method ReadFieldAt(b: seq<byte>, i: nat, ns: Schema, depth: nat) returns (r: Result<Field>)
    requires i < |b|
    ensures r == ReadField(b, i, ns, depth)
    decreases |b|, 0
  {
    var rk := ReadVarint(b, i);
    if rk.Err? {
      return Err(rk.error);
    }
    ReadVarintBounds(b, i);
    var (key, i1) := rk.value;
    var field := key / 8;
    var wt := key % 8;
    var spec := SpecOf(ns, field);
    if wt == 0 {
      var rv := ReadVarint(b, i1);
      if rv.Err? {
        return Err(rv.error);
      }
      ReadVarintBounds(b, i1);
      var v := if spec.Some? then FromVarint(TypeOf(spec), rv.value.0) else VInt(rv.value.0);
      return Ok(Field(field, v, rv.value.1));
    } else if wt == 1 {
      var rf := ReadFixed64(b, i1);
      if rf.Err? {
        return Err(rf.error);
      }
      return Ok(Field(field, From64(TypeOf(spec), rf.value.0), rf.value.1));
    } else if wt == 2 {
      var rl := ReadVarint(b, i1);
      if rl.Err? {
        return Err(rl.error);
      }
      ReadVarintBounds(b, i1);
      var (len, i2) := rl.value;
      if i2 + len > |b| {
        return Err(TruncatedLengthDelimited);
      }
      var v := LdValueOf(b[i2..i2 + len], spec, depth);
      if v.Err? {
        return Err(v.error);
      }
      return Ok(Field(field, v.value, i2 + len));
    } else if wt == 5 {
      var rf := ReadFixed32(b, i1);
      if rf.Err? {
        return Err(rf.error);
      }
      return Ok(Field(field, From32(TypeOf(spec), rf.value.0), rf.value.1));
    } else {
      return Err(UnsupportedWireType);
    }
  }

  /** The branches of decode for a length-delimited payload. */
  method LdValueOf(chunk: seq<byte>, spec: Option<FieldSpec>, depth: nat) returns (r: Result<Value>)
    ensures r == LdValue(chunk, spec, depth)
    decreases |chunk|, 4
  {
    if spec.None? {
      return Ok(VBytes(chunk));
    }
    var kind := spec.value.kind;
    if kind.Message? || kind.RepeatedMessage? {
      var es := DecodeMessage(chunk, Normalized(kind.schema), depth + 1);
      if es.Err? {
        return Err(es.error);
      }
      return Ok(VDict(es.value));
    } else if (kind.RepeatedScalar? && Packable(kind.elem)) || kind.Packed? {
      var vs := DecodePacked(chunk, kind.elem);
      if vs.Err? {
        return Err(vs.error);
      }
      return Ok(VList(vs.value));
    } else if TypeOf(spec) == Some(TString) {
      return Text(chunk);
    } else {
      return Ok(VBytes(chunk));
    }
  }
}
