/**
 * `_normalize_schema`: a declarative list of field tuples becomes a map from field number to
 * field spec and a map from field name to field number. Nested message schemas are normalized
 * eagerly, and oneof alternatives carry their group's name. Later definitions of a number or a
 * name overwrite earlier ones; nothing rejects duplicates.
 */
module Schema {
  import opened Bytes
  import opened Errors

  /** The names of `_ScalarTypes`. */
  datatype ScalarType =
    | TVarint | TUint64 | TUint32 | TInt64 | TInt32 | TSint | TSint64 | TSint32
    | TSfixed32 | TSfixed64 | TFixed32 | TFixed64 | TFloat | TDouble
    | TBool | TString | TBytes

  function TypeName(t: ScalarType): string
  {
    match t
    case TVarint => "varint" case TUint64 => "uint64" case TUint32 => "uint32"
    case TInt64 => "int64" case TInt32 => "int32" case TSint => "sint"
    case TSint64 => "sint64" case TSint32 => "sint32" case TSfixed32 => "sfixed32"
    case TSfixed64 => "sfixed64" case TFixed32 => "fixed32" case TFixed64 => "fixed64"
    case TFloat => "float" case TDouble => "double" case TBool => "bool"
    case TString => "string" case TBytes => "bytes"
  }

  /** `s in _ScalarTypes`, giving the type it names. */
  function ParseScalarType(s: string): (r: Option<ScalarType>)
    ensures r.Some? ==> TypeName(r.value) == s
    ensures r.None? ==> forall t: ScalarType :: TypeName(t) != s
  {
    if s == "varint" then Some(TVarint) else if s == "uint64" then Some(TUint64)
    else if s == "uint32" then Some(TUint32) else if s == "int64" then Some(TInt64)
    else if s == "int32" then Some(TInt32) else if s == "sint" then Some(TSint)
    else if s == "sint64" then Some(TSint64) else if s == "sint32" then Some(TSint32)
    else if s == "sfixed32" then Some(TSfixed32) else if s == "sfixed64" then Some(TSfixed64)
    else if s == "fixed32" then Some(TFixed32) else if s == "fixed64" then Some(TFixed64)
    else if s == "float" then Some(TFloat) else if s == "double" then Some(TDouble)
    else if s == "bool" then Some(TBool) else if s == "string" then Some(TString)
    else if s == "bytes" then Some(TBytes) else None
  }

  /** The fifteen numeric types that may be packed (all but string and bytes). */
  predicate Packable(t: ScalarType) { t != TString && t != TBytes }

  /** The wire type of a scalar field: 0 varint, 1 64-bit, 2 length-delimited, 5 32-bit. */
  function WireType(t: ScalarType): (wt: nat)
    ensures wt in {0, 1, 2, 5}
  {
    match t
    case TFixed64 => 1 case TSfixed64 => 1 case TDouble => 1
    case TFixed32 => 5 case TSfixed32 => 5 case TFloat => 5
    case TString => 2 case TBytes => 2
    case _ => 0
  }

  predicate IsVarintType(t: ScalarType) { WireType(t) == 0 }

  // ---------------------------------------------------------------- normalized schemas

  /**
   * A field spec dict: {"kind": "scalar", "type": t}, {"kind": "message", "schema": s},
   * {"kind": "packed", "type": t}, {"kind": "repeated", "type": t} or
   * {"kind": "repeated", "schema": s}; with its "name" and, for a oneof alternative, "oneof".
   */
  datatype Kind =
    | Scalar(t: ScalarType)
    | Message(schema: Schema)
    | Packed(elem: ScalarType)
    | RepeatedScalar(elem: ScalarType)
    | RepeatedMessage(schema: Schema)

  datatype FieldSpec = FieldSpec(kind: Kind, name: string, oneof: Option<string>)

  /** {"fields": {number: spec}, "names": {name: number}}. */
  datatype Schema = Schema(fields: map<int, FieldSpec>, names: map<string, int>)

  const EMPTY: Schema := Schema(map[], map[])

  // ---------------------------------------------------------------- schema descriptions

  /** An element of a description tuple: a str, an int, or a list/tuple of items. */
  datatype Part = PStr(s: string) | PNum(n: int) | PItems(items: seq<Item>)

  /** An element of a description list: a tuple of parts, or something that is not a tuple. */
  datatype Item = NonTuple | Tuple(parts: seq<Part>)

  /** What `_normalize_schema` is given: a description list (None and [] are both empty), or
      an already normalized schema. */
  datatype SchemaArg = Raw(items: seq<Item>) | Normalized(schema: Schema)

  function NormalizeArg(a: SchemaArg): (r: Result<Schema>)
    ensures a.Normalized? ==> r == Ok(a.schema)
    ensures a == Raw([]) ==> r == Ok(EMPTY)
  {
    match a
    case Normalized(s) => Ok(s)
    case Raw(items) => NormalizeItems(items)
  }

  /** A description list, item by item, into an initially empty schema. */
  function NormalizeItems(items: seq<Item>): Result<Schema>
    decreases items, 1
  {
    NormItemsFrom(items, 0, EMPTY)
  }

  /** The items from the k-th on, added to the schema `acc` built from the ones before. */
  function NormItemsFrom(items: seq<Item>, k: nat, acc: Schema): Result<Schema>
    requires k <= |items|
    decreases items, 0, |items| - k
  {
    if k == |items| then Ok(acc)
    else
      assert items[k] in items;
      match NormItem(items[k], acc)
      case Err(e) => Err(e)
      case Ok(acc') => NormItemsFrom(items, k + 1, acc')
  }

  function NormItem(item: Item, acc: Schema): Result<Schema>
    decreases item
  {
    match item
    case NonTuple => Err(SchemaNotTuples)
    case Tuple(parts) => NormTuple(parts, acc)
  }

  /** ("oneof", group, alternatives), (type-or-subschema, name, number) or
      (kind, name, number, spec). */
  function NormTuple(parts: seq<Part>, acc: Schema): Result<Schema>
    decreases parts
  {
    if |parts| == 3 && parts[0] == PStr("oneof") then
      assert parts[2] in parts;
      NormOneof(parts[1], parts[2], acc)
    else if |parts| == 3 then
      assert parts[0] in parts;
      match TypeOrSchema(parts[0])
      case Err(e) => Err(e)
      case Ok(kind) => Define(kind, parts[1], parts[2], None, acc)
    else if |parts| == 4 then
      assert parts[3] in parts;
      match KindOf4(parts[0], parts[3])
      case Err(e) => Err(e)
      case Ok(kind) => Define(kind, parts[1], parts[2], None, acc)
    else Err(UnsupportedTupleLength)
  }

  /** The first element of a three-element tuple: a nested description makes a message field,
      anything else must name a scalar type. */
  function TypeOrSchema(p: Part): Result<Kind>
    decreases p
  {
    match p
    case PItems(sub) =>
      (match NormalizeItems(sub)
       case Err(e) => Err(e)
       case Ok(s) => Ok(Message(s)))
    case _ =>
      (match ScalarOf(p)
       case Err(e) => Err(e)
       case Ok(t) => Ok(Scalar(t)))
  }

  /** `spec not in _ScalarTypes`: a list is unhashable, any other non-name is unknown. */
  function ScalarOf(p: Part): Result<ScalarType>
  {
    match p
    case PItems(_) => Err(UnhashableType)
    case PNum(_) => Err(UnknownScalarType)
    case PStr(s) =>
      (match ParseScalarType(s)
       case None => Err(UnknownScalarType)
       case Some(t) => Ok(t))
  }

  /** `_normalize_schema(spec)` on an arbitrary part: a false value gives the empty schema, a
      str iterates to non-tuples, an int is not iterable. */
  function SubSchema(p: Part): Result<Schema>
    decreases p, 0
  {
    match p
    case PItems(sub) => NormalizeItems(sub)
    case PStr(s) => if s == "" then Ok(EMPTY) else Err(SchemaNotTuples)
    case PNum(n) => if n == 0 then Ok(EMPTY) else Err(SchemaNotIterable)
  }

  /** The kind of a four-element tuple (kind, name, number, spec). */
  function KindOf4(kind: Part, spec: Part): Result<Kind>
    decreases spec, 1
  {
    if kind == PStr("packed") then
      match spec
      case PItems(_) => Err(UnhashableType)
      case PNum(_) => Err(UnsupportedPackedElem)
      case PStr(s) =>
        (match ParseScalarType(s)
         case Some(t) => if Packable(t) then Ok(Packed(t)) else Err(UnsupportedPackedElem)
         case None => Err(UnsupportedPackedElem))
    else if kind == PStr("message") then
      match SubSchema(spec)
      case Err(e) => Err(e)
      case Ok(s) => Ok(Message(s))
    else if kind == PStr("repeated") then
      match spec
      case PItems(sub) =>
        (match NormalizeItems(sub)
         case Err(e) => Err(e)
         case Ok(s) => Ok(RepeatedMessage(s)))
      case _ =>
        (match ScalarOf(spec)
         case Err(e) => Err(e)
         case Ok(t) => Ok(RepeatedScalar(t)))
    else if kind == PStr("scalar") then
      match ScalarOf(spec)
      case Err(e) => Err(e)
      case Ok(t) => Ok(Scalar(t))
    else Err(UnknownFieldKind)
  }

  /** `fields[int(fid)] = spec; names[name] = int(fid)`: both entries overwrite. */
  function Define(kind: Kind, name: Part, fid: Part, group: Option<string>, acc: Schema): (r: Result<Schema>)
    ensures r.Ok? <==> name.PStr? && fid.PNum?
    ensures r.Ok? ==> r.value.fields == acc.fields[fid.n := FieldSpec(kind, name.s, group)]
    ensures r.Ok? ==> r.value.names == acc.names[name.s := fid.n]
  {
    if name.PStr? && fid.PNum? then
      Ok(Schema(acc.fields[fid.n := FieldSpec(kind, name.s, group)], acc.names[name.s := fid.n]))
    else Err(UnsupportedSchemaPart)
  }

  /** ("oneof", group_name, alternatives): every alternative is defined with the group. */
  function NormOneof(group: Part, alts: Part, acc: Schema): Result<Schema>
    decreases alts
  {
    if !alts.PItems? then Err(OneofAltsNotList)
    else if !group.PStr? then Err(UnsupportedSchemaPart)
    else NormAlts(alts.items, 0, group.s, acc)
  }

  function NormAlts(alts: seq<Item>, k: nat, group: string, acc: Schema): Result<Schema>
    requires k <= |alts|
    decreases alts, |alts| - k
  {
    if k == |alts| then Ok(acc)
    else
      assert alts[k] in alts;
      match NormAlt(alts[k], group, acc)
      case Err(e) => Err(e)
      case Ok(acc') => NormAlts(alts, k + 1, group, acc')
  }

  function NormAlt(alt: Item, group: string, acc: Schema): Result<Schema>
    decreases alt
  {
    match alt
    case NonTuple => Err(OneofAltNotTuple)
    case Tuple(parts) => NormAltParts(parts, group, acc)
  }

  /** A oneof alternative: (type-or-subschema, name, number) or ("message" | "scalar", name,
      number, spec) — a singleton, never packed or repeated. */
  function NormAltParts(parts: seq<Part>, group: string, acc: Schema): Result<Schema>
    decreases parts
  {
    if |parts| == 3 then
      assert parts[0] in parts;
      match TypeOrSchema(parts[0])
      case Err(e) => Err(e)
      case Ok(kind) => Define(kind, parts[1], parts[2], Some(group), acc)
    else if |parts| == 4 then
      assert parts[3] in parts;
      match AltKindOf4(parts[0], parts[3])
      case Err(e) => Err(e)
      case Ok(kind) => Define(kind, parts[1], parts[2], Some(group), acc)
    else Err(OneofAltLength)
  }

  function AltKindOf4(kind: Part, spec: Part): Result<Kind>
    decreases spec, 1
  {
    if kind == PStr("message") then
      match SubSchema(spec)
      case Err(e) => Err(e)
      case Ok(s) => Ok(Message(s))
    else if kind == PStr("scalar") then
      match ScalarOf(spec)
      case Err(e) => Err(e)
      case Ok(t) => Ok(Scalar(t))
    else Err(OneofAltKind)
  }

  // ---------------------------------------------------------------- the normalizer as written

  /** `_normalize_schema(schema)`. */
  method Normalize(a: SchemaArg) returns (r: Result<Schema>)
    ensures r == NormalizeArg(a)
  {
    match a {
      case Normalized(s) =>
        return Ok(s);
      case Raw(items) =>
        if items == [] {
          return Ok(EMPTY);
        }
        r := NormalizeList(items);
    }
  }

  /** The loop over a description list: each tuple adds to the `fields` and `names` dicts. */
  method NormalizeList(items: seq<Item>) returns (r: Result<Schema>)
    ensures r == NormalizeItems(items)
    decreases items, 1
  {
    var fields: map<int, FieldSpec> := map[];
    var names: map<string, int> := map[];
    var k := 0;
    while k < |items|
      invariant k <= |items|
      invariant NormItemsFrom(items, k, Schema(fields, names)) == NormalizeItems(items)
    {
      assert items[k] in items;
      ghost var cur := Schema(fields, names);
      match items[k] {
        case NonTuple =>
          return Err(SchemaNotTuples);
        case Tuple(parts) =>
          assert NormItem(items[k], cur) == NormTuple(parts, cur);
          if |parts| == 3 && parts[0] == PStr("oneof") {
            var group, alts := parts[1], parts[2];
            assert NormTuple(parts, cur) == NormOneof(group, alts, cur);
            if !alts.PItems? {
              return Err(OneofAltsNotList);
            }
            if !group.PStr? {
              return Err(UnsupportedSchemaPart);
            }
            assert alts in parts;
            assert NormItem(items[k], cur) == NormAlts(alts.items, 0, group.s, cur);
            var j := 0;
            while j < |alts.items|
              invariant j <= |alts.items|
              invariant NormAlts(alts.items, j, group.s, Schema(fields, names)) == NormAlts(alts.items, 0, group.s, cur)
            {
              assert alts.items[j] in alts.items;
              ghost var acur := Schema(fields, names);
              match alts.items[j] {
                case NonTuple =>
                  return Err(OneofAltNotTuple);
                case Tuple(ap) =>
                  assert NormAlt(alts.items[j], group.s, acur) == NormAltParts(ap, group.s, acur);
                  var kind: Result<Kind>;
                  if |ap| == 3 {
                    assert ap[0] in ap;
                    kind := KindOfPart(ap[0]);
                  } else if |ap| == 4 {
                    assert ap[3] in ap;
                    kind := AltKindOfParts(ap[0], ap[3]);
                  } else {
                    return Err(OneofAltLength);
                  }
                  if kind.Err? {
                    return Err(kind.error);
                  }
                  if !(ap[1].PStr? && ap[2].PNum?) {
                    return Err(UnsupportedSchemaPart);
                  }
                  fields := fields[ap[2].n := FieldSpec(kind.value, ap[1].s, Some(group.s))];
                  names := names[ap[1].s := ap[2].n];
              }
              j := j + 1;
            }
          } else {
            var kind: Result<Kind>;
            if |parts| == 3 {
              assert parts[0] in parts;
              kind := KindOfPart(parts[0]);
            } else if |parts| == 4 {
              assert parts[3] in parts;
              kind := KindOfParts(parts[0], parts[3]);
            } else {
              return Err(UnsupportedTupleLength);
            }
            if kind.Err? {
              return Err(kind.error);
            }
            if !(parts[1].PStr? && parts[2].PNum?) {
              return Err(UnsupportedSchemaPart);
            }
            fields := fields[parts[2].n := FieldSpec(kind.value, parts[1].s, None)];
            names := names[parts[1].s := parts[2].n];
          }
      }
      k := k + 1;
    }
    return Ok(Schema(fields, names));
  }

  /** The first element of a three-element tuple or alternative: a nested description is
      normalized on the spot. */
  method KindOfPart(p: Part) returns (r: Result<Kind>)
    ensures r == TypeOrSchema(p)
    decreases p, 2
  {
    if p.PItems? {
      var sub := NormalizeList(p.items);
      if sub.Err? {
        return Err(sub.error);
      }
      return Ok(Message(sub.value));
    }
    var t := ScalarOf(p);
    if t.Err? {
      return Err(t.error);
    }
    return Ok(Scalar(t.value));
  }

  /** `_normalize_schema(spec)` for the spec of a four-element tuple. */
  method SubSchemaOf(p: Part) returns (r: Result<Schema>)
    ensures r == SubSchema(p)
    decreases p, 0
  {
    match p {
      case PItems(sub) =>
        r := NormalizeList(sub);
      case PStr(s) =>
        r := if s == "" then Ok(EMPTY) else Err(SchemaNotTuples);
      case PNum(n) =>
        r := if n == 0 then Ok(EMPTY) else Err(SchemaNotIterable);
    }
  }

  /** The kind of a four-element tuple (kind, name, number, spec). */
  method KindOfParts(kind: Part, spec: Part) returns (r: Result<Kind>)
    ensures r == KindOf4(kind, spec)
    decreases spec, 1
  {
    if kind == PStr("packed") {
      match spec {
        case PItems(_) =>
          return Err(UnhashableType);
        case PNum(_) =>
          return Err(UnsupportedPackedElem);
        case PStr(s) =>
          var t := ParseScalarType(s);
          if t.Some? && Packable(t.value) {
            return Ok(Packed(t.value));
          }
          return Err(UnsupportedPackedElem);
      }
    } else if kind == PStr("message") {
      var sub := SubSchemaOf(spec);
      if sub.Err? {
        return Err(sub.error);
      }
      return Ok(Message(sub.value));
    } else if kind == PStr("repeated") {
      if spec.PItems? {
        var sub := NormalizeList(spec.items);
        if sub.Err? {
          return Err(sub.error);
        }
        return Ok(RepeatedMessage(sub.value));
      }
      var t := ScalarOf(spec);
      if t.Err? {
        return Err(t.error);
      }
      return Ok(RepeatedScalar(t.value));
    } else if kind == PStr("scalar") {
      var t := ScalarOf(spec);
      if t.Err? {
        return Err(t.error);
      }
      return Ok(Scalar(t.value));
    }
    return Err(UnknownFieldKind);
  }

  /** The kind of a four-element oneof alternative: a message or a scalar singleton. */
  method AltKindOfParts(kind: Part, spec: Part) returns (r: Result<Kind>)
    ensures r == AltKindOf4(kind, spec)
    decreases spec, 1
  {
    if kind == PStr("message") {
      var sub := SubSchemaOf(spec);
      if sub.Err? {
        return Err(sub.error);
      }
      return Ok(Message(sub.value));
    } else if kind == PStr("scalar") {
      var t := ScalarOf(spec);
      if t.Err? {
        return Err(t.error);
      }
      return Ok(Scalar(t.value));
    }
    return Err(OneofAltKind);
  }

  // ---------------------------------------------------------------- which descriptions are rejected

  /** The malformed items of a description and what each raises. */
  lemma NormItemErrors(item: Item, acc: Schema)
    ensures item.NonTuple? ==> NormItem(item, acc) == Err(SchemaNotTuples)
    ensures item.Tuple? && |item.parts| != 3 && |item.parts| != 4 ==>
      NormItem(item, acc) == Err(UnsupportedTupleLength)
    ensures item.Tuple? && |item.parts| == 3 && item.parts[0].PStr? && item.parts[0].s != "oneof"
            && ParseScalarType(item.parts[0].s).None? ==>
      NormItem(item, acc) == Err(UnknownScalarType)
    ensures item.Tuple? && |item.parts| == 4
            && item.parts[0] !in [PStr("packed"), PStr("message"), PStr("repeated"), PStr("scalar")] ==>
      NormItem(item, acc) == Err(UnknownFieldKind)
    ensures item.Tuple? && |item.parts| == 3 && item.parts[0] == PStr("oneof") && !item.parts[2].PItems? ==>
      NormItem(item, acc) == Err(OneofAltsNotList)
  {
    if item.Tuple? {
      var parts := item.parts;
      assert NormItem(item, acc) == NormTuple(parts, acc);
      if |parts| == 3 && parts[0].PStr? && parts[0].s != "oneof" && ParseScalarType(parts[0].s).None? {
        assert TypeOrSchema(parts[0]) == Err(UnknownScalarType);
      }
    }
  }

  /** Whether an item is accepted, and the error it raises, do not depend on the items before
      it: only the dicts it writes into do. */
  lemma NormItemStatus(item: Item, a1: Schema, a2: Schema)
    ensures NormItem(item, a1).Ok? == NormItem(item, a2).Ok?
    ensures NormItem(item, a1).Err? ==> NormItem(item, a1) == NormItem(item, a2)
  {
    match item
    case NonTuple =>
    case Tuple(parts) =>
      assert NormItem(item, a1) == NormTuple(parts, a1) && NormItem(item, a2) == NormTuple(parts, a2);
      if |parts| == 3 && parts[0] == PStr("oneof") {
        assert NormTuple(parts, a1) == NormOneof(parts[1], parts[2], a1);
        assert NormTuple(parts, a2) == NormOneof(parts[1], parts[2], a2);
        if parts[2].PItems? && parts[1].PStr? {
          NormAltsStatus(parts[2].items, 0, parts[1].s, a1, a2);
        }
      }
  }

  lemma {:induction false} NormAltsStatus(alts: seq<Item>, j: nat, g: string, a1: Schema, a2: Schema)
    requires j <= |alts|
    ensures NormAlts(alts, j, g, a1).Ok? == NormAlts(alts, j, g, a2).Ok?
    ensures NormAlts(alts, j, g, a1).Err? ==> NormAlts(alts, j, g, a1) == NormAlts(alts, j, g, a2)
    decreases |alts| - j
  {
    if j < |alts| {
      var r1, r2 := NormAlt(alts[j], g, a1), NormAlt(alts[j], g, a2);
      if alts[j].Tuple? {
        assert r1 == NormAltParts(alts[j].parts, g, a1) && r2 == NormAltParts(alts[j].parts, g, a2);
      }
      assert r1.Ok? == r2.Ok? && (r1.Err? ==> r1 == r2);
      if r1.Ok? {
        NormAltsStatus(alts, j + 1, g, r1.value, r2.value);
      }
    }
  }

  /** A description is accepted exactly when each of its items is accepted on its own. */
  lemma NormalizeSucceeds(items: seq<Item>)
    ensures NormalizeItems(items).Ok? <==> forall k :: 0 <= k < |items| ==> NormItem(items[k], EMPTY).Ok?
  {
    if NormalizeItems(items).Ok? {
      ItemsEachAccepted(items, 0, EMPTY);
    } else {
      if forall k :: 0 <= k < |items| ==> NormItem(items[k], EMPTY).Ok? {
        ItemsAccepted(items, 0, EMPTY);
      }
    }
  }

  lemma {:induction false} ItemsAccepted(items: seq<Item>, k: nat, acc: Schema)
    requires k <= |items| && forall j :: k <= j < |items| ==> NormItem(items[j], EMPTY).Ok?
    ensures NormItemsFrom(items, k, acc).Ok?
    decreases |items| - k
  {
    if k < |items| {
      NormItemStatus(items[k], acc, EMPTY);
      ItemsAccepted(items, k + 1, NormItem(items[k], acc).value);
    }
  }

  lemma {:induction false} ItemsEachAccepted(items: seq<Item>, k: nat, acc: Schema)
    requires k <= |items| && NormItemsFrom(items, k, acc).Ok?
    ensures forall j :: k <= j < |items| ==> NormItem(items[j], EMPTY).Ok?
    decreases |items| - k
  {
    if k < |items| {
      NormItemStatus(items[k], acc, EMPTY);
      ItemsEachAccepted(items, k + 1, NormItem(items[k], acc).value);
    }
  }

  /** The first rejected item decides the error the description raises. */
  lemma NormalizeFirstError(items: seq<Item>, k: nat)
    requires k < |items| && NormItem(items[k], EMPTY).Err?
    requires forall j :: 0 <= j < k ==> NormItem(items[j], EMPTY).Ok?
    ensures NormalizeItems(items) == NormItem(items[k], EMPTY)
  {
    ItemsRejected(items, 0, k, EMPTY);
  }

  lemma {:induction false} ItemsRejected(items: seq<Item>, j: nat, k: nat, acc: Schema)
    requires j <= k < |items| && NormItem(items[k], EMPTY).Err?
    requires forall i :: j <= i < k ==> NormItem(items[i], EMPTY).Ok?
    ensures NormItemsFrom(items, j, acc) == NormItem(items[k], EMPTY)
    decreases k - j
  {
    NormItemStatus(items[j], acc, EMPTY);
    if j < k {
      ItemsRejected(items, j + 1, k, NormItem(items[j], acc).value);
    }
  }

  // ---------------------------------------------------------------- what a description defines

  /** The (name, number) pair a tuple defines, when its name is a str and its number an int. */
  function DefOf(name: Part, fid: Part): seq<(string, int)>
  {
    if name.PStr? && fid.PNum? then [(name.s, fid.n)] else []
  }

  /** The pairs an item defines, in order: one per field tuple, one per oneof alternative. */
  function ItemDefs(item: Item): seq<(string, int)>
  {
    match item
    case NonTuple => []
    case Tuple(parts) =>
      if |parts| == 3 && parts[0] == PStr("oneof") then
        if parts[2].PItems? then AltDefsFrom(parts[2].items, 0) else []
      else if |parts| == 3 || |parts| == 4 then DefOf(parts[1], parts[2])
      else []
  }

  function AltDefsFrom(alts: seq<Item>, j: nat): seq<(string, int)>
    requires j <= |alts|
    decreases |alts| - j
  {
    if j == |alts| then [] else AltDef(alts[j]) + AltDefsFrom(alts, j + 1)
  }

  function AltDef(alt: Item): seq<(string, int)>
  {
    match alt
    case NonTuple => []
    case Tuple(ap) => if |ap| == 3 || |ap| == 4 then DefOf(ap[1], ap[2]) else []
  }

  /** The pairs the items from the k-th on define. */
  function DefsFrom(items: seq<Item>, k: nat): seq<(string, int)>
    requires k <= |items|
    decreases |items| - k
  {
    if k == |items| then [] else ItemDefs(items[k]) + DefsFrom(items, k + 1)
  }

  function Defs(items: seq<Item>): seq<(string, int)>
  {
    DefsFrom(items, 0)
  }

  function DefNames(d: seq<(string, int)>): set<string>
  {
    set i | 0 <= i < |d| :: d[i].0
  }

  function DefNumbers(d: seq<(string, int)>): set<int>
  {
    set i | 0 <= i < |d| :: d[i].1
  }

  /** No name and no number is defined twice. */
  predicate DistinctDefs(d: seq<(string, int)>)
  {
    forall i, j :: 0 <= i < j < |d| ==> d[i].0 != d[j].0 && d[i].1 != d[j].1
  }

  /** Every name leads to a field and every field's name is a name. */
  predicate Linked(s: Schema)
  {
    && (forall n :: n in s.names ==> s.names[n] in s.fields)
    && (forall f :: f in s.fields ==> s.fields[f].name in s.names)
  }

  /** The two maps are inverse to each other. */
  predicate Agrees(s: Schema)
  {
    && (forall n :: n in s.names ==> s.names[n] in s.fields && s.fields[s.names[n]].name == n)
    && (forall f :: f in s.fields ==> s.fields[f].name in s.names && s.names[s.fields[f].name] == f)
  }

  /** The pairs d define nothing the schema already has. */
  predicate Fresh(d: seq<(string, int)>, s: Schema)
  {
    DefNames(d) !! s.names.Keys && DefNumbers(d) !! s.fields.Keys
  }

  /** The invariant a schema keeps under each definition in `d`. */
  predicate Grows(s: Schema, d: seq<(string, int)>, s': Schema)
  {
    && s'.names.Keys == s.names.Keys + DefNames(d)
    && s'.fields.Keys == s.fields.Keys + DefNumbers(d)
    && (Linked(s) ==> Linked(s'))
    && (Agrees(s) && DistinctDefs(d) && Fresh(d, s) ==> Agrees(s'))
  }

  lemma DefNamesConcat(d1: seq<(string, int)>, d2: seq<(string, int)>)
    ensures DefNames(d1 + d2) == DefNames(d1) + DefNames(d2)
    ensures DefNumbers(d1 + d2) == DefNumbers(d1) + DefNumbers(d2)
  {
    var d := d1 + d2;
    forall n | n in DefNames(d1) ensures n in DefNames(d) {
      var i :| 0 <= i < |d1| && d1[i].0 == n;
      assert d[i] == d1[i];
    }
    forall f | f in DefNumbers(d1) ensures f in DefNumbers(d) {
      var i :| 0 <= i < |d1| && d1[i].1 == f;
      assert d[i] == d1[i];
    }
    forall n | n in DefNames(d) ensures n in DefNames(d1) + DefNames(d2) {
      var i :| 0 <= i < |d| && d[i].0 == n;
      if i >= |d1| { assert d2[i - |d1|] == d[i]; }
    }
    forall n | n in DefNames(d2) ensures n in DefNames(d) {
      var i :| 0 <= i < |d2| && d2[i].0 == n;
      assert d[|d1| + i] == d2[i];
    }
    forall f | f in DefNumbers(d) ensures f in DefNumbers(d1) + DefNumbers(d2) {
      var i :| 0 <= i < |d| && d[i].1 == f;
      if i >= |d1| { assert d2[i - |d1|] == d[i]; }
    }
    forall f | f in DefNumbers(d2) ensures f in DefNumbers(d) {
      var i :| 0 <= i < |d2| && d2[i].1 == f;
      assert d[|d1| + i] == d2[i];
    }
  }

  lemma DistinctConcat(d1: seq<(string, int)>, d2: seq<(string, int)>)
    requires DistinctDefs(d1 + d2)
    ensures DistinctDefs(d1) && DistinctDefs(d2)
    ensures DefNames(d1) !! DefNames(d2) && DefNumbers(d1) !! DefNumbers(d2)
  {
    var d := d1 + d2;
    forall i, j | 0 <= i < j < |d1| ensures d1[i].0 != d1[j].0 && d1[i].1 != d1[j].1 {
      assert d[i] == d1[i] && d[j] == d1[j];
    }
    forall i, j | 0 <= i < j < |d2| ensures d2[i].0 != d2[j].0 && d2[i].1 != d2[j].1 {
      assert d[|d1| + i] == d2[i] && d[|d1| + j] == d2[j];
    }
    forall i, j | 0 <= i < |d1| && 0 <= j < |d2| ensures d1[i].0 != d2[j].0 && d1[i].1 != d2[j].1 {
      assert d[i] == d1[i] && d[|d1| + j] == d2[j];
    }
  }

  /** `fields[int(fid)] = spec; names[name] = int(fid)` grows both maps by the pair it defines. */
  lemma DefineGrows(kind: Kind, name: Part, fid: Part, group: Option<string>, acc: Schema)
    requires Define(kind, name, fid, group, acc).Ok?
    ensures Grows(acc, DefOf(name, fid), Define(kind, name, fid, group, acc).value)
  {
    var d := DefOf(name, fid);
    assert DefNames(d) == {name.s} && DefNumbers(d) == {fid.n} by {
      assert d[0] == (name.s, fid.n);
    }
  }

  /** Growing by d1 and then by d2 is growing by d1 + d2. */
  lemma GrowsTrans(s: Schema, d1: seq<(string, int)>, s1: Schema, d2: seq<(string, int)>, s2: Schema)
    requires Grows(s, d1, s1) && Grows(s1, d2, s2)
    ensures Grows(s, d1 + d2, s2)
  {
    DefNamesConcat(d1, d2);
    if Agrees(s) && DistinctDefs(d1 + d2) && Fresh(d1 + d2, s) {
      DistinctConcat(d1, d2);
    }
  }

  lemma {:induction false} AltsGrow(alts: seq<Item>, j: nat, g: string, acc: Schema)
    requires j <= |alts| && NormAlts(alts, j, g, acc).Ok?
    ensures Grows(acc, AltDefsFrom(alts, j), NormAlts(alts, j, g, acc).value)
    decreases |alts| - j
  {
    if j == |alts| {
      assert DefNames([]) == {} && DefNumbers([]) == {};
    } else {
      assert alts[j] in alts;
      var ap := alts[j].parts;
      assert NormAlt(alts[j], g, acc) == NormAltParts(ap, g, acc);
      var acc' := NormAlt(alts[j], g, acc).value;
      if |ap| == 3 {
        DefineGrows(TypeOrSchema(ap[0]).value, ap[1], ap[2], Some(g), acc);
      } else {
        DefineGrows(AltKindOf4(ap[0], ap[3]).value, ap[1], ap[2], Some(g), acc);
      }
      AltsGrow(alts, j + 1, g, acc');
      GrowsTrans(acc, AltDef(alts[j]), acc', AltDefsFrom(alts, j + 1), NormAlts(alts, j, g, acc).value);
    }
  }

  lemma ItemGrows(item: Item, acc: Schema)
    requires NormItem(item, acc).Ok?
    ensures Grows(acc, ItemDefs(item), NormItem(item, acc).value)
  {
    var parts := item.parts;
    assert NormItem(item, acc) == NormTuple(parts, acc);
    if |parts| == 3 && parts[0] == PStr("oneof") {
      assert NormTuple(parts, acc) == NormOneof(parts[1], parts[2], acc);
      assert NormTuple(parts, acc) == NormAlts(parts[2].items, 0, parts[1].s, acc);
      AltsGrow(parts[2].items, 0, parts[1].s, acc);
    } else if |parts| == 3 {
      DefineGrows(TypeOrSchema(parts[0]).value, parts[1], parts[2], None, acc);
    } else {
      DefineGrows(KindOf4(parts[0], parts[3]).value, parts[1], parts[2], None, acc);
    }
  }

  lemma {:induction false} ItemsGrow(items: seq<Item>, k: nat, acc: Schema)
    requires k <= |items| && NormItemsFrom(items, k, acc).Ok?
    ensures Grows(acc, DefsFrom(items, k), NormItemsFrom(items, k, acc).value)
    decreases |items| - k
  {
    if k == |items| {
      assert DefNames([]) == {} && DefNumbers([]) == {};
    } else {
      var acc' := NormItem(items[k], acc).value;
      ItemGrows(items[k], acc);
      ItemsGrow(items, k + 1, acc');
      GrowsTrans(acc, ItemDefs(items[k]), acc', DefsFrom(items, k + 1), NormItemsFrom(items, k, acc).value);
    }
  }

  /**
   * A normalized description has exactly the names and numbers its tuples define; every name
   * leads to a field and every field's name is a name; and when no name and no number is
   * defined twice, `names[spec["name"]] == fid` for every field and the other way round.
   */
  lemma NormalizeDefines(items: seq<Item>)
    requires NormalizeItems(items).Ok?
    ensures NormalizeItems(items).value.names.Keys == DefNames(Defs(items))
    ensures NormalizeItems(items).value.fields.Keys == DefNumbers(Defs(items))
    ensures Linked(NormalizeItems(items).value)
    ensures DistinctDefs(Defs(items)) ==> Agrees(NormalizeItems(items).value)
  {
    ItemsGrow(items, 0, EMPTY);
    assert DefNames(Defs(items)) !! {} && DefNumbers(Defs(items)) !! {};
  }

  /** Later definitions overwrite: with the name "a" given to field 1 and then to field 2, field
      1 keeps the name while "a" leads to field 2. */
  lemma DuplicateNameOverwrites()
    ensures
      var items := [Tuple([PStr("varint"), PStr("a"), PNum(1)]), Tuple([PStr("varint"), PStr("a"), PNum(2)])];
      && NormalizeItems(items).Ok?
      && NormalizeItems(items).value.fields[1].name == "a"
      && NormalizeItems(items).value.names["a"] == 2
  {
    var items := [Tuple([PStr("varint"), PStr("a"), PNum(1)]), Tuple([PStr("varint"), PStr("a"), PNum(2)])];
    var s1 := Schema(map[1 := FieldSpec(Scalar(TVarint), "a", None)], map["a" := 1]);
    var s2 := Schema(s1.fields[2 := FieldSpec(Scalar(TVarint), "a", None)], map["a" := 2]);
    assert TypeOrSchema(PStr("varint")) == Ok(Scalar(TVarint));
    assert NormItem(items[0], EMPTY) == NormTuple(items[0].parts, EMPTY) == Ok(s1);
    assert s1.names["a" := 2] == s2.names;
    assert NormItem(items[1], s1) == NormTuple(items[1].parts, s1) == Ok(s2);
    assert NormItemsFrom(items, 2, s2) == Ok(s2);
  }

  // ---------------------------------------------------------------- oneof alternatives

  /** The group an item's fields are marked with: a oneof's name, or none. */
  function ItemGroup(item: Item): Option<string>
  {
    if item.Tuple? && |item.parts| == 3 && item.parts[0] == PStr("oneof") && item.parts[1].PStr?
    then Some(item.parts[1].s) else None
  }

  /** Every field an item writes carries the item's group: `"oneof": group_name` for the
      alternatives of a oneof, nothing for a plain field; the other fields are left as they were. */
  lemma ItemTags(item: Item, acc: Schema)
    requires NormItem(item, acc).Ok?
    ensures acc.fields.Keys <= NormItem(item, acc).value.fields.Keys
    ensures forall f :: f in NormItem(item, acc).value.fields ==>
      (f in acc.fields && NormItem(item, acc).value.fields[f] == acc.fields[f])
      || NormItem(item, acc).value.fields[f].oneof == ItemGroup(item)
  {
    var parts := item.parts;
    assert NormItem(item, acc) == NormTuple(parts, acc);
    if |parts| == 3 && parts[0] == PStr("oneof") {
      assert NormTuple(parts, acc) == NormOneof(parts[1], parts[2], acc);
      assert NormTuple(parts, acc) == NormAlts(parts[2].items, 0, parts[1].s, acc);
      AltsTags(parts[2].items, 0, parts[1].s, acc);
    }
  }

  lemma {:induction false} AltsTags(alts: seq<Item>, j: nat, g: string, acc: Schema)
    requires j <= |alts| && NormAlts(alts, j, g, acc).Ok?
    ensures acc.fields.Keys <= NormAlts(alts, j, g, acc).value.fields.Keys
    ensures forall f :: f in NormAlts(alts, j, g, acc).value.fields ==>
      (f in acc.fields && NormAlts(alts, j, g, acc).value.fields[f] == acc.fields[f])
      || NormAlts(alts, j, g, acc).value.fields[f].oneof == Some(g)
    decreases |alts| - j
  {
    if j < |alts| {
      assert NormAlt(alts[j], g, acc) == NormAltParts(alts[j].parts, g, acc);
      var acc' := NormAlt(alts[j], g, acc).value;
      assert forall f :: f in acc'.fields ==> (f in acc.fields && acc'.fields[f] == acc.fields[f]) || acc'.fields[f].oneof == Some(g);
      AltsTags(alts, j + 1, g, acc');
    }
  }
}
