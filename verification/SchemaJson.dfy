/**
  What the generated schemas accept, against what Go writes: JSON values, the values
  that encoding/json produces for a type without nil in them, and validation after
  draft 7 of JSON Schema.
 */
module SchemaJson {
  import opened Wrappers
  import opened SchemaSpec
  import opened SchemaNames

  datatype Json =
    | Null
    | Truth(b: bool)
    | Number(n: int)
    | Text(s: string)
    | List(items: seq<Json>)
    | Object(members: seq<Member>)

  datatype Member = Member(name: string, value: Json)

  predicate Has(members: seq<Member>, name: string) { exists i :: 0 <= i < |members| && members[i].name == name }

  // ------------------------------------------------------------- validation

  predicate EnumAllows(enum: Option<seq<string>>, v: Json) { enum.Some? ==> v.Text? && v.s in enum.value }

  // Whatever stands beside a $ref is ignored.
  ghost predicate Validates(d: map<string, Definition>, s: Schema, v: Json)
    decreases v, 1
  {
    match s.shape
    case Ref(target) => target in d && ValidatesObject(d, d[target], v)
    case Basic(jsonType) =>
      EnumAllows(s.enum, v) &&
      if jsonType == "string" then v.Text?
      else if jsonType == "number" then v.Number?
      else if jsonType == "boolean" then v.Truth?
      else false
    case DateTime => EnumAllows(s.enum, v) && v.Text?
    case Array(element) =>
      EnumAllows(s.enum, v) && v.List? && forall i :: 0 <= i < |v.items| ==> Validates(d, element, v.items[i])
    case Dictionary(values) =>
      EnumAllows(s.enum, v) && v.Object? &&
      forall i :: 0 <= i < |v.members| ==> Validates(d, values, v.members[i].value)
  }

  ghost predicate ValidatesObject(d: map<string, Definition>, o: Definition, v: Json)
    decreases v, 0
  {
    && v.Object?
    && (forall k :: k in o.required ==> Has(v.members, k))
    && forall i :: 0 <= i < |v.members| && v.members[i].name in o.properties ==>
      Validates(d, o.properties[v.members[i].name], v.members[i].value)
  }

  // ---------------------------------------------------------------- writing

  // What encoding/json writes for values without nil of a type. A string type that is
  // enumerated has the listed values only; of a kind not told apart anything may come.
  ghost predicate Writes(env: Env, enums: Enums, t: GoType, v: Json)
    decreases v, 1, t
  {
    match t
    case Prim(StringKind, id) => v.Text? && (TypeName(id) in enums ==> v.s in enums[TypeName(id)])
    case Prim(BoolKind, _) => v.Truth?
    case Prim(NumberKind, _) => v.Number?
    case Prim(ByteKind, _) => v.Number?
    case Prim(OtherKind, _) => true
    case Ptr(_, elem) => Writes(env, enums, elem, v)
    case Slice(elem) =>
      if Bytes(elem) then v.Text?
      else v.List? && forall i :: 0 <= i < |v.items| ==> Writes(env, enums, elem, v.items[i])
    case Map(_, elem) =>
      v.Object? && forall i :: 0 <= i < |v.members| ==> Writes(env, enums, elem, v.members[i].value)
    case Struct(id) => if id == TIME then v.Text? else id in env && WritesStruct(env, enums, env[id], v)
  }

  predicate Bytes(elem: GoType) { elem.Prim? && elem.kind.ByteKind? }

  // A listed field is written under its name with a value of its type, or left out if its
  // tag says omitempty; fields that are not listed may add members of other names.
  ghost predicate WritesStruct(env: Env, enums: Enums, fs: seq<Field>, v: Json)
    decreases v, 0
  {
    && v.Object?
    && forall k :: 0 <= k < |fs| && Listed(fs[k]) ==>
      && (!OmitEmpty(fs[k].tag) ==> Has(v.members, JsonName(fs[k].tag)))
      && forall i :: 0 <= i < |v.members| && v.members[i].name == JsonName(fs[k].tag) ==>
        Writes(env, enums, fs[k].typ, v.members[i].value)
  }

  // ---------------------------------------------------------- one schema

  // A slice's schema accepts arrays only, and a map's objects only.
  lemma {:induction false} ShapesApart(d: map<string, Definition>, enums: Enums, t: GoType, v: Json)
    requires Validates(d, SchemaOf(enums, t), v)
    ensures t.Slice? ==> v.List?
    ensures t.Map? ==> v.Object?
  {
  }

  // The types whose schema says what is written: none of a kind that is not told apart,
  // no slice of bytes, and no enumeration of anything but text.
  predicate Plain(enums: Enums, t: GoType) {
    match t
    case Prim(StringKind, _) => true
    case Prim(OtherKind, _) => false
    case Prim(_, id) => TypeName(id) !in enums
    case Ptr(_, elem) => Plain(enums, elem)
    case Slice(elem) => !Bytes(elem) && Plain(enums, elem)
    case Map(_, elem) => Plain(enums, elem)
    case Struct(_) => true
  }

  // Of any other type something is written that its schema does not accept.
  lemma {:induction false} NotPlain(env: Env, d: map<string, Definition>, enums: Enums, t: GoType) returns (v: Json)
    requires !Plain(enums, t)
    ensures Writes(env, enums, t, v) && !Validates(d, SchemaOf(enums, t), v)
  {
    match t
    case Prim(kind, _) => v := if kind.BoolKind? || kind.OtherKind? then Truth(true) else Number(0);
    case Ptr(_, elem) => v := NotPlain(env, d, enums, elem);
    case Slice(elem) =>
      if Bytes(elem) {
        v := Text("");
      } else {
        var w := NotPlain(env, d, enums, elem);
        v := List([w]);
        assert v.items[0] == w;
      }
    case Map(_, elem) =>
      var w := NotPlain(env, d, enums, elem);
      v := Object([Member("", w)]);
      assert v.members[0].value == w;
  }

  // A field whose property is the schema of its type, in effect.
  predicate PlainField(enums: Enums, f: Field) {
    var ft := if f.typ.Ptr? then f.typ.elem else f.typ;
    && Plain(enums, f.typ)
    && (ft.Ptr? || ft.Map? || (ft.Struct? && ft.id == TIME) ==> TypeName(ft.id) !in enums)
  }

  lemma {:induction false} PropertyIsSchema(d: map<string, Definition>, enums: Enums, f: Field, v: Json)
    requires PlainField(enums, f)
    ensures Validates(d, PropertyOf(enums, f), v) <==> Validates(d, SchemaOf(enums, f.typ), v)
  {
    hide TypeName;
    var ft := if f.typ.Ptr? then f.typ.elem else f.typ;
    assert SchemaOf(enums, f.typ) == SchemaOf(enums, ft);
    if EnumForField(enums, f.typ).Some? {
      assert !ft.Slice?;
      match ft
      case Prim(_, _) => assert PropertyOf(enums, f) == SchemaOf(enums, f.typ);
      case Struct(id) => assert PropertyOf(enums, f).shape == Ref(TypeName(id));
      case _ =>
    }
  }

  // --------------------------------------------------------- whole structs

  lemma {:induction false} RequiredIff(fs: seq<Field>, name: string)
    ensures name in RequiredOf(fs) <==>
      exists k :: 0 <= k < |fs| && Listed(fs[k]) && !OmitEmpty(fs[k].tag) && JsonName(fs[k].tag) == name
  {
    if fs != [] {
      hide Listed, OmitEmpty, JsonName;
      var n := |fs| - 1;
      var before := fs[..n];
      RequiredIff(before, name);
      if k :| 0 <= k < |fs| && Listed(fs[k]) && !OmitEmpty(fs[k].tag) && JsonName(fs[k].tag) == name {
        if k < n { assert before[k] == fs[k]; }
      }
      if k :| 0 <= k < |before| && Listed(before[k]) && !OmitEmpty(before[k].tag) && JsonName(before[k].tag) == name {
        assert fs[k] == before[k];
      }
    }
  }

  // The property of this name is that of the one field of this name.
  lemma {:induction false} PropertyAt(enums: Enums, fs: seq<Field>, k: nat)
    requires FieldsDiffer(fs) && k < |fs| && Listed(fs[k])
    ensures var name := JsonName(fs[k].tag);
      && name in PropertiesOf(enums, fs) && PropertiesOf(enums, fs)[name] == PropertyOf(enums, fs[k])
      && name in RootProperties(enums, fs) && RootProperties(enums, fs)[name] == SchemaOf(enums, fs[k].typ)
  {
    hide JsonName, PropertyOf, SchemaOf;
    var n := |fs| - 1;
    if k < n {
      assert fs[..n][k] == fs[k];
      PropertyAt(enums, fs[..n], k);
    }
  }

  lemma {:induction false} PropertyHasField(enums: Enums, fs: seq<Field>, name: string) returns (k: nat)
    requires name in PropertiesOf(enums, fs)
    ensures k < |fs| && Listed(fs[k]) && JsonName(fs[k].tag) == name
  {
    var n := |fs| - 1;
    if Listed(fs[n]) && JsonName(fs[n].tag) == name {
      k := n;
    } else {
      k := PropertyHasField(enums, fs[..n], name);
    }
  }

  // All that the exact result asks of the types the root leads to.
  ghost predicate WellFormed(env: Env, enums: Enums, root: TypeId, d: map<string, Definition>)
    requires root in env
  {
    && Closed(env) && Complete(env, enums, root, d) && AllFieldsDiffer(env, root)
    && forall id, k :: id in env && Reachable(env, root, id) && 0 <= k < |env[id]| && Listed(env[id][k]) ==>
      PlainField(enums, env[id][k])
  }

  ghost predicate Known(env: Env, root: TypeId, t: GoType)
    requires root in env
  {
    Mentions(t).Some? ==> Mentions(t).value in env && Reachable(env, root, Mentions(t).value)
  }

  lemma {:induction false} FieldIsKnown(
    env: Env, enums: Enums, root: TypeId, d: map<string, Definition>, id: TypeId, k: nat)
    requires root in env && WellFormed(env, enums, root, d) && id in env && Reachable(env, root, id)
    requires k < |env[id]| && Listed(env[id][k])
    ensures Known(env, root, env[id][k].typ) && PlainField(enums, env[id][k]) && FieldsDiffer(env[id])
  {
    hide Reachable, Complete, FieldsDiffer, PlainField;
    var t := env[id][k].typ;
    if Mentions(t).Some? {
      assert Child(env[id], Mentions(t).value);
      ReachableChild(env, root, id, Mentions(t).value);
    }
  }

  // A value is accepted by the schema of its type exactly when it is one that Go writes
  // for the type: the shapes, the required members and the $refs are all as they must be.
  lemma {:induction false} WrittenIffAccepted(
    env: Env, enums: Enums, root: TypeId, d: map<string, Definition>, t: GoType, v: Json)
    requires root in env && WellFormed(env, enums, root, d) && Known(env, root, t) && Plain(enums, t)
    ensures Writes(env, enums, t, v) <==> Validates(d, SchemaOf(enums, t), v)
    decreases v, 1, t
  {
    hide WellFormed, Reachable, TypeName;
    match t
    case Prim(_, _) =>
    case Ptr(_, elem) => WrittenIffAccepted(env, enums, root, d, elem, v);
    case Slice(elem) =>
      if v.List? {
        forall i | 0 <= i < |v.items|
          ensures Writes(env, enums, elem, v.items[i]) <==> Validates(d, SchemaOf(enums, elem), v.items[i])
        {
          WrittenIffAccepted(env, enums, root, d, elem, v.items[i]);
        }
      }
    case Map(_, elem) =>
      if v.Object? {
        forall i | 0 <= i < |v.members|
          ensures Writes(env, enums, elem, v.members[i].value) <==>
            Validates(d, SchemaOf(enums, elem), v.members[i].value)
        {
          WrittenIffAccepted(env, enums, root, d, elem, v.members[i].value);
        }
      }
    case Struct(id) =>
      if id != TIME {
        DefinitionStands(env, enums, root, d, id);
        StructIffAccepted(env, enums, root, d, id, v);
      }
  }

  lemma {:induction false} DefinitionStands(
    env: Env, enums: Enums, root: TypeId, d: map<string, Definition>, id: TypeId)
    requires root in env && WellFormed(env, enums, root, d) && id in env && Reachable(env, root, id)
    ensures TypeName(id) in d && d[TypeName(id)] == DefinitionOf(enums, id, env[id])
  {
    hide Reachable, TypeName, DefinitionOf;
  }

  lemma {:induction false} StructIffAccepted(
    env: Env, enums: Enums, root: TypeId, d: map<string, Definition>, id: TypeId, v: Json)
    requires root in env && WellFormed(env, enums, root, d) && id in env && Reachable(env, root, id)
    ensures WritesStruct(env, enums, env[id], v) <==> ValidatesObject(d, DefinitionOf(enums, id, env[id]), v)
    decreases v, 0
  {
    hide WellFormed, Reachable, Listed, JsonName, OmitEmpty, TypeName, PropertiesOf, RequiredOf, Writes, Validates;
    var fs := env[id];
    if v.Object? {
      forall name ensures name in RequiredOf(fs) <==>
        exists k :: 0 <= k < |fs| && Listed(fs[k]) && !OmitEmpty(fs[k].tag) && JsonName(fs[k].tag) == name
      {
        RequiredIff(fs, name);
      }
      forall k, i | 0 <= k < |fs| && Listed(fs[k]) && 0 <= i < |v.members| && v.members[i].name == JsonName(fs[k].tag)
        ensures v.members[i].name in PropertiesOf(enums, fs)
        ensures Writes(env, enums, fs[k].typ, v.members[i].value) <==>
          Validates(d, PropertiesOf(enums, fs)[v.members[i].name], v.members[i].value)
      {
        MemberIffAccepted(env, enums, root, d, id, v, k, i);
      }
      forall i | 0 <= i < |v.members| && v.members[i].name in PropertiesOf(enums, fs)
        ensures exists k :: 0 <= k < |fs| && Listed(fs[k]) && JsonName(fs[k].tag) == v.members[i].name
      {
        var k := PropertyHasField(enums, fs, v.members[i].name);
      }
    }
  }

  lemma {:induction false} MemberIffAccepted(
    env: Env, enums: Enums, root: TypeId, d: map<string, Definition>, id: TypeId, v: Json, k: nat, i: nat)
    requires root in env && WellFormed(env, enums, root, d) && id in env && Reachable(env, root, id)
    requires k < |env[id]| && Listed(env[id][k]) && v.Object? && i < |v.members|
    requires v.members[i].name == JsonName(env[id][k].tag)
    ensures v.members[i].name in PropertiesOf(enums, env[id])
    ensures Writes(env, enums, env[id][k].typ, v.members[i].value) <==>
      Validates(d, PropertiesOf(enums, env[id])[v.members[i].name], v.members[i].value)
    decreases v, 0, 0
  {
    hide WellFormed, Reachable, Listed, JsonName, TypeName, PropertiesOf, Writes, Validates;
    var f, w := env[id][k], v.members[i].value;
    FieldIsKnown(env, enums, root, d, id, k);
    PropertyAt(enums, env[id], k);
    PropertyIsSchema(d, enums, f, w);
    WrittenIffAccepted(env, enums, root, d, f.typ, w);
  }

  // The members of the root object, whose properties are the schemas of its fields.
  lemma {:induction false} RootIffAccepted(
    env: Env, enums: Enums, root: TypeId, d: map<string, Definition>, k: nat, v: Json)
    requires root in env && WellFormed(env, enums, root, d) && FieldsDiffer(env[root])
    requires k < |env[root]| && Listed(env[root][k]) && Plain(enums, env[root][k].typ)
    ensures var f, props := env[root][k], RootProperties(enums, env[root]);
      JsonName(f.tag) in props && (Writes(env, enums, f.typ, v) <==> Validates(d, props[JsonName(f.tag)], v))
  {
    hide Listed, JsonName, Plain, Writes, Validates, FieldsDiffer, Complete, PlainField;
    var t := env[root][k].typ;
    PropertyAt(enums, env[root], k);
    if Mentions(t).Some? {
      assert Child(env[root], Mentions(t).value);
      ChildReachable(env, root, Mentions(t).value);
    }
    WrittenIffAccepted(env, enums, root, d, t, v);
  }
}
