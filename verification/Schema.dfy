/**
  The generator of cmd/neir-schema-gen: a depth-first walk that fills `visited` and
  `definitions` as it goes, on type graphs that may be cyclic.
 */
module Schema {
  import opened Sets
  import opened Wrappers
  import opened SchemaSpec
  import opened SchemaNames

  // The tables of the generator at any time.
  ghost predicate InStep(env: Env, visited: set<string>, c: Choice, d: map<string, Definition>) {
    Closed(env) && Apt(env, c) && visited == c.Keys && d.Keys <= visited
  }

  lemma {:induction false} InStepFacts(env: Env, visited: set<string>, c: Choice, d: map<string, Definition>)
    requires InStep(env, visited, c, d)
    ensures Closed(env) && Apt(env, c) && visited == c.Keys && d.Keys <= visited
  {
  }

  // What a part of the walk does to the two tables: every name it visits for the first
  // time is defined, as the function of its type says, and its children have been
  // visited too; what was there before stays as it was.
  ghost predicate Extends(
    env: Env, enums: Enums, c0: Choice, d0: map<string, Definition>, c1: Choice, d1: map<string, Definition>)
  {
    && Apt(env, c1) && (forall n :: n in c0 ==> n in c1 && c1[n] == c0[n])
    && d0.Keys <= c0.Keys && d1.Keys == d0.Keys + (c1.Keys - c0.Keys)
    && (forall n :: n in d0 ==> d1[n] == d0[n])
    && (forall n :: n in c1 && n !in c0 ==>
      d1[n] == DefinitionOf(enums, c1[n], env[c1[n]]) && ChildrenVisited(env[c1[n]], c1))
  }

  // Everything visited for the first time can be reached from `start`.
  ghost predicate ReachedFrom(env: Env, start: TypeId, c0: Choice, c1: Choice) {
    forall n :: n in c1 && n !in c0 ==> Leads(env, start, c1[n])
  }

  lemma {:induction false} ExtendsSelf(env: Env, enums: Enums, c: Choice, d: map<string, Definition>)
    requires Apt(env, c) && d.Keys <= c.Keys
    ensures Extends(env, enums, c, d, c, d)
  {
  }

  lemma {:induction false} MoreVisited(fs: seq<Field>, c1: Choice, c2: Choice)
    requires ChildrenVisited(fs, c1) && c1.Keys <= c2.Keys
    ensures ChildrenVisited(fs, c2)
  {
  }

  lemma {:induction false} ExtendsTransitive(
    env: Env, enums: Enums, c0: Choice, d0: map<string, Definition>, c1: Choice, d1: map<string, Definition>,
    c2: Choice, d2: map<string, Definition>)
    requires Extends(env, enums, c0, d0, c1, d1) && Extends(env, enums, c1, d1, c2, d2)
    ensures Extends(env, enums, c0, d0, c2, d2)
  {
    hide ChildrenVisited, TypeName;
    forall n | n in c2 && n !in c0
      ensures d2[n] == DefinitionOf(enums, c2[n], env[c2[n]]) && ChildrenVisited(env[c2[n]], c2)
    {
      if n in c1 { MoreVisited(env[c1[n]], c1, c2); }
    }
  }

  lemma {:induction false} ReachedAlso(env: Env, start: TypeId, c: TypeId, c0: Choice, c1: Choice, c2: Choice)
    requires start in env && Child(env[start], c)
    requires forall n :: n in c1 ==> n in c2 && c2[n] == c1[n]
    requires ReachedFrom(env, start, c0, c1) && ReachedFrom(env, c, c1, c2)
    ensures ReachedFrom(env, start, c0, c2)
  {
    forall n | n in c2 && n !in c0 ensures Leads(env, start, c2[n]) {
      if n !in c1 { LeadsThrough(env, start, c, c2[n]); }
    }
  }

  // Finishing the definition of the struct whose fields have just been walked.
  lemma {:induction false} DefineLast(
    env: Env, enums: Enums, id: TypeId, c0: Choice, d0: map<string, Definition>, c1: Choice,
    d1: map<string, Definition>)
    requires id in env && Walked(env, enums, id, c0, d0, |env[id]|, c1, d1) && Closed(env)
    ensures var d2 := d1[TypeName(id) := DefinitionOf(enums, id, env[id])];
      && TypeName(id) in c1 && InStep(env, c1.Keys, c1, d2)
      && Extends(env, enums, c0, d0, c1, d2) && ReachedFrom(env, id, c0, c1)
  {
    hide ChildrenVisited, TypeName, DefinitionOf, Leads;
    assert env[id][..|env[id]|] == env[id];
    var d2, last := d1[TypeName(id) := DefinitionOf(enums, id, env[id])], c0[TypeName(id) := id];
    forall n | n in c1 && n !in c0
      ensures d2[n] == DefinitionOf(enums, c1[n], env[c1[n]]) && ChildrenVisited(env[c1[n]], c1)
    {
      if n == TypeName(id) { assert last[n] == id; } else { assert n !in last; }
    }
  }

  lemma {:induction false} NextField(fs: seq<Field>, i: nat, c1: Choice, c2: Choice)
    requires i < |fs| && c1.Keys <= c2.Keys && ChildrenVisited(fs[..i], c1)
    requires Listed(fs[i]) && Mentions(fs[i].typ).Some? ==> TypeName(Mentions(fs[i].typ).value) in c2
    ensures ChildrenVisited(fs[..i + 1], c2)
  {
    forall x | Child(fs[..i + 1], x) ensures TypeName(x) in c2 {
      var j :| 0 <= j < i + 1 && Listed(fs[j]) && Mentions(fs[j].typ) == Some(x);
      if j < i { assert fs[..i][j] == fs[j] && Child(fs[..i], x); }
    }
  }

  lemma {:induction false} NextProperty(enums: Enums, fs: seq<Field>, i: nat)
    requires i < |fs|
    ensures PropertiesOf(enums, fs[..i + 1]) ==
      if Listed(fs[i]) then PropertiesOf(enums, fs[..i])[JsonName(fs[i].tag) := PropertyOf(enums, fs[i])]
      else PropertiesOf(enums, fs[..i])
    ensures RequiredOf(fs[..i + 1]) ==
      if Listed(fs[i]) && !OmitEmpty(fs[i].tag) then RequiredOf(fs[..i]) + [JsonName(fs[i].tag)]
      else RequiredOf(fs[..i])
    ensures RootProperties(enums, fs[..i + 1]) ==
      if Listed(fs[i]) then RootProperties(enums, fs[..i])[JsonName(fs[i].tag) := SchemaOf(enums, fs[i].typ)]
      else RootProperties(enums, fs[..i])
  {
    assert fs[..i + 1][..i] == fs[..i];
  }

  // The properties and the required names of a struct, after i of its fields.
  ghost predicate Listing(enums: Enums, fs: seq<Field>, i: nat, props: map<string, Schema>, required: seq<string>) {
    i <= |fs| && props == PropertiesOf(enums, fs[..i]) && required == RequiredOf(fs[..i])
  }

  lemma {:induction false} ListedAll(enums: Enums, fs: seq<Field>, props: map<string, Schema>, required: seq<string>)
    requires Listing(enums, fs, |fs|, props, required)
    ensures props == PropertiesOf(enums, fs) && required == RequiredOf(fs)
  {
    assert fs[..|fs|] == fs;
  }

  lemma {:induction false} ListSkipped(
    enums: Enums, fs: seq<Field>, i: nat, props: map<string, Schema>, required: seq<string>)
    requires i < |fs| && !Listed(fs[i]) && Listing(enums, fs, i, props, required)
    ensures Listing(enums, fs, i + 1, props, required)
  {
    hide PropertiesOf, RequiredOf, Listed;
    NextProperty(enums, fs, i);
  }

  lemma {:induction false} ListField(
    enums: Enums, fs: seq<Field>, i: nat, props: map<string, Schema>, required: seq<string>)
    requires i < |fs| && Listed(fs[i]) && Listing(enums, fs, i, props, required)
    ensures var f := fs[i]; var s, e, k := SchemaOf(enums, f.typ), EnumForField(enums, f.typ), JsonName(f.tag);
      Listing(
        enums, fs, i + 1, if e.Some? then props[k := s][k := s.(enum := e)] else props[k := s],
        if OmitEmpty(f.tag) then required else required + [k])
  {
    hide PropertiesOf, RequiredOf, Listed, SchemaOf, EnumForField, JsonName, OmitEmpty;
    NextProperty(enums, fs, i);
  }

  lemma {:induction false} StructRef(enums: Enums, id: TypeId)
    ensures SchemaOf(enums, Struct(id)) == Schema(if id == TIME then DateTime else Ref(TypeName(id)), None)
  {
  }

  lemma {:induction false} FewerUnvisited(env: Env, id: TypeId, v0: set<string>, v1: set<string>)
    requires id in env && TypeName(id) !in v0 && v0 + {TypeName(id)} <= v1
    ensures |Names(env) - v1| < |Names(env) - v0|
  {
    var a, b := Names(env) - v1, Names(env) - v0 - {TypeName(id)};
    SubsetSize(a, b);
  }

  class Generator {
    const fields: Env
    const enums: Enums
    var visited: set<string>
    var definitions: map<string, Definition>
    ghost var chosen: Choice

    ghost predicate Valid()
      reads this
    {
      InStep(fields, visited, chosen, definitions)
    }

    constructor (fields: Env, enums: Enums)
      requires Closed(fields)
      ensures Valid() && visited == {} && definitions == map[]
      ensures this.fields == fields && this.enums == enums
    {
      this.fields, this.enums := fields, enums;
      visited, definitions, chosen := {}, map[], map[];
    }

    ghost function Unvisited(): nat
      reads this
    {
      |Names(fields) - visited|
    }

    // The `optional` flag the walk passes along does not influence the result.
    method FieldSchema(t: GoType, optional: bool) returns (s: Schema)
      requires Valid() && (Mentions(t).Some? ==> Mentions(t).value in fields)
      modifies this
      ensures Valid() && s == SchemaOf(enums, t)
      ensures Extends(fields, enums, old(chosen), old(definitions), chosen, definitions)
      ensures match Mentions(t)
        case Some(id) => TypeName(id) in chosen && ReachedFrom(fields, id, old(chosen), chosen)
        case None => chosen == old(chosen)
      decreases Unvisited(), 1, t
    {
      hide Extends, ReachedFrom, Names, TypeName;
      match t
      case Ptr(_, elem) => s := FieldSchema(elem, true);
      case Slice(elem) =>
        var items := FieldSchema(elem, false);
        s := Schema(Array(items), None);
      case Map(_, elem) =>
        var values := FieldSchema(elem, false);
        s := Schema(Dictionary(values), None);
      case Struct(id) => s := StructSchema(id, optional);
      case Prim(kind, id) =>
        s := PrimitiveSchema(kind, id);
        ExtendsSelf(fields, enums, chosen, definitions);
    }

    function PrimitiveSchema(kind: Kind, id: TypeId): Schema {
      Schema(Basic(JsonType(kind)), Lookup(enums, TypeName(id)))
    }

    method StructSchema(id: TypeId, optional: bool) returns (s: Schema)
      requires Valid() && (id == TIME || id in fields)
      modifies this
      ensures Valid() && s == SchemaOf(enums, Struct(id))
      ensures Extends(fields, enums, old(chosen), old(definitions), chosen, definitions)
      ensures if id == TIME then chosen == old(chosen)
              else TypeName(id) in chosen && ReachedFrom(fields, id, old(chosen), chosen)
      decreases Unvisited(), 0
    {
      hide Extends, ReachedFrom, Walked, PropertiesOf, RequiredOf, Child, JsonName, OmitEmpty, Listed,
        Closed, Apt, InStep, Names, TypeName, EnumForField, Mentions, SchemaOf, Listing;
      StructRef(enums, id);
      ghost var c0, d0 := chosen, definitions;
      InStepFacts(fields, visited, c0, d0);
      ExtendsSelf(fields, enums, c0, d0);
      if id == TIME { return Schema(DateTime, None); }
      var typeName := TypeName(id);
      if typeName in visited {
        NothingReached(fields, id, c0);
        return Schema(Ref(typeName), None);
      }
      visited, chosen := visited + {typeName}, chosen[typeName := id];
      StartWalk(fields, enums, id, c0, d0);
      var props, required := map[], [];
      var fs := fields[id];
      for i := 0 to |fs|
        invariant Valid()
        invariant Walked(fields, enums, id, c0, d0, i, chosen, definitions)
        invariant Listing(enums, fs, i, props, required)
      {
        var f := fs[i];
        ghost var c1, d1 := chosen, definitions;
        InStepFacts(fields, visited, c1, d1);
        if !Listed(f) { ListSkipped(enums, fs, i, props, required); }
        if Listed(f) {
          ListField(enums, fs, i, props, required);
          BeforeField(fields, enums, id, c0, d0, i, chosen, definitions);
          var schema := FieldSchema(f.typ, OmitEmpty(f.tag));
          props := props[JsonName(f.tag) := schema];
          if !OmitEmpty(f.tag) { required := required + [JsonName(f.tag)]; }
          var enumVals := EnumForField(enums, f.typ);
          if enumVals.Some? { props := props[JsonName(f.tag) := schema.(enum := enumVals)]; }
        }
        AfterField(fields, enums, id, c0, d0, i, c1, d1, chosen, definitions);
      }
      Finish(fields, enums, id, c0, d0, chosen, definitions, visited, props, required);
      definitions := definitions[typeName := Definition(typeName, props, required)];
      return Schema(Ref(typeName), None);
    }

    // The whole run: from empty tables, the properties of the root object, and the
    // definition stored under the bare name of the root type, if there is one.
    method Generate(root: TypeId, optional: bool)
      returns (props: map<string, SchemaSpec.Schema>, extra: Option<Definition>)
      requires Valid() && root in fields && visited == {}
      modifies this
      ensures Valid() && WellChosen(fields, enums, root, chosen, definitions)
      ensures NamesDiffer(fields, root) ==> Complete(fields, enums, root, definitions)
      ensures AllFieldsDiffer(fields, root) ==>
        (Complete(fields, enums, root, definitions) <==> SameDefinitions(fields, enums, root))
      ensures props == RootProperties(enums, fields[root])
      ensures extra == if root.name in definitions then Some(definitions[root.name]) else None
      ensures '.' !in root.name ==> extra == None
    {
      hide Extends, RootProperties, Child, JsonName, OmitEmpty, Listed, Closed, Apt, Names, TypeName,
        Mentions, WellChosen, NamesDiffer, AllFieldsDiffer, SameDefinitions, Complete;
      props := map[];
      var fs := fields[root];
      assert chosen == map[] && definitions == map[];
      StartRoot(fields, enums, root);
      for i := 0 to |fs|
        invariant Valid()
        invariant RootWalked(fields, enums, root, i, chosen, definitions)
        invariant props == RootProperties(enums, fs[..i])
      {
        var f := fs[i];
        ghost var c1, d1 := chosen, definitions;
        NextProperty(enums, fs, i);
        if Listed(f) {
          MentionIsChild(fields, root, i);
          var schema := FieldSchema(f.typ, optional || OmitEmpty(f.tag));
          props := props[JsonName(f.tag) := schema];
        }
        AfterRootField(fields, enums, root, i, c1, d1, chosen, definitions);
      }
      assert fs[..|fs|] == fs;
      RootDone(fields, enums, root, chosen, definitions);
      if NamesDiffer(fields, root) { DistinctIsComplete(fields, enums, root, chosen, definitions); }
      GeneratedCompleteIff(fields, enums, root, chosen, definitions);
      extra := if root.name in definitions then Some(definitions[root.name]) else None;
    }
  }

  // The walk over the fields of `id`, after i of them.
  ghost predicate Walked(
    env: Env, enums: Enums, id: TypeId, c0: Choice, d0: map<string, Definition>, i: nat, c: Choice,
    d: map<string, Definition>)
  {
    && id in env && i <= |env[id]|
    && TypeName(id) !in c0 && d0.Keys <= c0.Keys
    && Extends(env, enums, c0[TypeName(id) := id], d0, c, d)
    && ReachedFrom(env, id, c0, c)
    && ChildrenVisited(env[id][..i], c)
  }

  lemma {:induction false} StartWalk(env: Env, enums: Enums, id: TypeId, c0: Choice, d0: map<string, Definition>)
    requires id in env && TypeName(id) !in c0 && InStep(env, c0.Keys, c0, d0)
    ensures InStep(env, c0.Keys + {TypeName(id)}, c0[TypeName(id) := id], d0)
    ensures Walked(env, enums, id, c0, d0, 0, c0[TypeName(id) := id], d0)
    ensures Listing(enums, env[id], 0, map[], [])
  {
    LeadsToSelf(env, id);
    ExtendsSelf(env, enums, c0[TypeName(id) := id], d0);
  }

  lemma {:induction false} Finish(
    env: Env, enums: Enums, id: TypeId, c0: Choice, d0: map<string, Definition>, c1: Choice,
    d1: map<string, Definition>, visited: set<string>, props: map<string, Schema>, required: seq<string>)
    requires id in env && Walked(env, enums, id, c0, d0, |env[id]|, c1, d1) && InStep(env, visited, c1, d1)
    requires Listing(enums, env[id], |env[id]|, props, required)
    ensures var d2 := d1[TypeName(id) := Definition(TypeName(id), props, required)];
      && TypeName(id) in c1 && InStep(env, visited, c1, d2)
      && Extends(env, enums, c0, d0, c1, d2) && ReachedFrom(env, id, c0, c1)
  {
    hide Walked, Listing, Extends, ReachedFrom, TypeName;
    ListedAll(enums, env[id], props, required);
    DefineLast(env, enums, id, c0, d0, c1, d1);
  }

  lemma {:induction false} BeforeField(
    env: Env, enums: Enums, id: TypeId, c0: Choice, d0: map<string, Definition>, i: nat, c: Choice,
    d: map<string, Definition>)
    requires Closed(env) && Walked(env, enums, id, c0, d0, i, c, d) && i < |env[id]| && Listed(env[id][i])
    ensures |Names(env) - c.Keys| < |Names(env) - c0.Keys|
    ensures Mentions(env[id][i].typ).Some? ==> Mentions(env[id][i].typ).value in env
  {
    hide Child, Leads, ChildrenVisited, ReachedFrom, TypeName, DefinitionOf, Names;
    assert c0.Keys + {TypeName(id)} <= c.Keys by { assert c0[TypeName(id) := id].Keys == c0.Keys + {TypeName(id)}; }
    FewerUnvisited(env, id, c0.Keys, c.Keys);
    MentionIsChild(env, id, i);
  }

  lemma {:induction false} AfterField(
    env: Env, enums: Enums, id: TypeId, c0: Choice, d0: map<string, Definition>, i: nat, c1: Choice,
    d1: map<string, Definition>, c2: Choice, d2: map<string, Definition>)
    requires Closed(env) && Walked(env, enums, id, c0, d0, i, c1, d1) && i < |env[id]|
    requires if Listed(env[id][i]) then Extends(env, enums, c1, d1, c2, d2) else c1 == c2 && d1 == d2
    requires Listed(env[id][i]) ==> match Mentions(env[id][i].typ)
      case Some(x) => TypeName(x) in c2 && ReachedFrom(env, x, c1, c2)
      case None => c1 == c2
    ensures Walked(env, enums, id, c0, d0, i + 1, c2, d2)
  {
    hide Extends, ReachedFrom, Child, ChildrenVisited;
    var t := env[id][i].typ;
    if Listed(env[id][i]) {
      ExtendsFacts(env, enums, c1, d1, c2, d2);
      ExtendsTransitive(env, enums, c0[TypeName(id) := id], d0, c1, d1, c2, d2);
      MentionIsChild(env, id, i);
      if Mentions(t).Some? { ReachedAlso(env, id, Mentions(t).value, c0, c1, c2); }
    }
    NextField(env[id], i, c1, c2);
  }

  lemma {:induction false} NothingReached(env: Env, id: TypeId, c: Choice)
    ensures ReachedFrom(env, id, c, c)
  {
  }

  lemma {:induction false} MentionIsChild(env: Env, id: TypeId, i: nat)
    requires Closed(env) && id in env && i < |env[id]| && Listed(env[id][i])
    ensures Mentions(env[id][i].typ).Some? ==>
      Mentions(env[id][i].typ).value in env && Child(env[id], Mentions(env[id][i].typ).value)
  {
    if Mentions(env[id][i].typ).Some? { assert Child(env[id], Mentions(env[id][i].typ).value); }
  }

  lemma {:induction false} ExtendsFacts(
    env: Env, enums: Enums, c0: Choice, d0: map<string, Definition>, c1: Choice, d1: map<string, Definition>)
    requires Extends(env, enums, c0, d0, c1, d1)
    ensures Apt(env, c1) && d1.Keys <= c1.Keys && forall n :: n in c0 ==> n in c1 && c1[n] == c0[n]
  {
  }

  ghost predicate RootWalked(env: Env, enums: Enums, root: TypeId, i: nat, c: Choice, d: map<string, Definition>) {
    && root in env && i <= |env[root]|
    && Extends(env, enums, map[], map[], c, d)
    && (forall n :: n in c ==> Reachable(env, root, c[n]))
    && ChildrenVisited(env[root][..i], c)
  }

  lemma {:induction false} StartRoot(env: Env, enums: Enums, root: TypeId)
    requires root in env
    ensures RootWalked(env, enums, root, 0, map[], map[])
    ensures RootProperties(enums, env[root][..0]) == map[]
  {
  }

  lemma {:induction false} AfterRootField(
    env: Env, enums: Enums, root: TypeId, i: nat, c1: Choice, d1: map<string, Definition>, c2: Choice,
    d2: map<string, Definition>)
    requires Closed(env) && RootWalked(env, enums, root, i, c1, d1) && i < |env[root]|
    requires if Listed(env[root][i]) then Extends(env, enums, c1, d1, c2, d2) else c1 == c2 && d1 == d2
    requires Listed(env[root][i]) ==> match Mentions(env[root][i].typ)
      case Some(x) => TypeName(x) in c2 && ReachedFrom(env, x, c1, c2)
      case None => c1 == c2
    ensures RootWalked(env, enums, root, i + 1, c2, d2)
  {
    hide Extends, Child, ChildrenVisited, Leads, TypeName;
    if Listed(env[root][i]) {
      ExtendsFacts(env, enums, c1, d1, c2, d2);
      ExtendsTransitive(env, enums, map[], map[], c1, d1, c2, d2);
      MentionIsChild(env, root, i);
    }
    NextField(env[root], i, c1, c2);
  }

  lemma {:induction false} RootDone(env: Env, enums: Enums, root: TypeId, c: Choice, d: map<string, Definition>)
    requires root in env && RootWalked(env, enums, root, |env[root]|, c, d)
    ensures WellChosen(env, enums, root, c, d)
    ensures forall n :: n in d ==> '.' in n
  {
    hide ChildrenVisited, Reachable, SlashToDot, Short;
    assert env[root][..|env[root]|] == env[root];
    forall n | n in d ensures '.' in n {
      assert n == TypeName(c[n]);
    }
  }
}
