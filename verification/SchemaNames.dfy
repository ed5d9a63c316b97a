/**
  What the schema generator leaves behind when type names may coincide, and when that
  is what the types ask for.
 */
module SchemaNames {
  import opened Wrappers
  import opened SchemaSpec

  // The type each visited name was first visited for; types that share a name share
  // the entry.
  type Choice = map<string, TypeId>

  ghost function Names(env: Env): set<string> { set id | id in env :: TypeName(id) }

  ghost predicate Apt(env: Env, c: Choice) {
    forall n :: n in c ==> c[n] in env && TypeName(c[n]) == n
  }

  ghost predicate ChildrenVisited(fs: seq<Field>, c: Choice) {
    forall x :: Child(fs, x) ==> TypeName(x) in c
  }

  // What the generator leaves behind, names that meet included: one definition for
  // every name it met, taken from one reachable type of that name, and every $ref in
  // the root object or in a definition defined as well.
  ghost predicate WellChosen(env: Env, enums: Enums, root: TypeId, c: Choice, d: map<string, Definition>)
    requires root in env
  {
    && Apt(env, c) && d.Keys == c.Keys && ChildrenVisited(env[root], c)
    && forall n :: n in c ==>
      Reachable(env, root, c[n]) && d[n] == DefinitionOf(enums, c[n], env[c[n]]) && ChildrenVisited(env[c[n]], c)
  }

  // The table holds exactly the struct types the root leads to, each with the
  // definition its type determines.
  ghost predicate Complete(env: Env, enums: Enums, root: TypeId, d: map<string, Definition>)
    requires root in env
  {
    && (forall n :: n in d <==> exists id :: id in env && Reachable(env, root, id) && TypeName(id) == n)
    && (forall id :: id in env && Reachable(env, root, id) ==> d[TypeName(id)] == DefinitionOf(enums, id, env[id]))
  }

  // The order of the walk cannot show: there is at most one complete table.
  lemma {:induction false} CompleteIsUnique(
    env: Env, enums: Enums, root: TypeId, d: map<string, Definition>, d': map<string, Definition>)
    requires root in env && Complete(env, enums, root, d) && Complete(env, enums, root, d')
    ensures d == d'
  {
    hide Reachable, TypeName, DefinitionOf;
    forall n | n in d ensures n in d' && d[n] == d'[n] {
      var id :| id in env && Reachable(env, root, id) && TypeName(id) == n;
    }
  }

  ghost predicate Namesakes(env: Env, root: TypeId, a: TypeId, b: TypeId)
    requires root in env
  {
    a in env && b in env && Reachable(env, root, a) && Reachable(env, root, b) && TypeName(a) == TypeName(b)
  }

  // Of the types the root leads to, those that share a name share a definition.
  ghost predicate SameDefinitions(env: Env, enums: Enums, root: TypeId)
    requires root in env
  {
    forall a, b :: Namesakes(env, root, a, b) ==> DefinitionOf(enums, a, env[a]) == DefinitionOf(enums, b, env[b])
  }

  // Of the types the root leads to, no two share a name.
  ghost predicate NamesDiffer(env: Env, root: TypeId)
    requires root in env
  {
    forall a, b :: Namesakes(env, root, a, b) ==> a == b
  }

  ghost predicate AllFieldsDiffer(env: Env, root: TypeId)
    requires root in env
  {
    forall id :: id in env && Reachable(env, root, id) ==> FieldsDiffer(env[id])
  }

  ghost predicate Bears(env: Env, root: TypeId, n: string, id: TypeId)
    requires root in env
  {
    id in env && Reachable(env, root, id) && TypeName(id) == n
  }

  // Two reachable types with one name and two definitions leave no table that is
  // right for both; otherwise there is one.
  lemma {:induction false} SomeTableIff(env: Env, enums: Enums, root: TypeId)
    requires root in env
    ensures (exists d :: Complete(env, enums, root, d)) <==> SameDefinitions(env, enums, root)
  {
    hide Reachable, TypeName, DefinitionOf;
    if SameDefinitions(env, enums, root) {
      var d := TableOf(env, enums, root);
      forall id | id in env && Reachable(env, root, id)
        ensures TypeName(id) in d && d[TypeName(id)] == DefinitionOf(enums, id, env[id])
      {
        assert Bears(env, root, TypeName(id), id);
        var b := Bearer(env, root, TypeName(id));
        assert Namesakes(env, root, b, id);
      }
      forall n | n in d ensures exists id :: id in env && Reachable(env, root, id) && TypeName(id) == n {
        assert Bears(env, root, n, Bearer(env, root, n));
      }
      assert Complete(env, enums, root, d);
    }
  }

  ghost function Bearer(env: Env, root: TypeId, n: string): (id: TypeId)
    requires root in env && exists id :: Bears(env, root, n, id)
    ensures Bears(env, root, n, id)
  {
    var id :| Bears(env, root, n, id);
    id
  }

  ghost function TableOf(env: Env, enums: Enums, root: TypeId): (d: map<string, Definition>)
    requires root in env
    ensures forall n :: n in d <==> n in Names(env) && exists id :: Bears(env, root, n, id)
    ensures forall n :: n in d ==>
      d[n] == DefinitionOf(enums, Bearer(env, root, n), env[Bearer(env, root, n)])
  {
    map n | n in Names(env) && (exists id :: Bears(env, root, n, id)) ::
      DefinitionOf(enums, Bearer(env, root, n), env[Bearer(env, root, n)])
  }

  // Reachable namesakes have children of the same names.
  ghost predicate SameChildren(env: Env, root: TypeId)
    requires root in env
  {
    forall a, b, x :: Namesakes(env, root, a, b) && Child(env[a], x) ==>
      exists y :: Child(env[b], y) && TypeName(y) == TypeName(x)
  }

  lemma {:induction false} EveryNameMet(
    env: Env, enums: Enums, root: TypeId, c: Choice, d: map<string, Definition>, id: TypeId)
    requires root in env && WellChosen(env, enums, root, c, d) && SameChildren(env, root)
    requires id in env && Reachable(env, root, id)
    ensures TypeName(id) in c
  {
    hide TypeName, Child, WellChosen, SameChildren;
    var s :| Child(env[root], s) && Leads(env, s, id);
    var p :| IsPath(env, p) && p[0] == s && p[|p| - 1] == id;
    hide Reachable, Leads;
    PathMet(env, enums, root, c, d, p);
  }

  lemma {:induction false} PathMet(
    env: Env, enums: Enums, root: TypeId, c: Choice, d: map<string, Definition>, p: seq<TypeId>)
    requires root in env && WellChosen(env, enums, root, c, d) && SameChildren(env, root)
    requires IsPath(env, p) && Child(env[root], p[0])
    ensures TypeName(p[|p| - 1]) in c
  {
    hide TypeName, Child, SameChildren, Reachable, ChildrenVisited;
    ChildReachable(env, root, p[0]);
    Visited(env[root], c, p[0]);
    hide WellChosen, IsPath;
    forall a, x | a in env && Reachable(env, root, a) && TypeName(a) in c.Keys && Child(env[a], x)
      ensures TypeName(x) in c.Keys
    {
      ChildMet(env, enums, root, c, d, a, x);
    }
    ClosedUnderPaths(env, root, p, c.Keys);
  }

  lemma {:induction false} ChildReachable(env: Env, root: TypeId, s: TypeId)
    requires root in env && Child(env[root], s) && s in env
    ensures Reachable(env, root, s)
  {
    LeadsToSelf(env, s);
  }

  lemma {:induction false} Visited(fs: seq<Field>, c: Choice, x: TypeId)
    requires ChildrenVisited(fs, c) && Child(fs, x)
    ensures TypeName(x) in c
  {
  }

  lemma {:induction false} ChildMet(
    env: Env, enums: Enums, root: TypeId, c: Choice, d: map<string, Definition>, a: TypeId, x: TypeId)
    requires root in env && WellChosen(env, enums, root, c, d) && SameChildren(env, root)
    requires a in env && Reachable(env, root, a) && TypeName(a) in c && Child(env[a], x)
    ensures TypeName(x) in c
  {
    hide TypeName, Child, DefinitionOf, Reachable;
    var b := c[TypeName(a)];
    assert Namesakes(env, root, a, b);
    var y :| Child(env[b], y) && TypeName(y) == TypeName(x);
    assert ChildrenVisited(env[b], c);
  }

  // When namesakes agree in their definitions and in the names of their children, the
  // generator defines everything.
  lemma {:induction false} AgreeingIsComplete(
    env: Env, enums: Enums, root: TypeId, c: Choice, d: map<string, Definition>)
    requires root in env && WellChosen(env, enums, root, c, d)
    requires SameDefinitions(env, enums, root) && SameChildren(env, root)
    ensures Complete(env, enums, root, d)
  {
    hide TypeName, Child, DefinitionOf, Reachable, SameChildren, WellChosen, SameDefinitions;
    forall id | id in env && Reachable(env, root, id) ensures TypeName(id) in c {
      EveryNameMet(env, enums, root, c, d, id);
    }
    MetIsComplete(env, enums, root, c, d);
  }

  // The walk has come to every name a reachable type has. It may not when one of two
  // fields with one JSON name is all that leads there: the other then stands for both.
  ghost predicate AllMet(env: Env, root: TypeId, c: Choice)
    requires root in env
  {
    forall id :: id in env && Reachable(env, root, id) ==> TypeName(id) in c
  }

  // The table the generator ends with is the complete one exactly when reachable types
  // of one name have one definition and their names have all been met; with distinct
  // JSON names in each struct the second follows from the first.
  lemma {:induction false} GeneratedCompleteIff(
    env: Env, enums: Enums, root: TypeId, c: Choice, d: map<string, Definition>)
    requires root in env && WellChosen(env, enums, root, c, d)
    ensures Complete(env, enums, root, d) <==> SameDefinitions(env, enums, root) && AllMet(env, root, c)
    ensures AllFieldsDiffer(env, root) ==>
      (Complete(env, enums, root, d) <==> SameDefinitions(env, enums, root))
  {
    hide SameChildren, DefinitionOf, TypeName, Reachable, SameDefinitions, AllFieldsDiffer;
    SomeTableIff(env, enums, root);
    if Complete(env, enums, root, d) { CompleteIsMet(env, enums, root, c, d); }
    hide Complete;
    if SameDefinitions(env, enums, root) && AllMet(env, root, c) { MetIsComplete(env, enums, root, c, d); }
    if SameDefinitions(env, enums, root) && AllFieldsDiffer(env, root) {
      AgreeingChildren(env, enums, root);
      AgreeingIsComplete(env, enums, root, c, d);
    }
  }

  lemma {:induction false} CompleteIsMet(
    env: Env, enums: Enums, root: TypeId, c: Choice, d: map<string, Definition>)
    requires root in env && WellChosen(env, enums, root, c, d) && Complete(env, enums, root, d)
    ensures AllMet(env, root, c)
  {
    hide DefinitionOf, TypeName, Reachable, Child;
    forall id | id in env && Reachable(env, root, id) ensures TypeName(id) in c { assert TypeName(id) in d; }
  }

  lemma {:induction false} MetIsComplete(
    env: Env, enums: Enums, root: TypeId, c: Choice, d: map<string, Definition>)
    requires root in env && WellChosen(env, enums, root, c, d)
    requires SameDefinitions(env, enums, root) && AllMet(env, root, c)
    ensures Complete(env, enums, root, d)
  {
    hide TypeName, Child, DefinitionOf, Reachable, ChildrenVisited;
    forall id | id in env && Reachable(env, root, id)
      ensures TypeName(id) in d && d[TypeName(id)] == DefinitionOf(enums, id, env[id])
    {
      assert Namesakes(env, root, c[TypeName(id)], id);
    }
    forall n | n in d ensures exists id :: id in env && Reachable(env, root, id) && TypeName(id) == n {
      assert c[n] in env && TypeName(c[n]) == n;
    }
  }

  lemma {:induction false} AgreeingChildren(env: Env, enums: Enums, root: TypeId)
    requires root in env && AllFieldsDiffer(env, root) && SameDefinitions(env, enums, root)
    ensures SameChildren(env, root)
  {
    hide DefinitionOf, TypeName, Reachable, Child, FieldsDiffer, SameDefinitions, AllFieldsDiffer;
    forall a, b, x | Namesakes(env, root, a, b) && Child(env[a], x)
      ensures exists y :: Child(env[b], y) && TypeName(y) == TypeName(x)
    {
      ChildOfNamesake(env, enums, root, a, b, x);
    }
  }

  lemma {:induction false} ChildOfNamesake(env: Env, enums: Enums, root: TypeId, a: TypeId, b: TypeId, x: TypeId)
    requires root in env && AllFieldsDiffer(env, root) && SameDefinitions(env, enums, root)
    requires Namesakes(env, root, a, b) && Child(env[a], x)
    ensures exists y :: Child(env[b], y) && TypeName(y) == TypeName(x)
  {
    hide DefinitionOf, TypeName, Reachable, Child, FieldsDiffer;
    SameDefinitionSameChildren(enums, a, env[a], b, env[b]);
  }

  // Types that differ in name are always told apart, whatever their fields.
  lemma {:induction false} DistinctIsComplete(
    env: Env, enums: Enums, root: TypeId, c: Choice, d: map<string, Definition>)
    requires root in env && WellChosen(env, enums, root, c, d) && NamesDiffer(env, root)
    ensures Complete(env, enums, root, d)
  {
    hide DefinitionOf, TypeName, Reachable, Child;
    AgreeingIsComplete(env, enums, root, c, d);
  }

  // Two fields of the root whose types share a name but not a definition have one and
  // the same $ref, and it leads to the wrong definition for one of them.
  lemma {:induction false} WrongRef(
    env: Env, enums: Enums, root: TypeId, c: Choice, d: map<string, Definition>, a: TypeId, b: TypeId)
    requires root in env && WellChosen(env, enums, root, c, d)
    requires a in env && b in env && Child(env[root], a) && Child(env[root], b) && TypeName(a) == TypeName(b)
    requires DefinitionOf(enums, a, env[a]) != DefinitionOf(enums, b, env[b])
    ensures Refs(SchemaOf(enums, Struct(a))) == Refs(SchemaOf(enums, Struct(b))) == {TypeName(a)}
    ensures TypeName(a) in d && !Complete(env, enums, root, d)
    ensures d[TypeName(a)] != DefinitionOf(enums, a, env[a]) || d[TypeName(a)] != DefinitionOf(enums, b, env[b])
  {
    hide DefinitionOf, TypeName, Child, SchemaOf, Refs, Reachable, Closed;
    RefToChild(enums, env[root], a);
    RefToChild(enums, env[root], b);
    ChildReachable(env, root, a);
    ChildReachable(env, root, b);
    Visited(env[root], c, a);
  }

  // A root with two fields whose struct types have no name, and one field each.
  const ROOT := TypeId(MODEL, "NEIR", 0)
  const LEFT := TypeId("", "", 0)
  const RIGHT := TypeId("", "", 1)
  const TEXT := Prim(StringKind, TypeId("", "string", 0))

  function AnonymousEnv(): (env: Env)
    ensures env.Keys == {ROOT, LEFT, RIGHT}
    ensures env[ROOT] == [Field(true, "p", Struct(LEFT)), Field(true, "q", Struct(RIGHT))]
    ensures env[LEFT] == [Field(true, "x", TEXT)] && env[RIGHT] == [Field(true, "y", TEXT)]
  {
    map[
      ROOT := [Field(true, "p", Struct(LEFT)), Field(true, "q", Struct(RIGHT))],
      LEFT := [Field(true, "x", TEXT)],
      RIGHT := [Field(true, "y", TEXT)]]
  }

  lemma {:induction false} OneLetter(typ: GoType, ch: char)
    requires ch != ',' && ch != '-'
    ensures JsonName([ch]) == [ch] && !OmitEmpty([ch])
    ensures Listed(Field(true, [ch], typ)) && RequiredOf([Field(true, [ch], typ)]) == [[ch]]
  {
    assert [ch][1..] == "" && Parts("") == [""];
    assert [ch] + "" == [ch] && Parts([ch]) == [[ch]];
    assert [Field(true, [ch], typ)][..0] == [];
  }

  lemma {:induction false} AnonymousChildren()
    ensures Child(AnonymousEnv()[ROOT], LEFT) && Child(AnonymousEnv()[ROOT], RIGHT)
  {
    var fs := AnonymousEnv()[ROOT];
    hide AnonymousEnv, Listed;
    OneLetter(Struct(LEFT), 'p');
    OneLetter(Struct(RIGHT), 'q');
    assert Listed(fs[0]) && Mentions(fs[0].typ) == Some(LEFT);
    assert Listed(fs[1]) && Mentions(fs[1].typ) == Some(RIGHT);
  }

  lemma {:induction false} AnonymousDefinitions(enums: Enums)
    ensures TypeName(LEFT) == TypeName(RIGHT) == "."
    ensures DefinitionOf(enums, LEFT, AnonymousEnv()[LEFT]) != DefinitionOf(enums, RIGHT, AnonymousEnv()[RIGHT])
  {
    hide AnonymousEnv, Listed, RequiredOf, PropertiesOf;
    OneLetter(TEXT, 'x');
    OneLetter(TEXT, 'y');
    assert Short("") == "";
  }

  // The generator calls both of them "." and cannot define both.
  lemma {:induction false} AnonymousClash(enums: Enums, c: Choice, d: map<string, Definition>)
    requires WellChosen(AnonymousEnv(), enums, ROOT, c, d)
    ensures "." in d && !Complete(AnonymousEnv(), enums, ROOT, d)
  {
    hide WellChosen, Complete, DefinitionOf, Child, TypeName, SchemaOf, Refs;
    AnonymousChildren();
    AnonymousDefinitions(enums);
    WrongRef(AnonymousEnv(), enums, ROOT, c, d, LEFT, RIGHT);
  }

  lemma {:induction false} RefToChild(enums: Enums, fs: seq<Field>, x: TypeId)
    requires Child(fs, x)
    ensures Refs(SchemaOf(enums, Struct(x))) == {TypeName(x)}
  {
    var i :| 0 <= i < |fs| && Listed(fs[i]) && Mentions(fs[i].typ) == Some(x);
    MentionIsNotTime(fs[i].typ);
  }

  lemma {:induction false} MentionIsNotTime(t: GoType)
    ensures Mentions(t) != Some(TIME)
  {
    match t
    case Prim(_, _) =>
    case Struct(_) =>
    case Ptr(_, elem) => MentionIsNotTime(elem);
    case Slice(elem) => MentionIsNotTime(elem);
    case Map(_, elem) => MentionIsNotTime(elem);
  }

  // Every $ref in the properties of the root object resolves.
  lemma {:induction false} RootRefsResolve(
    env: Env, enums: Enums, root: TypeId, c: Choice, d: map<string, Definition>, k: string, target: string)
    requires root in env && WellChosen(env, enums, root, c, d)
    requires k in RootProperties(enums, env[root]) && target in Refs(RootProperties(enums, env[root])[k])
    ensures target in d
  {
    hide RootProperties, Refs, TypeName, Child, Reachable;
    RootRefs(enums, env[root], k, target);
  }

  // Every $ref inside a definition resolves, and the definition is titled by its key.
  lemma {:induction false} DefinitionRefsResolve(
    env: Env, enums: Enums, root: TypeId, c: Choice, d: map<string, Definition>, n: string, k: string, target: string)
    requires root in env && WellChosen(env, enums, root, c, d)
    requires n in d && k in d[n].properties && target in Refs(d[n].properties[k])
    ensures target in d && d[n].title == n
  {
    hide PropertiesOf, RequiredOf, Refs, TypeName, Child, Reachable;
    PropertyRefs(enums, env[c[n]], k, target);
  }
}
