/**
  What the schema generator of cmd/neir-schema-gen should produce, without its
  traversal: the Go types it reflects over, the schema of each as a function of the
  type alone, and reachability between struct types.
 */
module SchemaSpec {
  import opened Wrappers

  // ByteKind is uint8, a number of which a slice is written as text.
  datatype Kind = StringKind | BoolKind | NumberKind | ByteKind | OtherKind

  // What reflect tells apart: types without a name, or local to different functions,
  // can share a package and a name and still differ, in their serial number here.
  datatype TypeId = TypeId(pkg: string, name: string, serial: nat)

  // Struct types are named and may refer to one another in cycles; every other type
  // is finite.
  datatype GoType =
    | Prim(kind: Kind, id: TypeId)
    | Ptr(id: TypeId, elem: GoType)
    | Slice(elem: GoType)
    | Map(id: TypeId, elem: GoType)
    | Struct(id: TypeId)

  datatype Field = Field(exported: bool, tag: string, typ: GoType)

  // The fields of every struct type.
  type Env = map<TypeId, seq<Field>>

  type Enums = map<string, seq<string>>

  datatype Schema = Schema(shape: Shape, enum: Option<seq<string>>)

  datatype Shape =
    | Basic(jsonType: string)
    | DateTime
    | Ref(target: string)
    | Array(items: Schema)
    | Dictionary(values: Schema)

  datatype Definition = Definition(title: string, properties: map<string, Schema>, required: seq<string>)

  // ----------------------------------------------------------- names, tags

  const TIME := TypeId("time", "Time", 0)
  const MODEL: string := "github.com/NAEOS-foundation/naeos/internal/neir/model"

  function TrimPrefix(s: string, prefix: string): string {
    if prefix <= s then s[|prefix|..] else s
  }

  function SlashToDot(s: string): string {
    if s == "" then "" else [if s[0] == '/' then '.' else s[0]] + SlashToDot(s[1..])
  }

  // The package path without the path of the model package.
  function Short(pkg: string): string {
    var short := TrimPrefix(pkg, MODEL + "/");
    if short == pkg then TrimPrefix(pkg, MODEL) else short
  }

  function TypeName(id: TypeId): string { SlashToDot(Short(id.pkg)) + "." + id.name }

  // What is cut off: the model's path with a slash behind it or without, and nothing else.
  lemma {:induction false} ShortMeans(pkg: string)
    ensures Short(MODEL + "/" + pkg) == pkg
    ensures pkg == "" || pkg[0] != '/' ==> Short(MODEL + pkg) == pkg
    ensures !(MODEL <= pkg) ==> Short(pkg) == pkg
  {
    var a, b := MODEL + "/" + pkg, MODEL + pkg;
    assert a[|MODEL + "/"|..] == pkg && b[|MODEL|..] == pkg;
    assert MODEL + "/" <= b ==> pkg != "" && pkg[0] == '/' by {
      if MODEL + "/" <= b { assert b[|MODEL|] == '/'; }
    }
    assert MODEL + "/" <= pkg ==> MODEL <= pkg;
  }

  // Paths that agree but for slashes in the place of dots.
  predicate SamePath(p: string, q: string) {
    |p| == |q| && forall i :: 0 <= i < |p| ==> p[i] == q[i] || (p[i] in "/." && q[i] in "/.")
  }

  lemma {:induction false} DottedAt(s: string, i: nat)
    ensures |SlashToDot(s)| == |s|
    ensures i < |s| ==> SlashToDot(s)[i] == if s[i] == '/' then '.' else s[i]
  {
    if s != "" { DottedAt(s[1..], if i > 0 then i - 1 else 0); }
  }

  lemma {:induction false} DottedSame(p: string, q: string)
    ensures SlashToDot(p) == SlashToDot(q) <==> SamePath(p, q)
  {
    DottedAt(p, 0);
    DottedAt(q, 0);
    forall i: nat | i < |p| ensures SlashToDot(p)[i] == if p[i] == '/' then '.' else p[i] { DottedAt(p, i); }
    forall i: nat | i < |q| ensures SlashToDot(q)[i] == if q[i] == '/' then '.' else q[i] { DottedAt(q, i); }
  }

  lemma {:induction false} NoLaterDot(p: string, m: string, k: nat)
    requires '.' !in m && |p| < k <= |p| + |m|
    ensures (p + "." + m)[k] != '.'
  {
    assert (p + "." + m)[k] == m[k - |p| - 1];
  }

  // What stands before the last dot, and after it, is determined by the whole.
  lemma {:induction false} LastDotSplits(p: string, m: string, q: string, n: string)
    requires '.' !in m && '.' !in n && p + "." + m == q + "." + n
    ensures p == q && m == n
  {
    var x, y := p + "." + m, q + "." + n;
    assert x[|p|] == '.' && y[|q|] == '.';
    forall k: nat | |p| < k <= |p| + |m| ensures x[k] != '.' { NoLaterDot(p, m, k); }
    forall k: nat | |q| < k <= |q| + |n| ensures y[k] != '.' { NoLaterDot(q, n, k); }
    assert |p| == |q|;
    assert x[..|p|] == p && y[..|q|] == q && x[|p| + 1..] == m && y[|q| + 1..] == n;
  }

  // What stands before the type arguments of an instantiated generic type.
  function Head(s: string): (h: string)
    ensures h <= s
  {
    if s == "" || s[0] == '[' then "" else [s[0]] + Head(s[1..])
  }

  lemma {:induction false} HeadAfter(p: string, m: string)
    requires '[' !in p
    ensures Head(p + m) == p + Head(m)
  {
    if p == "" {
      assert p + m == m;
    } else {
      assert (p + m)[1..] == p[1..] + m;
      HeadAfter(p[1..], m);
    }
  }

  // What Go grants: an import path has no bracket, and a type name no dot outside of
  // type arguments.
  predicate GoNames(id: TypeId) { '[' !in id.pkg && '.' !in Head(id.name) }

  lemma {:induction false} HeadOfName(id: TypeId)
    requires GoNames(id)
    ensures Head(TypeName(id)) == SlashToDot(Short(id.pkg)) + "." + Head(id.name)
  {
    var p := SlashToDot(Short(id.pkg));
    DottedAt(Short(id.pkg), 0);
    forall i: nat | i < |p| ensures p[i] != '[' {
      DottedAt(Short(id.pkg), i);
      assert Short(id.pkg)[i] in id.pkg;
    }
    HeadAfter(p + ".", id.name);
  }

  // Two types get one type name exactly when they have one name and their packages,
  // without the model's path, agree but for slashes in the place of dots.
  lemma {:induction false} NamesCoincideIff(a: TypeId, b: TypeId)
    requires GoNames(a) && GoNames(b)
    ensures TypeName(a) == TypeName(b) <==> a.name == b.name && SamePath(Short(a.pkg), Short(b.pkg))
  {
    DottedSame(Short(a.pkg), Short(b.pkg));
    hide Short, SamePath, Head, SlashToDot;
    if TypeName(a) == TypeName(b) {
      var p, q := SlashToDot(Short(a.pkg)), SlashToDot(Short(b.pkg));
      HeadOfName(a);
      HeadOfName(b);
      LastDotSplits(p, Head(a.name), q, Head(b.name));
      assert TypeName(a)[|p| + 1..] == a.name && TypeName(b)[|q| + 1..] == b.name;
    }
  }

  // strings.Split(s, ",")
  function Parts(s: string): (r: seq<string>)
    ensures |r| > 0
  {
    if s == "" then [""]
    else
      var rest := Parts(s[1..]);
      if s[0] == ',' then [""] + rest else [[s[0]] + rest[0]] + rest[1..]
  }

  function JsonName(tag: string): string { Parts(tag)[0] }

  predicate OmitEmpty(tag: string) { "omitempty" in Parts(tag)[1..] }

  predicate Listed(f: Field) { f.exported && JsonName(f.tag) != "" && JsonName(f.tag) != "-" }

  function JoinCommas(parts: seq<string>): string {
    if parts == [] then "" else if |parts| == 1 then parts[0] else parts[0] + "," + JoinCommas(parts[1..])
  }

  // The parts are what stands between the commas.
  lemma {:induction false} PartsMean(s: string)
    ensures JoinCommas(Parts(s)) == s && forall i :: 0 <= i < |Parts(s)| ==> ',' !in Parts(s)[i]
  {
    if s != "" {
      var rest, all := Parts(s[1..]), Parts(s);
      PartsMean(s[1..]);
      if s[0] == ',' {
        assert all[1..] == rest && "" + "," == [s[0]];
        assert forall i :: 1 <= i < |all| ==> all[i] == rest[i - 1];
      } else {
        assert all[1..] == rest[1..];
        assert forall i :: 1 <= i < |all| ==> all[i] == rest[i];
        if |rest| > 1 {
          assert ([s[0]] + rest[0]) + "," + JoinCommas(rest[1..]) == [s[0]] + (rest[0] + "," + JoinCommas(rest[1..]));
        }
      }
    }
  }

  lemma {:induction false} FirstPart(name: string, opts: string)
    requires ',' !in name
    ensures Parts(name) == [name] && Parts(name + "," + opts) == [name] + Parts(opts)
  {
    var s := name + "," + opts;
    if name == "" {
      assert s[1..] == opts;
    } else {
      assert s[0] == name[0] && name[0] in name && s[1..] == name[1..] + "," + opts;
      FirstPart(name[1..], opts);
      assert [name[0]] + name[1..] == name;
    }
  }

  // A tag is a name, with options behind a comma or without. The field is in the schema
  // if it is exported and the name is neither empty nor a dash.
  lemma {:induction false} TagMeans(name: string, opts: string, exported: bool, typ: GoType)
    requires ',' !in name
    ensures JsonName(name) == JsonName(name + "," + opts) == name
    ensures !OmitEmpty(name) && (OmitEmpty(name + "," + opts) <==> "omitempty" in Parts(opts))
    ensures Listed(Field(exported, name, typ)) <==> exported && name != "" && name != "-"
    ensures Listed(Field(exported, name + "," + opts, typ)) <==> exported && name != "" && name != "-"
  {
    FirstPart(name, opts);
  }

  // ------------------------------------------------------ schemas of types

  function JsonType(kind: Kind): string {
    match kind
    case StringKind => "string"
    case BoolKind => "boolean"
    case NumberKind => "number"
    case ByteKind => "number"
    case OtherKind => "string"
  }

  function Lookup(enums: Enums, name: string): Option<seq<string>> {
    if name in enums then Some(enums[name]) else None
  }

  function SchemaOf(enums: Enums, t: GoType): Schema {
    match t
    case Prim(kind, id) => Schema(Basic(JsonType(kind)), Lookup(enums, TypeName(id)))
    case Ptr(_, elem) => SchemaOf(enums, elem)
    case Slice(elem) => Schema(Array(SchemaOf(enums, elem)), None)
    case Map(_, elem) => Schema(Dictionary(SchemaOf(enums, elem)), None)
    case Struct(id) => Schema(if id == TIME then DateTime else Ref(TypeName(id)), None)
  }

  function EnumForField(enums: Enums, t: GoType): Option<seq<string>> {
    var ft := if t.Ptr? then t.elem else t;
    if ft.Slice? then None else Lookup(enums, TypeName(ft.id))
  }

  function PropertyOf(enums: Enums, f: Field): Schema {
    var s := SchemaOf(enums, f.typ);
    var e := EnumForField(enums, f.typ);
    if e.Some? then s.(enum := e) else s
  }

  // Of two fields with one JSON name the later one counts.
  function PropertiesOf(enums: Enums, fs: seq<Field>): map<string, Schema> {
    if fs == [] then map[]
    else
      var f, before := fs[|fs| - 1], PropertiesOf(enums, fs[..|fs| - 1]);
      if Listed(f) then before[JsonName(f.tag) := PropertyOf(enums, f)] else before
  }

  function RequiredOf(fs: seq<Field>): seq<string> {
    if fs == [] then []
    else
      var f, before := fs[|fs| - 1], RequiredOf(fs[..|fs| - 1]);
      if Listed(f) && !OmitEmpty(f.tag) then before + [JsonName(f.tag)] else before
  }

  function DefinitionOf(enums: Enums, id: TypeId, fs: seq<Field>): Definition {
    Definition(TypeName(id), PropertiesOf(enums, fs), RequiredOf(fs))
  }

  // Field by field: what the fields before list, and then what this one does.
  lemma {:induction false} ListedInOrder(enums: Enums, fs: seq<Field>, f: Field)
    ensures var k := JsonName(f.tag);
      && PropertiesOf(enums, fs + [f]) ==
           (if Listed(f) then PropertiesOf(enums, fs)[k := PropertyOf(enums, f)] else PropertiesOf(enums, fs))
      && RootProperties(enums, fs + [f]) ==
           (if Listed(f) then RootProperties(enums, fs)[k := SchemaOf(enums, f.typ)] else RootProperties(enums, fs))
      && RequiredOf(fs + [f]) == RequiredOf(fs) + (if Listed(f) && !OmitEmpty(f.tag) then [k] else [])
  {
    assert (fs + [f])[..|fs|] == fs;
  }

  // An enumeration is attached to the property of a field exactly when the type of the
  // field, or what it points to, is not a slice and has a name that is enumerated.
  lemma {:induction false} EnumAttachedIff(enums: Enums, f: Field, vals: seq<string>)
    ensures PropertyOf(enums, f).enum == Some(vals) <==>
      match f.typ
      case Slice(_) => false
      case Ptr(_, Slice(_)) => false
      case Ptr(_, elem) =>
        if TypeName(elem.id) in enums then enums[TypeName(elem.id)] == vals
        else SchemaOf(enums, elem).enum == Some(vals)
      case other => TypeName(other.id) in enums && enums[TypeName(other.id)] == vals
  {
    hide TypeName;
    match f.typ
    case Slice(elem) => assert SchemaOf(enums, f.typ).enum == None;
    case Ptr(_, elem) =>
      assert SchemaOf(enums, f.typ) == SchemaOf(enums, elem);
      if elem.Slice? { assert SchemaOf(enums, elem).enum == None; }
    case Prim(_, _) =>
    case Map(_, elem) =>
    case Struct(_) =>
  }

  // The root object attaches no enum to its own fields.
  function RootProperties(enums: Enums, fs: seq<Field>): map<string, Schema> {
    if fs == [] then map[]
    else
      var f, before := fs[|fs| - 1], RootProperties(enums, fs[..|fs| - 1]);
      if Listed(f) then before[JsonName(f.tag) := SchemaOf(enums, f.typ)] else before
  }

  // ---------------------------------------------------------- reachability

  // The struct type a type is built from, if any; time.Time is not looked into.
  function Mentions(t: GoType): Option<TypeId> {
    match t
    case Prim(_, _) => None
    case Ptr(_, elem) => Mentions(elem)
    case Slice(elem) => Mentions(elem)
    case Map(_, elem) => Mentions(elem)
    case Struct(id) => if id == TIME then None else Some(id)
  }

  ghost predicate Child(fs: seq<Field>, c: TypeId) {
    exists i :: 0 <= i < |fs| && Listed(fs[i]) && Mentions(fs[i].typ) == Some(c)
  }

  // What Go's type system gives: the fields of every mentioned struct are known.
  ghost predicate Closed(env: Env) {
    forall id, c :: id in env && Child(env[id], c) ==> c in env
  }

  ghost predicate IsPath(env: Env, p: seq<TypeId>) {
    && |p| > 0
    && (forall i :: 0 <= i < |p| ==> p[i] in env)
    && (forall i :: 0 <= i < |p| - 1 ==> Child(env[p[i]], p[i + 1]))
  }

  ghost predicate Leads(env: Env, a: TypeId, b: TypeId) {
    exists p :: IsPath(env, p) && p[0] == a && p[|p| - 1] == b
  }

  // A struct type the fields of the root lead to.
  ghost predicate Reachable(env: Env, root: TypeId, id: TypeId)
    requires root in env
  {
    exists c :: Child(env[root], c) && Leads(env, c, id)
  }

  lemma {:induction false} LeadsToSelf(env: Env, a: TypeId)
    requires a in env
    ensures Leads(env, a, a)
  {
    assert IsPath(env, [a]);
  }

  lemma {:induction false} LeadsThrough(env: Env, a: TypeId, c: TypeId, b: TypeId)
    requires a in env && Child(env[a], c) && Leads(env, c, b)
    ensures Leads(env, a, b)
  {
    var p :| IsPath(env, p) && p[0] == c && p[|p| - 1] == b;
    hide Child;
    var q := [a] + p;
    forall i | 0 <= i < |q| - 1 ensures Child(env[q[i]], q[i + 1]) {
      if i > 0 { assert q[i] == p[i - 1] && q[i + 1] == p[i]; }
    }
    assert IsPath(env, q);
  }

  lemma {:induction false} ReachableChild(env: Env, root: TypeId, id: TypeId, c: TypeId)
    requires root in env && Reachable(env, root, id) && id in env && Child(env[id], c) && c in env
    ensures Reachable(env, root, c)
  {
    hide Child;
    var s :| Child(env[root], s) && Leads(env, s, id);
    var p :| IsPath(env, p) && p[0] == s && p[|p| - 1] == id;
    var q := p + [c];
    forall i | 0 <= i < |q| - 1 ensures Child(env[q[i]], q[i + 1]) {
      if i < |p| - 1 { assert q[i] == p[i] && q[i + 1] == p[i + 1]; }
    }
    assert IsPath(env, q);
    assert Leads(env, s, c);
  }

  // Names closed under the children of reachable types contain what a path leads to.
  lemma {:induction false} ClosedUnderPaths(env: Env, root: TypeId, p: seq<TypeId>, names: set<string>)
    requires root in env && IsPath(env, p) && Reachable(env, root, p[0]) && TypeName(p[0]) in names
    requires forall id, c ::
      id in env && Reachable(env, root, id) && TypeName(id) in names && Child(env[id], c) ==> TypeName(c) in names
    ensures TypeName(p[|p| - 1]) in names
    decreases |p|
  {
    hide TypeName, Reachable;
    if |p| > 1 {
      assert Child(env[p[0]], p[1]);
      ReachableChild(env, root, p[0], p[1]);
      var q := p[1..];
      forall i | 0 <= i < |q| - 1 ensures Child(env[q[i]], q[i + 1]) {
        assert q[i] == p[i + 1] && q[i + 1] == p[i + 2];
      }
      ClosedUnderPaths(env, root, q, names);
    }
  }

  // Every $ref inside a schema.
  function Refs(s: Schema): set<string> {
    match s.shape
    case Ref(target) => {target}
    case Array(items) => Refs(items)
    case Dictionary(values) => Refs(values)
    case _ => {}
  }

  lemma {:induction false} RefsAreMentions(enums: Enums, t: GoType)
    ensures Refs(SchemaOf(enums, t)) == match Mentions(t) { case Some(id) => {TypeName(id)} case None => {} }
  {
    match t
    case Prim(_, _) =>
    case Struct(_) =>
    case Ptr(_, elem) => RefsAreMentions(enums, elem);
    case Slice(elem) => RefsAreMentions(enums, elem);
    case Map(_, elem) => RefsAreMentions(enums, elem);
  }

  // Every $ref in a definition names a child of the struct.
  lemma {:induction false} PropertyRefs(enums: Enums, fs: seq<Field>, k: string, target: string)
    requires k in PropertiesOf(enums, fs) && target in Refs(PropertiesOf(enums, fs)[k])
    ensures exists c :: Child(fs, c) && TypeName(c) == target
  {
    var n := |fs| - 1;
    var f := fs[n];
    if Listed(f) && JsonName(f.tag) == k {
      RefsAreMentions(enums, f.typ);
      assert Refs(PropertyOf(enums, f)) == Refs(SchemaOf(enums, f.typ));
      assert Child(fs, Mentions(f.typ).value);
    } else {
      PropertyRefs(enums, fs[..n], k, target);
      var c :| Child(fs[..n], c) && TypeName(c) == target;
      assert Child(fs, c);
    }
  }

  // No two fields of a struct have one JSON name.
  ghost predicate FieldsDiffer(fs: seq<Field>) {
    forall i, j :: 0 <= i < j < |fs| && Listed(fs[i]) && Listed(fs[j]) ==> JsonName(fs[i].tag) != JsonName(fs[j].tag)
  }

  // Then the definition holds a $ref to every child.
  lemma {:induction false} ChildInProperty(enums: Enums, fs: seq<Field>, i: nat, c: TypeId)
    requires FieldsDiffer(fs) && i < |fs| && Listed(fs[i]) && Mentions(fs[i].typ) == Some(c)
    ensures var k, ps := JsonName(fs[i].tag), PropertiesOf(enums, fs); k in ps && TypeName(c) in Refs(ps[k])
  {
    hide JsonName, TypeName;
    var n := |fs| - 1;
    if i == n {
      RefsAreMentions(enums, fs[n].typ);
      assert Refs(PropertyOf(enums, fs[n])) == Refs(SchemaOf(enums, fs[n].typ));
    } else {
      assert fs[..n][i] == fs[i];
      ChildInProperty(enums, fs[..n], i, c);
    }
  }

  // So structs with equal definitions have children of the same names.
  lemma {:induction false} SameDefinitionSameChildren(
    enums: Enums, a: TypeId, fs: seq<Field>, b: TypeId, gs: seq<Field>)
    requires FieldsDiffer(fs) && DefinitionOf(enums, a, fs) == DefinitionOf(enums, b, gs)
    ensures forall c :: Child(fs, c) ==> exists c' :: Child(gs, c') && TypeName(c') == TypeName(c)
  {
    hide PropertiesOf, RequiredOf, TypeName, FieldsDiffer, Refs, JsonName;
    forall c | Child(fs, c) ensures exists c' :: Child(gs, c') && TypeName(c') == TypeName(c) {
      var i: nat :| i < |fs| && Listed(fs[i]) && Mentions(fs[i].typ) == Some(c);
      ChildInProperty(enums, fs, i, c);
      PropertyRefs(enums, gs, JsonName(fs[i].tag), TypeName(c));
    }
  }

  lemma {:induction false} RootRefs(enums: Enums, fs: seq<Field>, k: string, target: string)
    requires k in RootProperties(enums, fs) && target in Refs(RootProperties(enums, fs)[k])
    ensures exists c :: Child(fs, c) && TypeName(c) == target
  {
    var n := |fs| - 1;
    var f := fs[n];
    if Listed(f) && JsonName(f.tag) == k {
      RefsAreMentions(enums, f.typ);
      assert Child(fs, Mentions(f.typ).value);
    } else {
      RootRefs(enums, fs[..n], k, target);
      var c :| Child(fs[..n], c) && TypeName(c) == target;
      assert Child(fs, c);
    }
  }
}
