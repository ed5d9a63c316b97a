/**
  The artifact store of internal/artifacts on values: a manifest and three indexes,
  and what keeps them in agreement.
 */
module StoreSpec {
  type Kind = string

  datatype Artifact = Artifact(
    id: string,
    path: string,
    content: seq<int>,
    contentHash: string,
    kind: Kind,
    language: string,
    neirVersion: string,
    source: string,
    metadata: map<string, string>,
    createdAt: int,
    modifiedAt: int,
    size: int)

  datatype State = State(
    manifest: seq<Artifact>,
    byPath: map<string, Artifact>,
    byKind: map<Kind, seq<Artifact>>,
    byHash: map<string, Artifact>)

  const EMPTY := State([], map[], map[], map[])

  function OfKind(s: State, kind: Kind): seq<Artifact> {
    if kind in s.byKind then s.byKind[kind] else []
  }

  // The artifact Add has made from its arguments enters all four tables, unless one
  // with the same content is there; then that one is returned.
  function Add(s: State, a: Artifact): (State, Artifact) {
    if a.contentHash in s.byHash then (s, s.byHash[a.contentHash])
    else (State(s.manifest + [a], s.byPath[a.path := a], s.byKind[a.kind := OfKind(s, a.kind) + [a]],
                s.byHash[a.contentHash := a]), a)
  }

  // Drops the first artifact with this path.
  function DropPath(m: seq<Artifact>, path: string): seq<Artifact> {
    if m == [] then [] else if m[0].path == path then m[1..] else [m[0]] + DropPath(m[1..], path)
  }

  function Remove(s: State, path: string): (State, bool) {
    if path !in s.byPath then (s, false)
    else
      var a := s.byPath[path];
      (State(DropPath(s.manifest, path), s.byPath - {path},
             s.byKind[a.kind := DropPath(OfKind(s, a.kind), path)], s.byHash - {a.contentHash}), true)
  }

  function Restrict(m: seq<Artifact>, kind: Kind): seq<Artifact> {
    if m == [] then [] else (if m[0].kind == kind then [m[0]] else []) + Restrict(m[1..], kind)
  }

  // ------------------------------------------------------------- agreement

  ghost predicate Distinct(m: seq<Artifact>) {
    forall i, j :: 0 <= i < j < |m| ==> m[i].path != m[j].path && m[i].contentHash != m[j].contentHash
  }

  // A table keyed by path, or by content hash, is the manifest turned round.
  ghost predicate PathsAgree(m: seq<Artifact>, t: map<string, Artifact>) {
    && (forall i :: 0 <= i < |m| ==> m[i].path in t && t[m[i].path] == m[i])
    && (forall p :: p in t ==> t[p] in m && t[p].path == p)
  }

  ghost predicate HashesAgree(m: seq<Artifact>, t: map<string, Artifact>) {
    && (forall i :: 0 <= i < |m| ==> m[i].contentHash in t && t[m[i].contentHash] == m[i])
    && (forall h :: h in t ==> t[h] in m && t[h].contentHash == h)
  }

  ghost predicate KindsAgree(s: State) {
    forall kind :: OfKind(s, kind) == Restrict(s.manifest, kind)
  }

  ghost predicate Agrees(s: State) {
    Distinct(s.manifest) && PathsAgree(s.manifest, s.byPath) && HashesAgree(s.manifest, s.byHash) && KindsAgree(s)
  }

  lemma {:induction false} Cons(x: Artifact, m: seq<Artifact>, path: string, kind: Kind)
    ensures DropPath([x] + m, path) == if x.path == path then m else [x] + DropPath(m, path)
    ensures Restrict([x] + m, kind) == if x.kind == kind then [x] + Restrict(m, kind) else Restrict(m, kind)
  {
    assert ([x] + m)[1..] == m;
  }

  lemma {:induction false} RestrictAppend(m: seq<Artifact>, a: Artifact, kind: Kind)
    ensures Restrict(m + [a], kind) == Restrict(m, kind) + if a.kind == kind then [a] else []
  {
    if m == [] {
      assert m + [a] == [a] + [];
      Cons(a, [], "", kind);
    } else {
      assert m == [m[0]] + m[1..] && m + [a] == [m[0]] + (m[1..] + [a]);
      Cons(m[0], m[1..], "", kind);
      Cons(m[0], m[1..] + [a], "", kind);
      RestrictAppend(m[1..], a, kind);
    }
  }

  // Adding keeps the tables in agreement exactly when the path is new or the content
  // is not: a stored path with new content leaves the old artifact in three tables
  // under a path that now leads elsewhere.
  lemma {:induction false} AddKeepsAgreementIff(s: State, a: Artifact)
    requires Agrees(s)
    ensures Agrees(Add(s, a).0) <==> a.path !in s.byPath || a.contentHash in s.byHash
  {
    if a.contentHash !in s.byHash {
      var t := Add(s, a).0;
      if a.path in s.byPath {
        var before := s.byPath[a.path];
        var i :| 0 <= i < |s.manifest| && s.manifest[i] == before;
        assert t.manifest[i].path == t.manifest[|s.manifest|].path;
      } else {
        AddTables(s, a);
        AddKinds(s, a);
      }
    }
  }

  lemma {:induction false} AddTables(s: State, a: Artifact)
    requires Agrees(s) && a.path !in s.byPath && a.contentHash !in s.byHash
    ensures var t := Add(s, a).0;
      Distinct(t.manifest) && PathsAgree(t.manifest, t.byPath) && HashesAgree(t.manifest, t.byHash)
  {
    AddDistinct(s.manifest, s.byPath, s.byHash, a);
    AddPath(s.manifest, s.byPath, a);
    AddHash(s.manifest, s.byHash, a);
  }

  lemma {:induction false} AddDistinct(
    m: seq<Artifact>, paths: map<string, Artifact>, hashes: map<string, Artifact>, a: Artifact)
    requires Distinct(m) && PathsAgree(m, paths) && HashesAgree(m, hashes)
    requires a.path !in paths && a.contentHash !in hashes
    ensures Distinct(m + [a])
  {
  }

  lemma {:induction false} AddPath(m: seq<Artifact>, t: map<string, Artifact>, a: Artifact)
    requires PathsAgree(m, t) && a.path !in t
    ensures PathsAgree(m + [a], t[a.path := a])
  {
    assert (m + [a])[|m|] == a;
    forall p | p in t ensures t[p] in m + [a] { assert t[p] in m; }
  }

  lemma {:induction false} AddHash(m: seq<Artifact>, t: map<string, Artifact>, a: Artifact)
    requires HashesAgree(m, t) && a.contentHash !in t
    ensures HashesAgree(m + [a], t[a.contentHash := a])
  {
    assert (m + [a])[|m|] == a;
    forall h | h in t ensures t[h] in m + [a] { assert t[h] in m; }
  }

  lemma {:induction false} AddKinds(s: State, a: Artifact)
    requires KindsAgree(s) && a.contentHash !in s.byHash
    ensures KindsAgree(Add(s, a).0)
  {
    forall kind ensures OfKind(Add(s, a).0, kind) == Restrict(s.manifest + [a], kind) {
      RestrictAppend(s.manifest, a, kind);
      assert OfKind(s, kind) == Restrict(s.manifest, kind);
    }
  }

  // ---------------------------------------------------------------- removal

  lemma {:induction false} DropMembers(m: seq<Artifact>, path: string, b: Artifact)
    requires Distinct(m)
    ensures b in DropPath(m, path) <==> b in m && b.path != path
  {
    if m != [] {
      if m[0].path == path {
        if b in m[1..] {
          var i :| 0 <= i < |m[1..]| && m[1..][i] == b;
          assert m[i + 1] == b;
        }
      } else {
        DropMembers(m[1..], path, b);
      }
    }
  }

  lemma {:induction false} DropDistinct(m: seq<Artifact>, path: string)
    requires Distinct(m)
    ensures Distinct(DropPath(m, path))
  {
    if m != [] && m[0].path != path {
      var rest := DropPath(m[1..], path);
      DropDistinct(m[1..], path);
      forall j | 0 <= j < |rest| ensures m[0].path != rest[j].path && m[0].contentHash != rest[j].contentHash {
        DropMembers(m[1..], path, rest[j]);
        var i :| 0 <= i < |m[1..]| && m[1..][i] == rest[j];
        assert m[i + 1] == rest[j];
      }
    }
  }

  lemma {:induction false} DropNothing(m: seq<Artifact>, path: string)
    requires forall i :: 0 <= i < |m| ==> m[i].path != path
    ensures DropPath(m, path) == m
  {
    if m != [] { DropNothing(m[1..], path); }
  }

  lemma {:induction false} DropFirst(m: seq<Artifact>, i: nat, path: string)
    requires i < |m| && m[i].path == path && forall j :: 0 <= j < i ==> m[j].path != path
    ensures DropPath(m, path) == m[..i] + m[i + 1..]
  {
    if i > 0 {
      var rest := m[1..];
      DropFirst(rest, i - 1, path);
      assert m[..i] == [m[0]] + rest[..i - 1] && m[i + 1..] == rest[i..];
    }
  }

  lemma {:induction false} RestrictMembers(m: seq<Artifact>, kind: Kind, b: Artifact)
    ensures b in Restrict(m, kind) <==> b in m && b.kind == kind
  {
    if m != [] { RestrictMembers(m[1..], kind, b); }
  }

  // Dropping and restricting commute.
  lemma {:induction false} RestrictDrop(m: seq<Artifact>, path: string, kind: Kind)
    requires Distinct(m)
    ensures Restrict(DropPath(m, path), kind) == DropPath(Restrict(m, kind), path)
  {
    if m != [] {
      var x, rest := m[0], m[1..];
      assert m == [x] + rest;
      RestrictDrop(rest, path, kind);
      Cons(x, rest, path, kind);
      Cons(x, Restrict(rest, kind), path, kind);
      Cons(x, DropPath(rest, path), path, kind);
      if x.path == path && x.kind != kind { DropOther(x, rest, kind); }
    }
  }

  // What does not have the path stays, whatever its kind.
  lemma {:induction false} DropOther(x: Artifact, rest: seq<Artifact>, kind: Kind)
    requires Distinct([x] + rest)
    ensures DropPath(Restrict(rest, kind), x.path) == Restrict(rest, kind)
  {
    var r := Restrict(rest, kind);
    forall i | 0 <= i < |r| ensures r[i].path != x.path {
      RestrictMembers(rest, kind, r[i]);
      var j :| 0 <= j < |rest| && rest[j] == r[i];
      assert ([x] + rest)[0] == x && ([x] + rest)[j + 1] == r[i];
    }
    DropNothing(r, x.path);
  }

  lemma {:induction false} RemoveKinds(s: State, path: string)
    requires Agrees(s) && path in s.byPath
    ensures KindsAgree(Remove(s, path).0)
  {
    var t, a := Remove(s, path).0, s.byPath[path];
    forall kind ensures OfKind(t, kind) == Restrict(t.manifest, kind) {
      RestrictDrop(s.manifest, path, kind);
      assert OfKind(s, kind) == Restrict(s.manifest, kind);
      if kind != a.kind {
        var r := Restrict(s.manifest, kind);
        forall i | 0 <= i < |r| ensures r[i].path != path {
          RestrictMembers(s.manifest, kind, r[i]);
          var j :| 0 <= j < |s.manifest| && s.manifest[j] == r[i];
          assert s.byPath[s.manifest[j].path] == s.manifest[j];
        }
        DropNothing(r, path);
      }
    }
  }

  lemma {:induction false} RemoveTables(s: State, path: string)
    requires Agrees(s) && path in s.byPath
    ensures var t := Remove(s, path).0;
      Distinct(t.manifest) && PathsAgree(t.manifest, t.byPath) && HashesAgree(t.manifest, t.byHash)
  {
    var t, a := Remove(s, path).0, s.byPath[path];
    DropDistinct(s.manifest, path);
    forall i | 0 <= i < |t.manifest|
      ensures t.manifest[i].path in t.byPath && t.byPath[t.manifest[i].path] == t.manifest[i]
      ensures t.manifest[i].contentHash in t.byHash && t.byHash[t.manifest[i].contentHash] == t.manifest[i]
    {
      DropMembers(s.manifest, path, t.manifest[i]);
      var j :| 0 <= j < |s.manifest| && s.manifest[j] == t.manifest[i];
      assert t.manifest[i] != a;
    }
    forall p | p in t.byPath ensures t.byPath[p] in t.manifest { DropMembers(s.manifest, path, t.byPath[p]); }
    forall h | h in t.byHash ensures t.byHash[h] in t.manifest {
      var b := t.byHash[h];
      DropMembers(s.manifest, path, b);
      var j :| 0 <= j < |s.manifest| && s.manifest[j] == b;
      assert s.byPath[b.path] == b;
    }
  }

  // ------------------------------------------------------------------- runs

  datatype Op = AddOp(artifact: Artifact) | RemoveOp(path: string)

  function Step(s: State, op: Op): State {
    match op
    case AddOp(a) => Add(s, a).0
    case RemoveOp(path) => Remove(s, path).0
  }

  function Run(s: State, ops: seq<Op>): State
    decreases |ops|
  {
    if ops == [] then s else Run(Step(s, ops[0]), ops[1..])
  }

  // No Add puts new content under a path that is stored.
  ghost predicate NewPaths(s: State, ops: seq<Op>)
    decreases |ops|
  {
    ops == [] ||
    ((ops[0].AddOp? ==> ops[0].artifact.path !in s.byPath || ops[0].artifact.contentHash in s.byHash) &&
     NewPaths(Step(s, ops[0]), ops[1..]))
  }

  lemma {:induction false} StepAgrees(s: State, op: Op)
    requires Agrees(s)
    requires op.AddOp? ==> op.artifact.path !in s.byPath || op.artifact.contentHash in s.byHash
    ensures Agrees(Step(s, op))
  {
    hide Distinct, PathsAgree, HashesAgree, KindsAgree;
    match op
    case AddOp(a) => AddKeepsAgreementIff(s, a);
    case RemoveOp(path) =>
      if path in s.byPath {
        RemoveTables(s, path);
        RemoveKinds(s, path);
      }
  }

  // Looking an artifact up by path and then its hash leads back to it, and the other
  // way round: the two indexes are inverse to each other.
  lemma {:induction false} IndexesAreInverse(s: State, key: string)
    requires Agrees(s)
    ensures key in s.byPath ==>
      s.byPath[key].contentHash in s.byHash && s.byHash[s.byPath[key].contentHash] == s.byPath[key]
    ensures key in s.byHash ==> s.byHash[key].path in s.byPath && s.byPath[s.byHash[key].path] == s.byHash[key]
  {
    if key in s.byPath { assert s.byPath[key] in s.manifest; }
    if key in s.byHash { assert s.byHash[key] in s.manifest; }
  }

  // What every run keeps, stored paths given new content included: the artifact under
  // a path is the artifact under its hash.
  ghost predicate Linked(s: State) {
    forall p :: p in s.byPath ==>
      var a := s.byPath[p]; a.path == p && a.contentHash in s.byHash && s.byHash[a.contentHash] == a
  }

  lemma {:induction false} StepLinked(s: State, op: Op)
    requires Linked(s)
    ensures Linked(Step(s, op))
  {
    hide DropPath, OfKind;
    var t := Step(s, op);
    forall p | p in t.byPath
      ensures t.byPath[p].path == p && t.byPath[p].contentHash in t.byHash
      ensures t.byHash[t.byPath[p].contentHash] == t.byPath[p]
    {
      if p in s.byPath { assert s.byHash[s.byPath[p].contentHash] == s.byPath[p]; }
      if op.RemoveOp? && op.path in s.byPath { assert s.byPath[op.path].path == op.path; }
    }
  }

  ghost predicate Keyed(s: State) { forall h :: h in s.byHash ==> s.byHash[h].contentHash == h }

  lemma {:induction false} RunKeyed(s: State, ops: seq<Op>)
    requires Keyed(s)
    ensures Keyed(Run(s, ops))
    decreases |ops|
  {
    if ops != [] {
      hide DropPath, OfKind;
      RunKeyed(Step(s, ops[0]), ops[1..]);
    }
  }

  // After every run on a new store, Add returns an artifact of the content that was
  // given: the new one if there was none, and otherwise the one stored, changing nothing.
  lemma {:induction false} AddReturns(ops: seq<Op>, a: Artifact)
    ensures var s := Run(EMPTY, ops); var (t, r) := Add(s, a);
      && r.contentHash == a.contentHash && r.contentHash in t.byHash && t.byHash[r.contentHash] == r
      && (if exists h :: h in s.byHash && s.byHash[h].contentHash == a.contentHash then t == s else r == a)
  {
    hide Run;
    RunKeyed(EMPTY, ops);
  }

  // An artifact that the hash index keeps although its path has been given new content.
  ghost predicate Stale(s: State, h: string) {
    && Linked(s) && h in s.byHash && s.byHash[h].contentHash == h
    && (s.byHash[h].path in s.byPath ==> s.byPath[s.byHash[h].path].contentHash != h)
  }

  lemma {:induction false} StepStale(s: State, op: Op, h: string)
    requires Stale(s, h)
    ensures Stale(Step(s, op), h)
  {
    hide DropPath, OfKind;
    StepLinked(s, op);
    if op.RemoveOp? && op.path in s.byPath { assert s.byHash[s.byPath[op.path].contentHash] == s.byPath[op.path]; }
  }

  // It stays for good, and no table with it is in agreement.
  lemma {:induction false} RunStale(s: State, ops: seq<Op>, h: string)
    requires Stale(s, h)
    ensures !Agrees(Run(s, ops))
    decreases |ops|
  {
    if ops == [] {
      hide Linked;
      if Agrees(s) { IndexesAreInverse(s, h); }
    } else {
      hide Stale, Step, Agrees;
      StepStale(s, ops[0], h);
      RunStale(Step(s, ops[0]), ops[1..], h);
    }
  }

  lemma {:induction false} AgreesIsLinked(s: State)
    requires Agrees(s)
    ensures Linked(s)
  {
    hide Agrees;
    forall p | p in s.byPath
      ensures s.byPath[p].path == p && s.byPath[p].contentHash in s.byHash
      ensures s.byHash[s.byPath[p].contentHash] == s.byPath[p]
    {
      IndexesAreInverse(s, p);
      PathIsKey(s, p);
    }
  }

  lemma {:induction false} PathIsKey(s: State, p: string)
    requires Agrees(s) && p in s.byPath
    ensures s.byPath[p].path == p
  {
  }

  lemma {:induction false} ReplacedIsStale(s: State, a: Artifact)
    requires Agrees(s) && a.path in s.byPath && a.contentHash !in s.byHash
    ensures Stale(Add(s, a).0, s.byPath[a.path].contentHash)
  {
    hide Agrees, OfKind;
    AgreesIsLinked(s);
    StepLinked(s, AddOp(a));
    assert s.byPath[a.path].path == a.path;
  }

  // A run keeps the three indexes views of the manifest exactly when no Add in it puts
  // new content under a stored path; once one does, nothing that follows repairs them.
  lemma {:induction false} RunAgreesIff(s: State, ops: seq<Op>)
    requires Agrees(s)
    ensures Agrees(Run(s, ops)) <==> NewPaths(s, ops)
    decreases |ops|
  {
    if ops != [] {
      hide Agrees, Stale, Add;
      var op := ops[0];
      if op.AddOp? && op.artifact.path in s.byPath && op.artifact.contentHash !in s.byHash {
        ReplacedIsStale(s, op.artifact);
        RunStale(Step(s, op), ops[1..], s.byPath[op.artifact.path].contentHash);
      } else {
        StepAgrees(s, op);
        RunAgreesIff(Step(s, op), ops[1..]);
      }
    }
  }

  lemma {:induction false} NewStoreAgreesIff(ops: seq<Op>)
    ensures Agrees(Run(EMPTY, ops)) <==> NewPaths(EMPTY, ops)
  {
    RunAgreesIff(EMPTY, ops);
  }

  // No run of Add and Remove on a new store brings two stored paths to one content.
  lemma {:induction false} RunLinked(s: State, ops: seq<Op>)
    requires Linked(s)
    ensures Linked(Run(s, ops))
    decreases |ops|
  {
    if ops != [] {
      hide Linked, Step;
      StepLinked(s, ops[0]);
      RunLinked(Step(s, ops[0]), ops[1..]);
    }
  }

  lemma {:induction false} NoDuplicates(ops: seq<Op>, p: string, q: string)
    requires var t := Run(EMPTY, ops); p in t.byPath && q in t.byPath && p != q
    ensures var t := Run(EMPTY, ops); t.byPath[p].contentHash != t.byPath[q].contentHash
  {
    hide Run;
    RunLinked(EMPTY, ops);
    var t := Run(EMPTY, ops);
    if t.byPath[p].contentHash == t.byPath[q].contentHash { HashOnce(t, p, q); }
  }

  lemma {:induction false} HashOnce(s: State, p: string, q: string)
    requires Linked(s) && p in s.byPath && q in s.byPath && s.byPath[p].contentHash == s.byPath[q].contentHash
    ensures p == q
  {
    assert s.byPath[p].path == p && s.byPath[q].path == q;
  }

  // Stamping a version writes to the manifest copies only, so the indexes still agree
  // with it exactly when there was nothing to write.
  function Stamp(s: State, version: string): State {
    s.(manifest := seq(|s.manifest|, i requires 0 <= i < |s.manifest| => s.manifest[i].(neirVersion := version)))
  }

  lemma {:induction false} StampAgreesIff(s: State, version: string)
    requires Agrees(s)
    ensures Agrees(Stamp(s, version)) <==> forall i :: 0 <= i < |s.manifest| ==> s.manifest[i].neirVersion == version
  {
    var t := Stamp(s, version);
    if forall i :: 0 <= i < |s.manifest| ==> s.manifest[i].neirVersion == version {
      forall i | 0 <= i < |s.manifest| ensures t.manifest[i] == s.manifest[i] {
        assert s.manifest[i].(neirVersion := version) == s.manifest[i];
      }
      assert t.manifest == s.manifest;
      assert t == s;
    } else {
      var i :| 0 <= i < |s.manifest| && s.manifest[i].neirVersion != version;
      assert s.byPath[s.manifest[i].path] == s.manifest[i];
      assert t.manifest[i].path == s.manifest[i].path && t.manifest[i] != s.manifest[i];
    }
  }

  // ---------------------------------------------------------------- summary

  function CountOf(m: map<string, nat>, k: string): nat { if k in m then m[k] else 0 }

  // How many artifacts of each kind there are.
  function KindCounts(m: seq<Artifact>): map<string, nat> {
    if m == [] then map[]
    else
      var n := |m| - 1;
      var before := KindCounts(m[..n]);
      before[m[n].kind := CountOf(before, m[n].kind) + 1]
  }

  // The total goes under a key of its own, over a kind of that name if there is one.
  function Summary(m: seq<Artifact>): map<string, nat> { KindCounts(m)["total" := |m|] }

  lemma {:induction false} CountsAreRestrictions(m: seq<Artifact>, kind: Kind)
    ensures CountOf(KindCounts(m), kind) == |Restrict(m, kind)|
  {
    if m != [] {
      var n := |m| - 1;
      CountsAreRestrictions(m[..n], kind);
      RestrictAppend(m[..n], m[n], kind);
      assert m == m[..n] + [m[n]];
    }
  }

  ghost function Sum(m: map<string, nat>, ks: set<string>): nat
    requires ks <= m.Keys
  {
    if ks == {} then 0 else
      var k :| k in ks;
      m[k] + Sum(m, ks - {k})
  }

  lemma {:induction false} SumWithout(m: map<string, nat>, ks: set<string>, k: string)
    requires ks <= m.Keys && k in ks
    ensures Sum(m, ks) == m[k] + Sum(m, ks - {k})
    decreases ks
  {
    var x :| x in ks && Sum(m, ks) == m[x] + Sum(m, ks - {x});
    if x != k {
      SumWithout(m, ks - {x}, k);
      SumWithout(m, ks - {k}, x);
      assert ks - {x} - {k} == ks - {k} - {x};
    }
  }

  lemma {:induction false} SumElsewhere(m: map<string, nat>, m': map<string, nat>, ks: set<string>)
    requires ks <= m.Keys && ks <= m'.Keys && forall k :: k in ks ==> m[k] == m'[k]
    ensures Sum(m, ks) == Sum(m', ks)
    decreases ks
  {
    if ks != {} {
      var x :| x in ks;
      SumWithout(m, ks, x);
      SumWithout(m', ks, x);
      SumElsewhere(m, m', ks - {x});
    }
  }

  function NotCalledTotal(m: seq<Artifact>): nat {
    if m == [] then 0 else NotCalledTotal(m[..|m| - 1]) + if m[|m| - 1].kind != "total" then 1 else 0
  }

  // Counting an artifact of a kind called "total" leaves the other counts alone.
  lemma {:induction false} CountTotal(before: map<string, nat>, n: nat)
    ensures Sum(before["total" := n], before["total" := n].Keys - {"total"}) == Sum(before, before.Keys - {"total"})
  {
    var after, others := before["total" := n], before.Keys - {"total"};
    assert after.Keys - {"total"} == others;
    SumElsewhere(before, after, others);
  }

  lemma {:induction false} CountOther(before: map<string, nat>, k: string)
    requires k != "total"
    ensures var after := before[k := CountOf(before, k) + 1];
      Sum(after, after.Keys - {"total"}) == Sum(before, before.Keys - {"total"}) + 1
  {
    var after, others := before[k := CountOf(before, k) + 1], before.Keys - {"total", k};
    SumElsewhere(before, after, others);
    SumWithout(after, after.Keys - {"total"}, k);
    assert after.Keys - {"total"} - {k} == others;
    if k in before {
      SumWithout(before, before.Keys - {"total"}, k);
      assert before.Keys - {"total"} - {k} == others;
    } else {
      assert before.Keys - {"total"} == others;
    }
  }

  lemma {:induction false} CountsSum(m: seq<Artifact>)
    ensures Sum(KindCounts(m), KindCounts(m).Keys - {"total"}) == NotCalledTotal(m)
    ensures NotCalledTotal(m) <= |m|
    ensures NotCalledTotal(m) == |m| <==> forall i :: 0 <= i < |m| ==> m[i].kind != "total"
  {
    if m != [] {
      hide Sum;
      var n := |m| - 1;
      var before := KindCounts(m[..n]);
      CountsSum(m[..n]);
      if m[n].kind == "total" {
        CountTotal(before, CountOf(before, "total") + 1);
      } else {
        CountOther(before, m[n].kind);
      }
    }
  }

  // The entries of a summary other than the total add up to the total exactly when no
  // artifact is of a kind called "total".
  lemma {:induction false} SummaryAddsUpIff(m: seq<Artifact>)
    ensures var s := Summary(m);
      Sum(s, s.Keys - {"total"}) == s["total"] <==> forall i :: 0 <= i < |m| ==> m[i].kind != "total"
  {
    var s := Summary(m);
    CountsSum(m);
    assert s.Keys - {"total"} == KindCounts(m).Keys - {"total"};
    SumElsewhere(s, KindCounts(m), s.Keys - {"total"});
  }
}
