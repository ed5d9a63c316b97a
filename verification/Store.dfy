/** The artifact store of internal/artifacts, without its disk. */
module Store {
  import opened Wrappers
  import opened StoreSpec

  type Hash = seq<int> -> string

  // What the With... options set while an artifact is made.
  datatype Options = Options(language: string, neirVersion: string, source: string, metadata: map<string, string>)

  class Store {
    const computeHash: Hash
    const generateID: string -> string
    var manifest: seq<Artifact>
    var byPath: map<string, Artifact>
    var byKind: map<Kind, seq<Artifact>>
    var byHash: map<string, Artifact>

    function Contents(): State
      reads this
    {
      State(manifest, byPath, byKind, byHash)
    }

    constructor (computeHash: Hash, generateID: string -> string)
      ensures Contents() == EMPTY && this.computeHash == computeHash && this.generateID == generateID
    {
      this.computeHash, this.generateID := computeHash, generateID;
      manifest, byPath, byKind, byHash := [], map[], map[], map[];
    }

    function Make(path: string, content: seq<int>, kind: Kind, opts: Options, now: int): Artifact {
      Artifact(generateID(path), path, content, computeHash(content), kind, opts.language, opts.neirVersion,
               opts.source, opts.metadata, now, now, |content|)
    }

    // `valid` is what the path check of the file system says; an invalid path is an error.
    method AddArtifact(path: string, valid: bool, content: seq<int>, kind: Kind, opts: Options, now: int)
      returns (result: Option<Artifact>)
      modifies this
      ensures !valid ==> result == None && Contents() == old(Contents())
      ensures valid ==> result.Some?
      ensures valid ==> (Contents(), result.value) == Add(old(Contents()), Make(path, content, kind, opts, now))
      ensures valid && computeHash(content) in old(byHash) ==>
        result.value == old(byHash)[computeHash(content)] && Contents() == old(Contents())
      ensures valid && computeHash(content) !in old(byHash) ==>
        var a := result.value;
        && a.id == generateID(path) && a.path == path && a.content == content && a.size == |content|
        && a.contentHash == computeHash(content) && a.kind == kind && a.createdAt == a.modifiedAt == now
        && a.language == opts.language && a.neirVersion == opts.neirVersion && a.source == opts.source
        && a.metadata == opts.metadata
        && manifest == old(manifest) + [a] && byPath == old(byPath)[path := a]
        && byHash == old(byHash)[computeHash(content) := a]
        && byKind == old(byKind)[kind := OfKind(old(Contents()), kind) + [a]]
    {
      if !valid { return None; }
      var hash := computeHash(content);
      if hash in byHash { return Some(byHash[hash]); }
      var artifact := Artifact(generateID(path), path, content, hash, kind, "", "", "", map[], now, now, |content|);
      artifact := artifact.(language := opts.language, neirVersion := opts.neirVersion, source := opts.source,
                            metadata := opts.metadata);
      byPath := byPath[path := artifact];
      byKind := byKind[kind := (if kind in byKind then byKind[kind] else []) + [artifact]];
      byHash := byHash[hash := artifact];
      manifest := manifest + [artifact];
      return Some(artifact);
    }

    method RemoveArtifact(path: string) returns (found: bool)
      modifies this
      ensures (Contents(), found) == Remove(old(Contents()), path)
    {
      if path !in byPath { return false; }
      var artifact := byPath[path];
      byPath := byPath - {path};
      byHash := byHash - {artifact.contentHash};
      // A missing list and an empty one are the same to Go.
      var kindArtifacts := if artifact.kind in byKind then byKind[artifact.kind] else [];
      var rest := WithoutFirst(kindArtifacts, path);
      byKind := byKind[artifact.kind := rest];
      manifest := WithoutFirst(manifest, path);
      return true;
    }

    // The scan-and-cut loop Remove runs over a slice.
    static method WithoutFirst(m: seq<Artifact>, path: string) returns (rest: seq<Artifact>)
      ensures rest == DropPath(m, path)
    {
      for i := 0 to |m|
        invariant forall j :: 0 <= j < i ==> m[j].path != path
      {
        if m[i].path == path {
          DropFirst(m, i, path);
          return m[..i] + m[i + 1..];
        }
      }
      DropNothing(m, path);
      return m;
    }

    method Get(path: string) returns (a: Option<Artifact>)
      ensures a == if path in byPath then Some(byPath[path]) else None
      ensures Agrees(Contents()) ==> forall x :: x in manifest && x.path == path ==> a == Some(x)
      ensures Agrees(Contents()) && a.Some? ==> a.value in manifest && a.value.path == path
    {
      a := if path in byPath then Some(byPath[path]) else None;
    }

    method GetByHash(hash: string) returns (a: Option<Artifact>)
      ensures a == if hash in byHash then Some(byHash[hash]) else None
      ensures Agrees(Contents()) ==> forall x :: x in manifest && x.contentHash == hash ==> a == Some(x)
      ensures Agrees(Contents()) && a.Some? ==> a.value in manifest && a.value.contentHash == hash
    {
      a := if hash in byHash then Some(byHash[hash]) else None;
    }

    method GetByKind(kind: Kind) returns (r: seq<Artifact>)
      ensures r == OfKind(Contents(), kind)
      ensures Agrees(Contents()) ==> r == Restrict(manifest, kind)
    {
      r := if kind in byKind then byKind[kind] else [];
    }

    // Visits byPath in no particular order. On the tables any run of Add and Remove
    // leaves (RunLinked) no two paths have one hash, so nothing is removed.
    method Deduplicate() returns (removed: nat)
      modifies this
      ensures Linked(old(Contents())) ==> removed == 0 && Contents() == old(Contents())
      ensures removed <= |old(byPath)|
    {
      var seen: set<string> := {};
      var toRemove: seq<string> := [];
      var paths := byPath.Keys;
      while paths != {}
        invariant paths <= byPath.Keys && |toRemove| + |paths| <= |byPath.Keys|
        invariant Contents() == old(Contents())
        invariant forall h :: h in seen ==> exists p :: p in byPath && p !in paths && byPath[p].contentHash == h
        invariant Linked(Contents()) ==> toRemove == []
        decreases paths
      {
        var path :| path in paths;
        var hash := byPath[path].contentHash;
        paths := paths - {path};
        ghost var s := Contents();
        forall p | Linked(s) && p in s.byPath && s.byPath[p].contentHash == hash ensures p == path {
          HashOnce(s, p, path);
        }
        if hash in seen { toRemove := toRemove + [path]; } else { seen := seen + {hash}; }
      }
      removed := 0;
      for i := 0 to |toRemove|
        invariant removed == i && (toRemove == [] ==> Contents() == old(Contents()))
      {
        var _ := RemoveArtifact(toRemove[i]);
        removed := removed + 1;
      }
    }

    method Summarize() returns (summary: map<string, nat>)
      ensures summary == Summary(manifest)
    {
      summary := map[];
      for i := 0 to |manifest|
        invariant summary == KindCounts(manifest[..i])
      {
        assert manifest[..i + 1][..i] == manifest[..i];
        var kind := manifest[i].kind;
        summary := summary[kind := (if kind in summary then summary[kind] else 0) + 1];
      }
      assert manifest[..|manifest|] == manifest;
      summary := summary["total" := |manifest|];
    }

    method SetNEIRVersion(version: string)
      modifies this`manifest
      ensures Contents() == Stamp(old(Contents()), version)
    {
      for i := 0 to |manifest|
        invariant |manifest| == |old(manifest)|
        invariant forall j :: 0 <= j < |manifest| ==>
          manifest[j] == if j < i then old(manifest)[j].(neirVersion := version) else old(manifest)[j]
      {
        manifest := manifest[i := manifest[i].(neirVersion := version)];
      }
      assert manifest == Stamp(old(Contents()), version).manifest;
    }
  }
}
