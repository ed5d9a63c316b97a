/**
  Strongly connected components of the planner's graph: reachability, what a list of
  components must be, and what Tarjan's search keeps while it builds one.
 */
module SccSpec {
  datatype Node = Node(id: string, kind: string, name: string)

  datatype Edge = Edge(from: string, to: string, kind: string)

  datatype Graph = Graph(nodes: map<string, Node>, edges: seq<Edge>) {
    // What AddNode and AddEdge keep.
    ghost predicate Valid() {
      && (forall id :: id in nodes ==> nodes[id].id == id)
      && (forall k :: 0 <= k < |edges| ==> edges[k].from in nodes && edges[k].to in nodes)
    }
  }

  // ---------------------------------------------------------- reachability

  ghost predicate HasEdge(g: Graph, a: string, b: string) {
    exists k :: 0 <= k < |g.edges| && g.edges[k].from == a && g.edges[k].to == b
  }

  ghost predicate IsPath(g: Graph, p: seq<string>) {
    |p| > 0 && forall i :: 0 <= i < |p| - 1 ==> HasEdge(g, p[i], p[i + 1])
  }

  ghost predicate Joins(g: Graph, p: seq<string>, a: string, b: string) {
    IsPath(g, p) && p[0] == a && p[|p| - 1] == b
  }

  ghost predicate Reach(g: Graph, a: string, b: string) { exists p :: Joins(g, p, a, b) }

  ghost predicate Mutual(g: Graph, a: string, b: string) { Reach(g, a, b) && Reach(g, b, a) }

  lemma {:induction false} ReachSelf(g: Graph, a: string)
    ensures Reach(g, a, a)
  {
    assert Joins(g, [a], a, a);
  }

  lemma {:induction false} ReachEdge(g: Graph, a: string, b: string)
    requires HasEdge(g, a, b)
    ensures Reach(g, a, b)
  {
    assert Joins(g, [a, b], a, b);
  }

  lemma {:induction false} ReachThrough(g: Graph, a: string, b: string, c: string)
    requires Reach(g, a, b) && Reach(g, b, c)
    ensures Reach(g, a, c)
  {
    var p :| Joins(g, p, a, b);
    var q :| Joins(g, q, b, c);
    var r := p + q[1..];
    hide HasEdge;
    forall i | 0 <= i < |r| - 1 ensures HasEdge(g, r[i], r[i + 1]) {
      if i < |p| - 1 {
        assert r[i] == p[i] && r[i + 1] == p[i + 1];
      } else {
        var j := i - (|p| - 1);
        assert r[i] == q[j] && r[i + 1] == q[j + 1];
      }
    }
    assert Joins(g, r, a, c);
  }

  ghost predicate ClosedSet(g: Graph, s: set<string>) {
    forall a, b :: a in s && HasEdge(g, a, b) ==> b in s
  }

  // What leads out of a set closed under edges does not exist.
  lemma {:induction false} ReachInside(g: Graph, s: set<string>, a: string, b: string)
    requires ClosedSet(g, s) && a in s && Reach(g, a, b)
    ensures b in s
  {
    var p :| Joins(g, p, a, b);
    PathInside(g, s, p);
  }

  lemma {:induction false} PathInside(g: Graph, s: set<string>, p: seq<string>)
    requires ClosedSet(g, s) && IsPath(g, p) && p[0] in s
    ensures p[|p| - 1] in s
    decreases |p|
  {
    if |p| > 1 {
      hide HasEdge;
      assert HasEdge(g, p[0], p[1]);
      var q := p[1..];
      forall i | 0 <= i < |q| - 1 ensures HasEdge(g, q[i], q[i + 1]) {
        assert q[i] == p[i + 1] && q[i + 1] == p[i + 2];
      }
      PathInside(g, s, q);
    }
  }

  // ------------------------------------------------------------ components

  type Components = seq<seq<string>>

  function Elements(s: seq<string>): set<string> { set x | x in s }

  function Done(cs: Components): set<string> {
    if cs == [] then {} else Done(cs[..|cs| - 1]) + Elements(cs[|cs| - 1])
  }

  ghost predicate NoRepeats(s: seq<string>) { forall i, j :: 0 <= i < j < |s| ==> s[i] != s[j] }

  // All of one class of mutual reachability, each node once.
  ghost predicate IsClass(g: Graph, c: seq<string>) {
    && c != [] && NoRepeats(c)
    && forall a, b :: a in c ==> (b in c <==> Mutual(g, a, b))
  }

  // Classes without overlap, each before all that lead to it.
  ghost predicate Listed(g: Graph, cs: Components)
    decreases |cs|
  {
    cs == [] ||
    var before, c := cs[..|cs| - 1], cs[|cs| - 1];
    Listed(g, before) && IsClass(g, c) && Done(before) !! Elements(c) && ClosedSet(g, Done(cs))
  }

  lemma {:induction false} DoneOneMore(cs: Components, c: seq<string>)
    ensures Done(cs + [c]) == Done(cs) + Elements(c)
  {
    assert (cs + [c])[..|cs|] == cs;
  }

  lemma {:induction false} ListedOneMore(g: Graph, cs: Components, c: seq<string>)
    requires Listed(g, cs) && IsClass(g, c) && Done(cs) !! Elements(c) && ClosedSet(g, Done(cs) + Elements(c))
    ensures Listed(g, cs + [c])
  {
    hide ClosedSet, IsClass;
    assert (cs + [c])[..|cs|] == cs;
    DoneOneMore(cs, c);
  }

  lemma {:induction false} ListedClosed(g: Graph, cs: Components)
    requires Listed(g, cs)
    ensures ClosedSet(g, Done(cs))
  {
  }

  lemma {:induction false} DoneIff(cs: Components, a: string)
    ensures a in Done(cs) <==> exists k :: 0 <= k < |cs| && a in cs[k]
  {
    if cs != [] {
      var before := cs[..|cs| - 1];
      DoneIff(before, a);
      if a in Done(before) {
        var k :| 0 <= k < |before| && a in before[k];
        assert a in cs[k];
      }
      if k :| 0 <= k < |cs| && a in cs[k] {
        if k < |cs| - 1 { assert a in before[k]; }
      }
    }
  }

  // Every prefix of the list is one.
  lemma {:induction false} ListedPrefix(g: Graph, cs: Components, n: nat)
    requires Listed(g, cs) && n <= |cs|
    ensures Listed(g, cs[..n])
    decreases |cs|
  {
    if n < |cs| {
      ListedPrefix(g, cs[..|cs| - 1], n);
      assert cs[..|cs| - 1][..n] == cs[..n];
    } else {
      assert cs[..n] == cs;
    }
  }

  lemma {:induction false} ListedClass(g: Graph, cs: Components, k: nat)
    requires Listed(g, cs) && k < |cs|
    ensures IsClass(g, cs[k]) && Done(cs[..k]) !! Elements(cs[k]) && ClosedSet(g, Done(cs[..k + 1]))
  {
    ListedPrefix(g, cs, k + 1);
    assert cs[..k + 1][..k] == cs[..k];
  }

  lemma {:induction false} OnlyThere(g: Graph, cs: Components, k: nat, l: nat, b: string)
    requires Listed(g, cs) && k < |cs| && l < |cs| && b in cs[k] && b in cs[l]
    ensures k == l
  {
    hide Listed, IsClass;
    ListedClass(g, cs, k);
    ListedClass(g, cs, l);
    assert b in Elements(cs[k]) && b in Elements(cs[l]);
    if l < k { EarlierIsDone(cs, l, k, b); }
    if k < l { EarlierIsDone(cs, k, l, b); }
  }

  // What the list says: of two nodes, one component has both exactly when each leads to
  // the other, and what a node leads to is in its component or an earlier one.
  lemma {:induction false} ListedMeans(g: Graph, cs: Components, k: nat, l: nat, a: string, b: string)
    requires Listed(g, cs) && k < |cs| && l < |cs| && a in cs[k] && b in cs[l]
    ensures k == l <==> Mutual(g, a, b)
    ensures Reach(g, a, b) ==> l <= k
  {
    hide Mutual, Reach, Listed;
    ListedClass(g, cs, k);
    if b in cs[k] { OnlyThere(g, cs, k, l, b); }
    if Reach(g, a, b) {
      LeadsEarlier(g, cs, k, a, b);
      DoneIff(cs[..k + 1], b);
      var m :| 0 <= m < |cs[..k + 1]| && b in cs[..k + 1][m];
      assert cs[..k + 1][m] == cs[m];
      OnlyThere(g, cs, l, m, b);
    }
  }

  lemma {:induction false} EarlierIsDone(cs: Components, l: nat, k: nat, b: string)
    requires l < k <= |cs| && b in cs[l]
    ensures b in Done(cs[..k])
  {
    assert b in cs[..k][l];
    DoneIff(cs[..k], b);
  }

  lemma {:induction false} LeadsEarlier(g: Graph, cs: Components, k: nat, a: string, b: string)
    requires Listed(g, cs) && k < |cs| && a in cs[k] && Reach(g, a, b)
    ensures b in Done(cs[..k + 1])
  {
    hide Reach, Listed;
    ListedClass(g, cs, k);
    assert a in cs[..k + 1][k];
    DoneIff(cs[..k + 1], a);
    ReachInside(g, Done(cs[..k + 1]), a, b);
  }
}
