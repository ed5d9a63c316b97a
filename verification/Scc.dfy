/** Strongly connected components of internal/planner/graph: Tarjan's algorithm as it runs. */
module Scc {
  import opened Sets
  import opened SccSpec
  import opened SccSearch

  // A missing key of a Go map reads as the zero value.
  function NodeOf(g: Graph, id: string): Node { if id in g.nodes then g.nodes[id] else Node("", "", "") }

  function NodesOf(g: Graph, ids: seq<string>): seq<Node> { seq(|ids|, i requires 0 <= i < |ids| => NodeOf(g, ids[i])) }

  ghost predicate Mirrors(onStack: map<string, bool>, stack: seq<string>) {
    forall v :: v in onStack && onStack[v] <==> v in stack
  }

  ghost predicate Rendered(g: Graph, components: seq<seq<Node>>, cs: Components) {
    |components| == |cs| && forall k :: 0 <= k < |cs| ==> components[k] == NodesOf(g, cs[k])
  }

  ghost predicate SameKeys(lowlinks: map<string, nat>, indices: map<string, nat>) { lowlinks.Keys == indices.Keys }

  lemma {:induction false} SameKey(lowlinks: map<string, nat>, indices: map<string, nat>, v: string, n: nat)
    requires SameKeys(lowlinks, indices)
    ensures v in lowlinks <==> v in indices
    ensures SameKeys(lowlinks[v := n], indices[v := n])
  {
  }

  // One link is lowered; that of a node visited earlier, or in a nested call, stays.
  lemma {:induction false} Lowered(
    links: map<string, nat>, lowlinks: map<string, nat>, indices: map<string, nat>, id: string, low: nat)
    requires SameKeys(lowlinks, indices) && id in lowlinks && id !in links
    requires forall v :: v in links ==> v in lowlinks && lowlinks[v] == links[v]
    ensures var after := lowlinks[id := low];
      SameKeys(after, indices) && forall v :: v in links ==> v in after && after[v] == links[v]
  {
    assert lowlinks[id := low].Keys == lowlinks.Keys;
  }

  lemma {:induction false} Mirror(onStack: map<string, bool>, stack: seq<string>, v: string)
    requires Mirrors(onStack, stack)
    ensures v in onStack && onStack[v] <==> v in stack
    ensures Mirrors(onStack[v := true], stack + [v])
  {
  }

  lemma {:induction false} RenderedMore(g: Graph, components: seq<seq<Node>>, cs: Components, c: seq<string>)
    requires Rendered(g, components, cs)
    ensures Rendered(g, components + [NodesOf(g, c)], cs + [c])
  {
  }

  lemma {:induction false} NodesOfNone(g: Graph)
    ensures NodesOf(g, []) == []
  {
  }

  lemma {:induction false} NodesMore(g: Graph, ids: seq<string>, id: string)
    ensures NodesOf(g, ids + [id]) == NodesOf(g, ids) + [NodeOf(g, id)]
  {
  }

  class Tarjan {
    const g: Graph
    var indexCounter: nat
    var stack: seq<string>
    var onStack: map<string, bool>
    var indices: map<string, nat>
    var lowlinks: map<string, nat>
    var components: seq<seq<Node>>
    // The identifiers of the components.
    ghost var cs: Components

    ghost function View(): State
      reads this
    {
      State(indices, indexCounter, stack, cs)
    }

    // The other fields say the same as the ones in the view.
    ghost predicate Agrees()
      reads this
    {
      Mirrors(onStack, stack) && SameKeys(lowlinks, indices) && Rendered(g, components, cs)
    }

    constructor (g: Graph)
      ensures this.g == g && View() == EMPTY && Agrees()
    {
      this.g := g;
      indexCounter, stack, onStack, indices, lowlinks, components, cs := 0, [], map[], map[], map[], [], [];
    }

    // The node leads to one of this index. The links of nodes visited earlier stay.
    method Lower(id: string, low: nat, ghost links: map<string, nat>)
      requires Agrees() && id in lowlinks && id !in links
      requires forall v :: v in links ==> v in lowlinks && lowlinks[v] == links[v]
      modifies this`lowlinks
      ensures Agrees() && View() == old(View()) && id in lowlinks && lowlinks[id] == Min(old(lowlinks)[id], low)
      ensures forall v :: v in links ==> v in lowlinks && lowlinks[v] == links[v]
    {
      hide Mirrors, Rendered, SameKeys;
      Lowered(links, lowlinks, indices, id, low);
      if low < lowlinks[id] { lowlinks := lowlinks[id := low]; }
    }

    // The recursive closure. The grays are the nodes whose calls it is nested in.
    method StrongConnect(id: string, ghost grays: set<string>)
      requires g.Valid() && Agrees() && Sound(g, View(), grays) && Enterable(g, View(), grays, id)
      modifies this
      ensures Agrees() && id in lowlinks && Returned(g, old(View()), View(), id, grays, lowlinks[id])
      ensures forall v :: v in old(lowlinks) ==> v in lowlinks && lowlinks[v] == old(lowlinks)[v]
      decreases |g.nodes.Keys - indices.Keys|
    {
      hide Exploring, Returned, Sound, Reach, Enterable, Mirrors, Rendered, SameKeys;
      ghost var s0, links := View(), lowlinks;
      IdIsNew(g, s0, grays, id);
      Mirror(onStack, stack, id);
      SameKey(lowlinks, indices, id, indexCounter);
      indices := indices[id := indexCounter];
      lowlinks := lowlinks[id := indexCounter];
      indexCounter := indexCounter + 1;
      stack := stack + [id];
      onStack := onStack[id := true];
      StartExploring(g, s0, id, grays);
      for k := 0 to |g.edges|
        invariant Agrees() && id in lowlinks && Exploring(g, s0, View(), id, grays, k, lowlinks[id])
        invariant forall v :: v in links ==> v in lowlinks && lowlinks[v] == links[v]
      {
        ghost var s, low := View(), lowlinks[id];
        ExploringFacts(g, s0, s, id, grays, k, low);
        Mirror(onStack, stack, g.edges[k].to);
        var e := g.edges[k];
        if e.from == id {
          if e.to !in indices {
            EnterChild(g, s0, s, id, grays, k, low);
            StrongConnect(e.to, grays + {id});
            TreeEdge(g, s0, s, View(), id, grays, k, low, lowlinks[e.to]);
            Lower(id, lowlinks[e.to], links);
          } else if e.to in onStack && onStack[e.to] {
            BackEdge(g, s0, s, id, grays, k, low);
            Lower(id, indices[e.to], links);
          } else {
            SkipEdge(g, s0, s, id, grays, k, low);
          }
        } else {
          SkipEdge(g, s0, s, id, grays, k, low);
        }
      }
      ExploringFacts(g, s0, View(), id, grays, |g.edges|, lowlinks[id]);
      if lowlinks[id] == indices[id] {
        Complete(g, s0, View(), id, grays);
        PopComponent(id, |s0.stack|);
      } else {
        Stay(g, s0, View(), id, grays, lowlinks[id]);
      }
    }

    // The loop that takes the component off the stack.
    method PopComponent(id: string, ghost p: nat)
      requires Agrees() && Indexed(View()) && p < |stack| && stack[p] == id
      modifies this
      ensures Agrees() && View() == Pop(old(View()), p) && lowlinks == old(lowlinks)
    {
      hide Indexed, Mirrors, Rendered, NodesOf, Popped;
      var component: seq<Node> := [];
      ghost var before, popped: seq<string> := View(), [];
      assert before.stack[..|stack|] == stack;
      NodesOfNone(g);
      while true
        invariant p < |stack| <= |before.stack| && stack == before.stack[..|stack|]
        invariant component == NodesOf(g, popped) && popped + Popped(stack, p) == Popped(before.stack, p)
        invariant Mirrors(onStack, stack) && View() == before.(stack := stack) && lowlinks == old(lowlinks)
        invariant components == old(components)
        decreases |stack|
      {
        var w := stack[|stack| - 1];
        TakeOff(before, |stack|, p, popped, onStack);
        NodesMore(g, popped, w);
        stack := stack[..|stack| - 1];
        onStack := onStack[w := false];
        component := component + [NodeOf(g, w)];
        popped := popped + [w];
        if w == id { break; }
      }
      LastOff(before, p, |stack|, popped);
      RenderedMore(g, components, cs, popped);
      components := components + [component];
      cs := cs + [popped];
    }
  }

  lemma {:induction false} TakeOff(s: State, m: nat, p: nat, popped: seq<string>, onStack: map<string, bool>)
    requires Indexed(s) && p < m <= |s.stack| && Mirrors(onStack, s.stack[..m])
    requires popped + Popped(s.stack[..m], p) == Popped(s.stack, p)
    ensures var rest, w := s.stack[..m - 1], s.stack[m - 1];
      && s.stack[..m][m - 1] == w && s.stack[..m][..m - 1] == rest
      && Mirrors(onStack[w := false], rest) && (popped + [w]) + Popped(rest, p) == Popped(s.stack, p)
      && (w == s.stack[p] <==> m - 1 == p)
  {
    hide Indexed;
    var all, rest, w := s.stack[..m], s.stack[..m - 1], s.stack[m - 1];
    assert all[..m - 1] == rest;
    assert all == rest + [w] by { assert s.stack[..m] == s.stack[..m - 1] + [s.stack[m - 1]]; }
    Topmost(s, m);
    assert Popped(all, p) == [w] + Popped(rest, p);
    assert (popped + [w]) + Popped(rest, p) == popped + ([w] + Popped(rest, p));
    if m - 1 > p { Apart(s, m - 1, p); }
  }

  lemma {:induction false} LastOff(s: State, p: nat, m: nat, popped: seq<string>)
    requires m == p <= |s.stack| && popped + Popped(s.stack[..m], p) == Popped(s.stack, p)
    ensures popped == Popped(s.stack, p)
  {
    assert popped + [] == popped;
  }

  lemma {:induction false} IdIsNew(g: Graph, s: State, grays: set<string>, id: string)
    requires Enterable(g, s, grays, id)
    ensures id !in s.indices && id in g.nodes
  {
  }

  // The last of the first m is not among those before it.
  lemma {:induction false} Topmost(s: State, m: nat)
    requires Indexed(s) && 0 < m <= |s.stack|
    ensures s.stack[m - 1] !in s.stack[..m - 1]
  {
    hide Indexed;
    var rest := s.stack[..m - 1];
    forall i | 0 <= i < |rest| ensures rest[i] != s.stack[m - 1] { Apart(s, i, m - 1); }
  }

  lemma {:induction false} ExploringFacts(
    g: Graph, s0: State, s: State, id: string, grays: set<string>, k: nat, low: nat)
    requires Exploring(g, s0, s, id, grays, k, low)
    ensures Indexed(s) && |s0.stack| < |s.stack| && s.stack[|s0.stack|] == id
    ensures id in s.indices && s.indices[id] == s0.counter && low <= s0.counter
    ensures forall v :: v in s.stack ==> v in s.indices
  {
    hide Reach, HasEdge, Listed, Chained, Homes, BlacksDone, AboveLow, OwnLow, OwnDone, LowReached, Parted;
    assert Push(s0, id).indices[id] == s0.counter;
  }

  lemma {:induction false} EnterChild(
    g: Graph, s0: State, s: State, id: string, grays: set<string>, k: nat, low: nat)
    requires g.Valid() && Enterable(g, s0, grays, id) && Exploring(g, s0, s, id, grays, k, low) && k < |g.edges|
    requires g.edges[k].from == id && g.edges[k].to !in s.indices
    ensures Sound(g, s, grays + {id}) && Enterable(g, s, grays + {id}, g.edges[k].to)
    ensures |g.nodes.Keys - s.indices.Keys| < |g.nodes.Keys - s0.indices.Keys|
  {
    hide Reach, HasEdge, Sound, AboveLow, OwnLow, OwnDone, LowReached;
    EdgeGoes(g, k);
    forall v | v in grays + {id} ensures Reach(g, v, g.edges[k].to) {
      if v != id { ReachThrough(g, v, id, g.edges[k].to); }
    }
    assert s0.indices.Keys + {id} <= s.indices.Keys;
    SubsetSize(g.nodes.Keys - s.indices.Keys, g.nodes.Keys - s0.indices.Keys - {id});
  }

  function IdsOf(c: seq<Node>): seq<string> { seq(|c|, i requires 0 <= i < |c| => c[i].id) }

  function AllIds(components: seq<seq<Node>>): Components {
    seq(|components|, k requires 0 <= k < |components| => IdsOf(components[k]))
  }

  lemma {:induction false} IdsBack(g: Graph, ids: seq<string>)
    requires g.Valid() && forall i :: 0 <= i < |ids| ==> ids[i] in g.nodes
    ensures IdsOf(NodesOf(g, ids)) == ids
  {
    var back := IdsOf(NodesOf(g, ids));
    forall i | 0 <= i < |ids| ensures back[i] == ids[i] { assert NodeOf(g, ids[i]).id == ids[i]; }
  }

  lemma {:induction false} AllIdsBack(g: Graph, components: seq<seq<Node>>, cs: Components)
    requires g.Valid() && Rendered(g, components, cs) && Done(cs) <= g.nodes.Keys
    ensures AllIds(components) == cs
  {
    hide NodesOf, IdsOf;
    forall k | 0 <= k < |cs| ensures IdsOf(components[k]) == cs[k] {
      forall i | 0 <= i < |cs[k]| ensures cs[k][i] in g.nodes { DoneIff(cs, cs[k][i]); }
      IdsBack(g, cs[k]);
    }
    assert forall k :: 0 <= k < |cs| ==> AllIds(components)[k] == cs[k];
  }

  // The nodes of the graph, each in one component, visited in no particular order.
  method StronglyConnectedComponents(g: Graph) returns (components: seq<seq<Node>>)
    requires g.Valid()
    ensures Listed(g, AllIds(components)) && Done(AllIds(components)) == g.nodes.Keys
    ensures forall k, i :: 0 <= k < |components| && 0 <= i < |components[k]| ==>
      components[k][i].id in g.nodes && components[k][i] == g.nodes[components[k][i].id]
  {
    hide Sound, Returned, NodesOf, Mirrors, Rendered, AllIds;
    var t := new Tarjan(g);
    EmptySound(g);
    var ids := g.nodes.Keys;
    while ids != {}
      invariant t.g == g && t.Agrees() && Sound(g, t.View(), {})
      invariant ids <= g.nodes.Keys && g.nodes.Keys - ids <= t.indices.Keys
      decreases ids
    {
      var id :| id in ids;
      ids := ids - {id};
      if id !in t.indices {
        ghost var s := t.View();
        t.StrongConnect(id, {});
        ReturnedFacts(g, s, t.View(), id, {}, t.lowlinks[id]);
      }
    }
    NothingLeft(g, t.View());
    components := t.components;
    AllIdsBack(g, components, t.cs);
    NodesAreTheGraphs(g, components, t.cs);
  }

  lemma {:induction false} NodesAreTheGraphs(g: Graph, components: seq<seq<Node>>, cs: Components)
    requires g.Valid() && Rendered(g, components, cs) && Done(cs) <= g.nodes.Keys
    ensures forall k, i :: 0 <= k < |components| && 0 <= i < |components[k]| ==>
      components[k][i].id in g.nodes && components[k][i] == g.nodes[components[k][i].id]
  {
    forall k, i | 0 <= k < |components| && 0 <= i < |components[k]|
      ensures components[k][i].id in g.nodes && components[k][i] == g.nodes[components[k][i].id]
    {
      DoneIff(cs, cs[k][i]);
    }
  }

  lemma {:induction false} EmptySound(g: Graph)
    ensures Sound(g, EMPTY, {})
  {
  }

  lemma {:induction false} ReturnedFacts(g: Graph, s: State, t: State, x: string, grays: set<string>, low: nat)
    requires Returned(g, s, t, x, grays, low)
    ensures Sound(g, t, grays) && s.indices.Keys <= t.indices.Keys && x in t.indices
  {
  }

  // Without grays the stack is empty, and everything visited is in a component.
  lemma {:induction false} NothingLeft(g: Graph, s: State)
    requires Sound(g, s, {}) && g.nodes.Keys <= s.indices.Keys
    ensures Listed(g, s.cs) && Done(s.cs) == g.nodes.Keys
  {
    hide Listed, Reach, Done;
    assert s.stack != [] ==> Home(g, s.stack, {}, 0);
  }
}
