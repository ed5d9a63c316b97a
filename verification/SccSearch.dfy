/**
  Tarjan's search on values: what the call for one node finds, keeps and promises. The
  nodes whose calls have not returned are the `grays`; they are on the stack.
 */
module SccSearch {
  import opened SccSpec

  datatype State = State(indices: map<string, nat>, counter: nat, stack: seq<string>, cs: Components)

  const EMPTY := State(map[], 0, [], [])

  // -------------------------------------------------------- the invariant

  // Indices grow along the stack.
  ghost predicate Indexed(s: State) {
    && (forall v :: v in s.indices ==> s.indices[v] < s.counter)
    && (forall i :: 0 <= i < |s.stack| ==> s.stack[i] in s.indices)
    && (forall i, j :: 0 <= i < j < |s.stack| ==> s.indices[s.stack[i]] < s.indices[s.stack[j]])
  }

  // What has been visited is on the stack or in a component.
  ghost predicate Parted(g: Graph, s: State) {
    && s.indices.Keys <= g.nodes.Keys
    && (forall v :: v in s.indices <==> v in s.stack || v in Done(s.cs))
    && (forall i :: 0 <= i < |s.stack| ==> s.stack[i] !in Done(s.cs))
  }

  // A node whose call has returned leads to visited nodes only.
  ghost predicate BlacksDone(g: Graph, s: State, grays: set<string>) {
    forall a, b :: a in s.indices && a !in grays && HasEdge(g, a, b) ==> b in s.indices
  }

  // A node on the stack leads to all above it.
  ghost predicate Chained(g: Graph, stack: seq<string>) {
    forall i, j :: 0 <= i <= j < |stack| ==> Reach(g, stack[i], stack[j])
  }

  ghost predicate Home(g: Graph, stack: seq<string>, grays: set<string>, j: int)
    requires 0 <= j < |stack|
  {
    exists i :: 0 <= i <= j && stack[i] in grays && Reach(g, stack[j], stack[i])
  }

  // And it leads to a gray one at or below it.
  ghost predicate Homes(g: Graph, stack: seq<string>, grays: set<string>) {
    forall j :: 0 <= j < |stack| ==> Home(g, stack, grays, j)
  }

  ghost predicate OnStack(stack: seq<string>, grays: set<string>) { forall v :: v in grays ==> v in stack }

  ghost predicate Sound(g: Graph, s: State, grays: set<string>) {
    && Indexed(s) && Parted(g, s) && BlacksDone(g, s, grays) && Chained(g, s.stack)
    && Homes(g, s.stack, grays) && OnStack(s.stack, grays) && Listed(g, s.cs)
  }

  ghost predicate Kept(s: State, t: State) {
    s.counter <= t.counter && forall v :: v in s.indices ==> v in t.indices && t.indices[v] == s.indices[v]
  }

  // ------------------------------------------------------- entering a node

  function Push(s: State, id: string): State {
    State(s.indices[id := s.counter], s.counter + 1, s.stack + [id], s.cs)
  }

  // A node may be entered when all grays lead to it.
  ghost predicate Enterable(g: Graph, s: State, grays: set<string>, id: string) {
    id in g.nodes && id !in s.indices && forall v :: v in grays ==> Reach(g, v, id)
  }

  lemma {:induction false} PushChained(g: Graph, s: State, grays: set<string>, id: string)
    requires Chained(g, s.stack) && Homes(g, s.stack, grays) && Enterable(g, s, grays, id)
    ensures Chained(g, s.stack + [id])
  {
    hide Reach;
    var t := s.stack + [id];
    forall i, j | 0 <= i <= j < |t| ensures Reach(g, t[i], t[j]) {
      if i == |s.stack| {
        ReachSelf(g, id);
      } else if j == |s.stack| {
        assert Home(g, s.stack, grays, i);
        var h :| 0 <= h <= i && s.stack[h] in grays && Reach(g, s.stack[i], s.stack[h]);
        ReachThrough(g, s.stack[i], s.stack[h], id);
      }
    }
  }

  lemma {:induction false} PushHomes(g: Graph, stack: seq<string>, grays: set<string>, id: string)
    requires Homes(g, stack, grays)
    ensures Homes(g, stack + [id], grays + {id})
  {
    hide Reach;
    var t := stack + [id];
    forall j | 0 <= j < |t| ensures Home(g, t, grays + {id}, j) {
      if j < |stack| {
        assert Home(g, stack, grays, j);
        var i :| 0 <= i <= j && stack[i] in grays && Reach(g, stack[j], stack[i]);
        assert t[i] in grays + {id} && Reach(g, t[j], t[i]);
      } else {
        ReachSelf(g, id);
        assert t[j] in grays + {id} && Reach(g, t[j], t[j]);
      }
    }
  }

  lemma {:induction false} PushSound(g: Graph, s: State, grays: set<string>, id: string)
    requires Sound(g, s, grays) && Enterable(g, s, grays, id)
    ensures Sound(g, Push(s, id), grays + {id})
  {
    hide Reach, HasEdge, Listed, Done;
    PushChained(g, s, grays, id);
    PushHomes(g, s.stack, grays, id);
    hide Chained, Homes;
    var t := Push(s, id);
    assert t.stack[|s.stack|] == id;
    assert forall v :: v in t.stack <==> v in s.stack || v == id;
  }

  // ---------------------------------------------------- the loop over edges

  // `low` is the index of a node on the stack that `id` leads to.
  ghost predicate LowReached(g: Graph, s: State, id: string, low: nat) {
    exists q :: 0 <= q < |s.stack| && s.stack[q] in s.indices && s.indices[s.stack[q]] == low &&
      Reach(g, id, s.stack[q])
  }

  // No edge from above position p goes further down than `low`.
  ghost predicate AboveLow(g: Graph, s: State, p: nat, low: nat) {
    forall i, q :: p < i < |s.stack| && 0 <= q < p && s.stack[q] in s.indices && HasEdge(g, s.stack[i], s.stack[q])
      ==> low <= s.indices[s.stack[q]]
  }

  // Nor does one of the first k edges, from the node there.
  ghost predicate OwnLow(g: Graph, s: State, p: nat, k: nat, low: nat) {
    forall j, q | 0 <= j < k <= |g.edges| && 0 <= q < p < |s.stack| && s.stack[q] in s.indices ::
      g.edges[j].from == s.stack[p] && g.edges[j].to == s.stack[q] ==> low <= s.indices[s.stack[q]]
  }

  ghost predicate OwnDone(g: Graph, s: State, id: string, k: nat) {
    forall j :: 0 <= j < k <= |g.edges| && g.edges[j].from == id ==> g.edges[j].to in s.indices
  }

  // The call for `id`, entered at `s0`, after k edges.
  ghost predicate Exploring(g: Graph, s0: State, s: State, id: string, grays: set<string>, k: nat, low: nat) {
    var p := |s0.stack|;
    && k <= |g.edges| && id !in s0.indices && s0.stack + [id] <= s.stack && Kept(Push(s0, id), s)
    && OnStack(s0.stack, grays) && Sound(g, s, grays + {id})
    && low <= s0.counter && LowReached(g, s, id, low)
    && AboveLow(g, s, p, low) && OwnLow(g, s, p, k, low) && OwnDone(g, s, id, k)
  }

  // What the call for x, entered at `s`, leaves: the stack as it was, or with nodes
  // added whose way down is known.
  ghost predicate Returned(g: Graph, s: State, t: State, x: string, grays: set<string>, low: nat) {
    && Sound(g, t, grays) && Kept(s, t) && s.stack <= t.stack
    && x in t.indices && t.indices[x] == s.counter && low <= s.counter
    && ((t.stack == s.stack && low == s.counter) || LowBelow(g, s, t, x, low))
    && AtOrAboveLow(g, t, |s.stack|, low)
  }

  ghost predicate LowBelow(g: Graph, s: State, t: State, x: string, low: nat) {
    exists q :: 0 <= q < |s.stack| && s.stack[q] in t.indices && t.indices[s.stack[q]] == low &&
      Reach(g, x, s.stack[q])
  }

  ghost predicate AtOrAboveLow(g: Graph, s: State, p: nat, low: nat) {
    forall i, q :: p <= i < |s.stack| && 0 <= q < p && s.stack[q] in s.indices && HasEdge(g, s.stack[i], s.stack[q])
      ==> low <= s.indices[s.stack[q]]
  }

  lemma {:induction false} StartExploring(g: Graph, s0: State, id: string, grays: set<string>)
    requires Sound(g, s0, grays) && Enterable(g, s0, grays, id)
    ensures Exploring(g, s0, Push(s0, id), id, grays, 0, s0.counter)
  {
    assert id !in s0.indices;
    hide Reach, HasEdge, Enterable;
    var s := Push(s0, id);
    PushSound(g, s0, grays, id);
    hide Sound;
    ReachSelf(g, id);
    assert s.stack[|s0.stack|] == id;
  }

  // An edge from elsewhere, or to a node in a component already.
  lemma {:induction false} SkipEdge(
    g: Graph, s0: State, s: State, id: string, grays: set<string>, k: nat, low: nat)
    requires Exploring(g, s0, s, id, grays, k, low) && k < |g.edges|
    requires g.edges[k].from == id ==> g.edges[k].to in s.indices && g.edges[k].to !in s.stack
    ensures Exploring(g, s0, s, id, grays, k + 1, low)
  {
    hide Reach, HasEdge, Sound, LowReached, AboveLow, Kept;
    assert s.stack[|s0.stack|] == id;
  }

  function Min(x: nat, y: nat): nat { if x < y then x else y }

  lemma {:induction false} EdgeGoes(g: Graph, k: nat)
    requires k < |g.edges|
    ensures Reach(g, g.edges[k].from, g.edges[k].to)
  {
    ReachEdge(g, g.edges[k].from, g.edges[k].to);
  }

  // An edge to a node on the stack.
  lemma {:induction false} BackEdge(
    g: Graph, s0: State, s: State, id: string, grays: set<string>, k: nat, low: nat)
    requires Exploring(g, s0, s, id, grays, k, low) && k < |g.edges|
    requires g.edges[k].from == id && g.edges[k].to in s.stack && g.edges[k].to in s.indices
    ensures Exploring(g, s0, s, id, grays, k + 1, Min(low, s.indices[g.edges[k].to]))
  {
    hide Reach, HasEdge, Sound, Kept;
    EdgeGoes(g, k);
    var q :| 0 <= q < |s.stack| && s.stack[q] == g.edges[k].to;
    assert s.stack[|s0.stack|] == id;
  }

  // An edge to a node whose call has just returned.
  lemma {:induction false} TreeEdge(
    g: Graph, s0: State, s: State, t: State, id: string, grays: set<string>, k: nat, low: nat, lowTo: nat)
    requires Exploring(g, s0, s, id, grays, k, low) && k < |g.edges|
    requires g.edges[k].from == id && g.edges[k].to !in s.indices
    requires Returned(g, s, t, g.edges[k].to, grays + {id}, lowTo)
    ensures Exploring(g, s0, t, id, grays, k + 1, Min(low, lowTo))
  {
    var p := |s0.stack|;
    PushFacts(s0, s, id);
    StackVisited(s);
    TreeLow(g, s, t, id, k, low, lowTo);
    TreeAbove(g, s, t, p, low, lowTo);
    TreeOwn(g, s, t, p, k, low, lowTo);
    hide Reach, HasEdge, LowReached, AboveLow, OwnLow, OwnDone, LowBelow, AtOrAboveLow, Sound;
    PrefixThrough(s0.stack + [id], s.stack, t.stack);
    KeptThrough(Push(s0, id), s, t);
    hide Kept;
  }

  lemma {:induction false} PushFacts(s0: State, s: State, id: string)
    requires s0.stack + [id] <= s.stack && Kept(Push(s0, id), s)
    ensures |s0.stack| < |s.stack| && s.stack[|s0.stack|] == id && id in s.indices && s0.counter < s.counter
  {
    assert s.stack[|s0.stack|] == (s0.stack + [id])[|s0.stack|];
    assert Push(s0, id).indices[id] == s0.counter;
  }

  ghost predicate Grown(s: State, t: State) {
    s.stack <= t.stack && Kept(s, t) && forall q :: 0 <= q < |s.stack| ==> s.stack[q] in s.indices
  }

  lemma {:induction false} StackVisited(s: State)
    requires Indexed(s)
    ensures forall q :: 0 <= q < |s.stack| ==> s.stack[q] in s.indices
  {
  }

  lemma {:induction false} PrefixThrough(a: seq<string>, b: seq<string>, c: seq<string>)
    requires a <= b <= c
    ensures a <= c
  {
  }

  lemma {:induction false} KeptThrough(s: State, t: State, u: State)
    requires Kept(s, t) && Kept(t, u)
    ensures Kept(s, u)
  {
  }

  lemma {:induction false} TreeLow(g: Graph, s: State, t: State, id: string, k: nat, low: nat, lowTo: nat)
    requires Grown(s, t) && k < |g.edges| && g.edges[k].from == id && low < s.counter
    requires LowReached(g, s, id, low) && (lowTo == s.counter || LowBelow(g, s, t, g.edges[k].to, lowTo))
    ensures LowReached(g, t, id, Min(low, lowTo))
  {
    hide Reach, HasEdge;
    if low <= lowTo {
      var q :| 0 <= q < |s.stack| && s.stack[q] in s.indices && s.indices[s.stack[q]] == low &&
        Reach(g, id, s.stack[q]);
      assert t.stack[q] == s.stack[q];
    } else {
      var q :| 0 <= q < |s.stack| && s.stack[q] in t.indices && t.indices[s.stack[q]] == lowTo &&
        Reach(g, g.edges[k].to, s.stack[q]);
      EdgeGoes(g, k);
      ReachThrough(g, id, g.edges[k].to, s.stack[q]);
      assert t.stack[q] == s.stack[q];
    }
  }

  lemma {:induction false} TreeAbove(g: Graph, s: State, t: State, p: nat, low: nat, lowTo: nat)
    requires Grown(s, t) && p < |s.stack| && AboveLow(g, s, p, low) && AtOrAboveLow(g, t, |s.stack|, lowTo)
    ensures AboveLow(g, t, p, Min(low, lowTo))
  {
    hide HasEdge;
    forall i, q | p < i < |t.stack| && 0 <= q < p && t.stack[q] in t.indices && HasEdge(g, t.stack[i], t.stack[q])
      ensures Min(low, lowTo) <= t.indices[t.stack[q]]
    {
      assert t.stack[q] == s.stack[q];
      if i < |s.stack| { assert t.stack[i] == s.stack[i]; }
    }
  }

  lemma {:induction false} TreeOwn(g: Graph, s: State, t: State, p: nat, k: nat, low: nat, lowTo: nat)
    requires Grown(s, t) && p < |s.stack| && k < |g.edges| && g.edges[k].from == s.stack[p]
    requires g.edges[k].to !in s.indices && g.edges[k].to in t.indices
    requires OwnLow(g, s, p, k, low) && OwnDone(g, s, s.stack[p], k)
    ensures OwnLow(g, t, p, k + 1, Min(low, lowTo)) && OwnDone(g, t, s.stack[p], k + 1)
  {
    forall j, q | 0 <= j < k + 1 && 0 <= q < p && t.stack[q] in t.indices &&
      g.edges[j].from == t.stack[p] && g.edges[j].to == t.stack[q]
      ensures Min(low, lowTo) <= t.indices[t.stack[q]]
    {
      assert t.stack[q] == s.stack[q] && t.stack[p] == s.stack[p];
    }
  }

  // ----------------------------------------------------- leaving a node

  lemma {:induction false} Apart(s: State, i: nat, j: nat)
    requires Indexed(s) && i < |s.stack| && j < |s.stack| && i != j
    ensures s.stack[i] != s.stack[j]
  {
    if i < j {
      assert s.indices[s.stack[i]] < s.indices[s.stack[j]];
    } else {
      assert s.indices[s.stack[j]] < s.indices[s.stack[i]];
    }
  }

  // An element at or above the node is the node itself if it is gray.
  lemma {:induction false} OnlyGray(s: State, p: nat, grays: set<string>, i: nat)
    requires Indexed(s) && p <= i < |s.stack| && OnStack(s.stack[..p], grays) && s.stack[i] in grays + {s.stack[p]}
    ensures i == p
  {
    if i > p { Apart(s, i, p); }
    forall q | 0 <= q < p ensures s.stack[..p][q] != s.stack[i] { Apart(s, q, i); }
    assert s.stack[i] !in s.stack[..p];
  }

  // The node can be left when all its edges have been looked at.
  lemma {:induction false} LeaveBlacks(g: Graph, s: State, id: string, grays: set<string>)
    requires BlacksDone(g, s, grays + {id}) && OwnDone(g, s, id, |g.edges|)
    ensures BlacksDone(g, s, grays)
  {
    forall a, b | a in s.indices && a !in grays && HasEdge(g, a, b) ensures b in s.indices {
      if a == id { var j :| 0 <= j < |g.edges| && g.edges[j].from == a && g.edges[j].to == b; }
    }
  }

  lemma {:induction false} LeaveAbove(g: Graph, s: State, p: nat, low: nat)
    requires p < |s.stack| && AboveLow(g, s, p, low) && OwnLow(g, s, p, |g.edges|, low)
    ensures AtOrAboveLow(g, s, p, low)
  {
    forall i, q | p <= i < |s.stack| && 0 <= q < p && s.stack[q] in s.indices && HasEdge(g, s.stack[i], s.stack[q])
      ensures low <= s.indices[s.stack[q]]
    {
      if i == p { var j :| 0 <= j < |g.edges| && g.edges[j].from == s.stack[i] && g.edges[j].to == s.stack[q]; }
    }
  }

  // Where a node on the stack leads when the one at p, which leads further down, is no
  // longer gray.
  lemma {:induction false} LeaveHome(g: Graph, s: State, p: nat, grays: set<string>, j: nat, q: nat)
    requires Indexed(s) && p < |s.stack| && j < |s.stack| && q < p && Reach(g, s.stack[p], s.stack[q])
    requires OnStack(s.stack[..p], grays)
    requires Home(g, s.stack, grays + {s.stack[p]}, j) && Home(g, s.stack, grays + {s.stack[p]}, q)
    ensures Home(g, s.stack, grays, j)
  {
    hide Reach, HasEdge;
    var i :| 0 <= i <= j && s.stack[i] in grays + {s.stack[p]} && Reach(g, s.stack[j], s.stack[i]);
    if s.stack[i] !in grays {
      var h :| 0 <= h <= q && s.stack[h] in grays + {s.stack[p]} && Reach(g, s.stack[q], s.stack[h]);
      Apart(s, h, p);
      ReachThrough(g, s.stack[p], s.stack[q], s.stack[h]);
      ReachThrough(g, s.stack[j], s.stack[p], s.stack[h]);
    }
  }

  // The node leads further down: it stays on the stack.
  lemma {:induction false} Stay(g: Graph, s0: State, s: State, id: string, grays: set<string>, low: nat)
    requires Exploring(g, s0, s, id, grays, |g.edges|, low) && low < s0.counter
    ensures Returned(g, s0, s, id, grays, low)
  {
    hide Reach, HasEdge, Listed, Parted, Chained, BlacksDone, Home, AboveLow, OwnLow, AtOrAboveLow, OwnDone;
    var p := |s0.stack|;
    assert s.stack[p] == id && s.stack[..p] == s0.stack;
    assert Push(s0, id).indices[id] == s0.counter == s.indices[id];
    LeaveBlacks(g, s, id, grays);
    LeaveAbove(g, s, p, low);
    var q :| 0 <= q < |s.stack| && s.stack[q] in s.indices && s.indices[s.stack[q]] == low && Reach(g, id, s.stack[q]);
    assert q < p && s0.stack[q] == s.stack[q];
    forall j | 0 <= j < |s.stack| ensures Home(g, s.stack, grays, j) {
      LeaveHome(g, s, p, grays, j, q);
    }
    assert OnStack(s.stack, grays) by { assert forall v :: v in s0.stack ==> v in s.stack; }
    StayKept(s0, s, id);
  }

  lemma {:induction false} StayKept(s0: State, s: State, id: string)
    requires Kept(Push(s0, id), s) && id !in s0.indices
    ensures Kept(s0, s)
  {
  }

  // The nodes from position p on, last first: the component that is popped.
  function Popped(stack: seq<string>, p: nat): seq<string>
    requires p <= |stack|
    decreases |stack|
  {
    if |stack| == p then [] else [stack[|stack| - 1]] + Popped(stack[..|stack| - 1], p)
  }

  lemma {:induction false} PoppedAre(stack: seq<string>, p: nat)
    requires p <= |stack|
    ensures |Popped(stack, p)| == |stack| - p
    ensures forall i :: 0 <= i < |stack| - p ==> Popped(stack, p)[i] == stack[|stack| - 1 - i]
    decreases |stack|
  {
    if |stack| > p { PoppedAre(stack[..|stack| - 1], p); }
  }

  lemma {:induction false} InPopped(stack: seq<string>, p: nat, v: string)
    requires p <= |stack|
    ensures v in Popped(stack, p) <==> exists i :: p <= i < |stack| && stack[i] == v
  {
    PoppedAre(stack, p);
    var c := Popped(stack, p);
    if v in c {
      var j :| 0 <= j < |c| && c[j] == v;
      assert stack[|stack| - 1 - j] == v;
    }
    if i :| p <= i < |stack| && stack[i] == v { assert c[|stack| - 1 - i] == v; }
  }

  // The node at p leads no further down: what is above it leads nowhere but there and
  // into components.
  ghost predicate Lowest(g: Graph, s: State, p: nat, grays: set<string>) {
    && p < |s.stack| && Sound(g, s, grays + {s.stack[p]}) && OnStack(s.stack[..p], grays)
    && BlacksDone(g, s, grays) && AtOrAboveLow(g, s, p, s.indices[s.stack[p]])
  }

  lemma {:induction false} PopClosed(g: Graph, s: State, p: nat, grays: set<string>)
    requires Lowest(g, s, p, grays)
    ensures ClosedSet(g, Done(s.cs) + Elements(Popped(s.stack, p)))
  {
    hide HasEdge, Reach, Done, Popped;
    ListedClosed(g, s.cs);
    hide Listed;
    var all := Done(s.cs) + Elements(Popped(s.stack, p));
    forall a, b | a in all && HasEdge(g, a, b) ensures b in all {
      if a !in Done(s.cs) { PopEdge(g, s, p, grays, a, b); }
    }
  }

  lemma {:induction false} PopEdge(g: Graph, s: State, p: nat, grays: set<string>, a: string, b: string)
    requires Lowest(g, s, p, grays) && a in Popped(s.stack, p) && HasEdge(g, a, b)
    ensures b in Done(s.cs) || b in Popped(s.stack, p)
  {
    hide HasEdge, Reach, Done, Popped, Listed, Chained, Homes;
    InPopped(s.stack, p, a);
    InPopped(s.stack, p, b);
    var i :| p <= i < |s.stack| && s.stack[i] == a;
    if b in s.stack {
      var q :| 0 <= q < |s.stack| && s.stack[q] == b;
      if q < p { assert s.indices[s.stack[q]] < s.indices[s.stack[p]]; }
    }
  }

  // The node and what is above it lead to each other.
  lemma {:induction false} PopMutual(g: Graph, s: State, p: nat, grays: set<string>, i: nat)
    requires Lowest(g, s, p, grays) && p <= i < |s.stack|
    ensures Mutual(g, s.stack[i], s.stack[p])
  {
    hide HasEdge, Reach, Done, Popped, Listed, BlacksDone, AtOrAboveLow;
    assert Home(g, s.stack, grays + {s.stack[p]}, i);
    var h :| 0 <= h <= i && s.stack[h] in grays + {s.stack[p]} && Reach(g, s.stack[i], s.stack[h]);
    PopClosed(g, s, p, grays);
    var all := Done(s.cs) + Elements(Popped(s.stack, p));
    InPopped(s.stack, p, s.stack[i]);
    ReachInside(g, all, s.stack[i], s.stack[h]);
    InPopped(s.stack, p, s.stack[h]);
    OnlyGray(s, p, grays, h);
  }

  lemma {:induction false} PopClass(g: Graph, s: State, p: nat, grays: set<string>)
    requires Lowest(g, s, p, grays)
    ensures IsClass(g, Popped(s.stack, p)) && Done(s.cs) !! Elements(Popped(s.stack, p))
  {
    hide HasEdge, Reach, Done, Popped, Listed, BlacksDone, AtOrAboveLow, Chained, Homes, Mutual, ClosedSet;
    var c := Popped(s.stack, p);
    PoppedAre(s.stack, p);
    forall i, j | 0 <= i < j < |c| ensures c[i] != c[j] { Apart(s, |s.stack| - 1 - i, |s.stack| - 1 - j); }
    forall a | a in c ensures a !in Done(s.cs) {
      InPopped(s.stack, p, a);
    }
    forall a, b | a in c ensures b in c <==> Mutual(g, a, b) { PopMember(g, s, p, grays, a, b); }
  }

  lemma {:induction false} PopMember(g: Graph, s: State, p: nat, grays: set<string>, a: string, b: string)
    requires Lowest(g, s, p, grays) && a in Popped(s.stack, p)
    ensures b in Popped(s.stack, p) <==> Mutual(g, a, b)
  {
    hide HasEdge, Reach, Done, Popped, BlacksDone, AtOrAboveLow, Chained, Homes, ClosedSet;
    InPopped(s.stack, p, a);
    InPopped(s.stack, p, b);
    var i :| p <= i < |s.stack| && s.stack[i] == a;
    if b in Popped(s.stack, p) {
      var j :| p <= j < |s.stack| && s.stack[j] == b;
      PopMutual(g, s, p, grays, i);
      PopMutual(g, s, p, grays, j);
      ReachThrough(g, a, s.stack[p], b);
      ReachThrough(g, b, s.stack[p], a);
    }
    if Mutual(g, a, b) {
      PopClosed(g, s, p, grays);
      ReachInside(g, Done(s.cs) + Elements(Popped(s.stack, p)), a, b);
      ListedClosed(g, s.cs);
      if b in Done(s.cs) { ReachInside(g, Done(s.cs), b, a); }
    }
  }

  function Pop(s: State, p: nat): State
    requires p <= |s.stack|
  {
    s.(stack := s.stack[..p], cs := s.cs + [Popped(s.stack, p)])
  }

  lemma {:induction false} PopSound(g: Graph, s: State, p: nat, grays: set<string>)
    requires Lowest(g, s, p, grays)
    ensures Sound(g, Pop(s, p), grays)
  {
    hide HasEdge, Reach, Done, Popped, AtOrAboveLow, IsClass, ClosedSet;
    var t, c := Pop(s, p), Popped(s.stack, p);
    PopClosed(g, s, p, grays);
    PopClass(g, s, p, grays);
    ListedOneMore(g, s.cs, c);
    hide Listed;
    PopParted(g, s, p, grays);
    PopHomes(g, s, p, grays);
    hide Parted, Homes;
  }

  lemma {:induction false} PopHomes(g: Graph, s: State, p: nat, grays: set<string>)
    requires p < |s.stack| && Indexed(s) && Homes(g, s.stack, grays + {s.stack[p]})
    ensures Homes(g, s.stack[..p], grays)
  {
    hide Reach;
    var t := s.stack[..p];
    forall j | 0 <= j < p ensures Home(g, t, grays, j) {
      assert Home(g, s.stack, grays + {s.stack[p]}, j);
      var i :| 0 <= i <= j && s.stack[i] in grays + {s.stack[p]} && Reach(g, s.stack[j], s.stack[i]);
      Apart(s, i, p);
      assert t[i] == s.stack[i] && t[j] == s.stack[j];
    }
  }

  lemma {:induction false} PopParted(g: Graph, s: State, p: nat, grays: set<string>)
    requires Lowest(g, s, p, grays)
    ensures Parted(g, Pop(s, p))
  {
    hide HasEdge, Reach, Done, Popped, AtOrAboveLow, Listed, Chained, Homes, BlacksDone;
    var t, c := Pop(s, p), Popped(s.stack, p);
    DoneOneMore(s.cs, c);
    forall v ensures v in t.indices <==> v in t.stack || v in Done(t.cs) {
      InPopped(s.stack, p, v);
      assert v in s.stack <==> v in t.stack || v in c;
    }
    forall i | 0 <= i < p ensures t.stack[i] !in Done(t.cs) {
      InPopped(s.stack, p, t.stack[i]);
      forall q | p <= q < |s.stack| ensures s.stack[q] != s.stack[i] { Apart(s, q, i); }
    }
  }

  // The node leads no further down: its component is complete.
  lemma {:induction false} Complete(g: Graph, s0: State, s: State, id: string, grays: set<string>)
    requires Exploring(g, s0, s, id, grays, |g.edges|, s0.counter)
    ensures Returned(g, s0, Pop(s, |s0.stack|), id, grays, s0.counter)
  {
    hide Reach, HasEdge, Listed, Chained, Homes, BlacksDone, AboveLow, OwnLow, OwnDone, Popped, Parted, LowReached;
    var p := |s0.stack|;
    assert s.stack[p] == id && s.stack[..p] == s0.stack;
    assert Push(s0, id).indices[id] == s0.counter == s.indices[id];
    LeaveBlacks(g, s, id, grays);
    LeaveAbove(g, s, p, s0.counter);
    assert Lowest(g, s, p, grays);
    PopSound(g, s, p, grays);
    StayKept(s0, s, id);
  }
}
