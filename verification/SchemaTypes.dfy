/**
  When the schema generator's recursion over element types ends. A defined pointer,
  slice or map type may contain itself; what `SchemaSpec.GoType` describes are the
  types on which the recursion ends.
 */
module SchemaTypes {
  import opened Sets
  import opened Wrappers
  import opened SchemaSpec

  datatype Ctor = Pointers | Slices | Maps

  datatype TypeExpr =
    | Basic(kind: Kind, id: TypeId)
    | StructType(id: TypeId)
    | Literal(ctor: Ctor, elem: TypeExpr)
    | Defined(id: TypeId)

  datatype Underlying = Underlying(ctor: Ctor, elem: TypeExpr)

  // The pointer, slice and map types that have a name.
  type Definitions = map<TypeId, Underlying>

  const NO_NAME := TypeId("", "", 0)

  function Build(ctor: Ctor, id: TypeId, elem: GoType): GoType {
    match ctor
    case Pointers => Ptr(id, elem)
    case Slices => Slice(elem)
    case Maps => Map(id, elem)
  }

  // The type the recursion sees, going through at most `depth` defined types.
  function Unfold(defs: Definitions, t: TypeExpr, depth: nat): Option<GoType>
    decreases depth, t
  {
    match t
    case Basic(kind, id) => Some(Prim(kind, id))
    case StructType(id) => Some(Struct(id))
    case Literal(ctor, elem) =>
      var inner := Unfold(defs, elem, depth);
      if inner.Some? then Some(Build(ctor, NO_NAME, inner.value)) else None
    case Defined(id) =>
      if depth == 0 || id !in defs then None
      else
        var inner := Unfold(defs, defs[id].elem, depth - 1);
        if inner.Some? then Some(Build(defs[id].ctor, id, inner.value)) else None
  }

  // The defined type a type expression is built from, if any.
  function Inner(t: TypeExpr): Option<TypeId> {
    match t
    case Basic(_, _) => None
    case StructType(_) => None
    case Literal(_, elem) => Inner(elem)
    case Defined(id) => Some(id)
  }

  ghost predicate Closed(defs: Definitions, t: TypeExpr) {
    && (Inner(t).Some? ==> Inner(t).value in defs)
    && forall id :: id in defs && Inner(defs[id].elem).Some? ==> Inner(defs[id].elem).value in defs
  }

  // The k-th defined type the recursion comes to.
  function Chain(defs: Definitions, t: TypeExpr, k: nat): Option<TypeId>
    decreases k
  {
    if Inner(t).None? then None
    else if k == 0 then Inner(t)
    else if Inner(t).value !in defs then None
    else Chain(defs, defs[Inner(t).value].elem, k - 1)
  }

  // The recursion comes to some defined type twice, with no struct between.
  ghost predicate Circular(defs: Definitions, t: TypeExpr) {
    exists i: nat, j: nat :: i < j && Chain(defs, t, i).Some? && Chain(defs, t, i) == Chain(defs, t, j)
  }

  ghost predicate Ends(defs: Definitions, t: TypeExpr) { exists depth: nat :: Unfold(defs, t, depth).Some? }

  lemma {:induction false} UnfoldIff(defs: Definitions, t: TypeExpr, depth: nat)
    requires Closed(defs, t)
    ensures Unfold(defs, t, depth).Some? <==> Chain(defs, t, depth).None?
    decreases depth, t
  {
    match t
    case Basic(_, _) =>
    case StructType(_) =>
    case Literal(_, elem) =>
      UnfoldIff(defs, elem, depth);
      ChainOfElement(defs, t, depth);
    case Defined(id) => if depth > 0 { UnfoldIff(defs, defs[id].elem, depth - 1); }
  }

  lemma {:induction false} ChainOfElement(defs: Definitions, t: TypeExpr, k: nat)
    requires t.Literal?
    ensures Chain(defs, t, k) == Chain(defs, t.elem, k)
  {
  }

  lemma {:induction false} ChainStep(defs: Definitions, t: TypeExpr, k: nat)
    requires Closed(defs, t)
    ensures Chain(defs, t, k).Some? ==> Chain(defs, t, k).value in defs
    ensures Chain(defs, t, k + 1) ==
      match Chain(defs, t, k) { case Some(id) => Inner(defs[id].elem) case None => None }
    decreases k
  {
    if Inner(t).Some? {
      var next := defs[Inner(t).value].elem;
      if k > 0 { ChainStep(defs, next, k - 1); } else { assert Chain(defs, next, 0) == Inner(next); }
    }
  }

  // Once a defined type comes again, the chain goes on for good.
  lemma {:induction false} CircularGoesOn(defs: Definitions, t: TypeExpr, i: nat, j: nat, k: nat)
    requires Closed(defs, t) && i < j && Chain(defs, t, i).Some? && Chain(defs, t, i) == Chain(defs, t, j)
    ensures Chain(defs, t, k).Some?
    ensures k >= i ==> Chain(defs, t, k) == Chain(defs, t, k + (j - i))
    decreases k
  {
    hide Chain;
    if k < i {
      ChainBefore(defs, t, k, i);
    } else if k > i {
      CircularGoesOn(defs, t, i, j, k - 1);
      ChainStep(defs, t, k - 1);
      ChainStep(defs, t, k - 1 + (j - i));
      if k >= j { CircularGoesOn(defs, t, i, j, k - (j - i)); } else { ChainBefore(defs, t, k, j); }
    }
  }

  lemma {:induction false} ChainBefore(defs: Definitions, t: TypeExpr, k: nat, later: nat)
    requires Closed(defs, t) && k <= later && Chain(defs, t, later).Some?
    ensures Chain(defs, t, k).Some?
    decreases later
  {
    hide Chain;
    if k < later {
      ChainStep(defs, t, later - 1);
      ChainBefore(defs, t, k, later - 1);
    }
  }

  // More elements than there are names: two of them are the same.
  lemma {:induction false} Pigeonhole(s: seq<TypeId>, names: set<TypeId>) returns (i: nat, j: nat)
    requires |s| > |names| && forall k :: 0 <= k < |s| ==> s[k] in names
    ensures i < j < |s| && s[i] == s[j]
    decreases |s|
  {
    var n := |s| - 1;
    if k: nat :| k < n && s[k] == s[n] {
      i, j := k, n;
    } else {
      forall k | 0 <= k < n ensures s[..n][k] in names - {s[n]} { assert s[k] != s[n]; }
      i, j := Pigeonhole(s[..n], names - {s[n]});
    }
  }

  // The recursion ends exactly when it does not come to a defined type again without a
  // struct between, and then it goes through no more than there are.
  lemma {:induction false} EndsIff(defs: Definitions, t: TypeExpr)
    requires Closed(defs, t)
    ensures Ends(defs, t) <==> !Circular(defs, t)
    ensures Ends(defs, t) <==> Unfold(defs, t, |defs|).Some?
  {
    hide Chain, Unfold;
    var n := |defs|;
    UnfoldIff(defs, t, n);
    if Unfold(defs, t, n).Some? {
      if Circular(defs, t) {
        var i: nat, j: nat :| i < j && Chain(defs, t, i).Some? && Chain(defs, t, i) == Chain(defs, t, j);
        CircularGoesOn(defs, t, i, j, n);
        assert false;
      }
    } else {
      var i, j := Repeated(defs, t);
      forall depth: nat ensures Unfold(defs, t, depth).None? {
        CircularGoesOn(defs, t, i, j, depth);
        UnfoldIff(defs, t, depth);
      }
    }
  }

  lemma {:induction false} Repeated(defs: Definitions, t: TypeExpr) returns (i: nat, j: nat)
    requires Closed(defs, t) && Chain(defs, t, |defs|).Some?
    ensures i < j && Chain(defs, t, i).Some? && Chain(defs, t, i) == Chain(defs, t, j)
  {
    hide Chain;
    var n := |defs|;
    forall k: nat | k <= n ensures Chain(defs, t, k).Some? && Chain(defs, t, k).value in defs.Keys {
      ChainBefore(defs, t, k, n);
      ChainStep(defs, t, k);
    }
    var s := seq(n + 1, k requires 0 <= k <= n => Chain(defs, t, k).value);
    assert |defs| == |defs.Keys|;
    i, j := Pigeonhole(s, defs.Keys);
    assert Chain(defs, t, i).value == Chain(defs, t, j).value;
  }

  // How deep it may go does not matter to what it sees, if that is deep enough.
  lemma {:induction false} DepthDoesNotMatter(defs: Definitions, t: TypeExpr, depth: nat, more: nat)
    requires Unfold(defs, t, depth).Some? && depth <= more
    ensures Unfold(defs, t, more) == Unfold(defs, t, depth)
    decreases depth, t
  {
    match t
    case Basic(_, _) =>
    case StructType(_) =>
    case Literal(_, elem) => DepthDoesNotMatter(defs, elem, depth, more);
    case Defined(id) => DepthDoesNotMatter(defs, defs[id].elem, depth - 1, more - 1);
  }
}
