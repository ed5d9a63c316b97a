/**
  Line diffs of internal/diff: edit scripts, what applying one does, and the longest
  common subsequence that makes the generated one shortest.
 */
module DiffSpec {
  import opened Wrappers

  datatype ChangeType = Added | Removed | Modified | Unchanged

  datatype DiffLine = DiffLine(oldNum: nat, newNum: nat, typ: ChangeType, content: string)

  type Lines = seq<string>
  type Script = seq<DiffLine>

  // --------------------------------------------------- what a script means

  // The lines a script expects, and those it leaves.
  function OldSide(s: Script): Lines {
    if s == [] then []
    else (if s[0].typ.Removed? || s[0].typ.Unchanged? then [s[0].content] else []) + OldSide(s[1..])
  }

  function NewSide(s: Script): Lines {
    if s == [] then []
    else (if s[0].typ.Added? || s[0].typ.Unchanged? then [s[0].content] else []) + NewSide(s[1..])
  }

  function Count(s: Script, typ: ChangeType): nat {
    if s == [] then 0 else (if s[0].typ == typ then 1 else 0) + Count(s[1..], typ)
  }

  ghost predicate WellFormed(s: Script) { forall k :: 0 <= k < |s| ==> !s[k].typ.Modified? }

  // A line is numbered on the sides it is on, after i old and j new lines.
  predicate Numbered(s: Script, i: nat, j: nat)
    decreases |s|
  {
    s == [] ||
    match s[0].typ
    case Added => s[0].oldNum == 0 && s[0].newNum == j + 1 && Numbered(s[1..], i, j + 1)
    case Removed => s[0].oldNum == i + 1 && s[0].newNum == 0 && Numbered(s[1..], i + 1, j)
    case Unchanged => s[0].oldNum == i + 1 && s[0].newNum == j + 1 && Numbered(s[1..], i + 1, j + 1)
    case Modified => false
  }

  // Applying a script to lines: what it removes or keeps must be there.
  function Apply(s: Script, ls: Lines): Option<Lines>
    decreases |s|
  {
    if s == [] then if ls == [] then Some([]) else None
    else
      match s[0].typ
      case Added => Prepend(s[0].content, Apply(s[1..], ls))
      case Removed => if ls != [] && ls[0] == s[0].content then Apply(s[1..], ls[1..]) else None
      case Unchanged =>
        if ls != [] && ls[0] == s[0].content then Prepend(s[0].content, Apply(s[1..], ls[1..])) else None
      case Modified => None
  }

  function Prepend(line: string, rest: Option<Lines>): Option<Lines> {
    if rest.Some? then Some([line] + rest.value) else None
  }

  function Invert(s: Script): Script {
    if s == [] then []
    else
      var d := s[0];
      var typ := if d.typ.Added? then Removed else if d.typ.Removed? then Added else d.typ;
      [DiffLine(d.newNum, d.oldNum, typ, d.content)] + Invert(s[1..])
  }

  // A script applies to exactly the lines it expects.
  lemma {:induction false} ApplyIff(s: Script, ls: Lines)
    requires WellFormed(s)
    ensures Apply(s, ls) == if ls == OldSide(s) then Some(NewSide(s)) else None
    decreases |s|
  {
    if s != [] {
      var kept := s[0].typ.Removed? || s[0].typ.Unchanged?;
      if !kept {
        ApplyIff(s[1..], ls);
      } else if ls != [] && ls[0] == s[0].content {
        ApplyIff(s[1..], ls[1..]);
        assert OldSide(s) == [ls[0]] + OldSide(s[1..]) && OldSide(s)[1..] == OldSide(s[1..]);
        assert ls == OldSide(s) <==> ls[1..] == OldSide(s[1..]) by { assert ls == [ls[0]] + ls[1..]; }
        assert s[0].typ.Removed? ==> NewSide(s) == NewSide(s[1..]);
      } else {
        assert OldSide(s)[0] == s[0].content;
      }
    }
  }

  lemma {:induction false} InvertSwaps(s: Script)
    requires WellFormed(s)
    ensures WellFormed(Invert(s)) && |Invert(s)| == |s|
    ensures OldSide(Invert(s)) == NewSide(s) && NewSide(Invert(s)) == OldSide(s)
    ensures Count(Invert(s), Unchanged) == Count(s, Unchanged)
  {
    if s != [] {
      var rest := Invert(s[1..]);
      InvertSwaps(s[1..]);
      assert Invert(s)[1..] == rest;
      forall k | 0 <= k < |s| ensures !Invert(s)[k].typ.Modified? {
        if k > 0 { assert Invert(s)[k] == rest[k - 1]; }
      }
    }
  }

  lemma {:induction false} Lengths(s: Script)
    requires WellFormed(s)
    ensures |OldSide(s)| == Count(s, Removed) + Count(s, Unchanged)
    ensures |NewSide(s)| == Count(s, Added) + Count(s, Unchanged)
    ensures |s| == Count(s, Added) + Count(s, Removed) + Count(s, Unchanged)
  {
    if s != [] { Lengths(s[1..]); }
  }

  lemma {:induction false} Snoc(s: Script, d: DiffLine)
    ensures OldSide(s + [d]) == OldSide(s) + if d.typ.Removed? || d.typ.Unchanged? then [d.content] else []
    ensures NewSide(s + [d]) == NewSide(s) + if d.typ.Added? || d.typ.Unchanged? then [d.content] else []
    ensures forall typ :: Count(s + [d], typ) == Count(s, typ) + if d.typ == typ then 1 else 0
  {
    if s == [] {
      assert s + [d] == [d] && [d][1..] == [];
    } else {
      assert (s + [d])[1..] == s[1..] + [d];
      Snoc(s[1..], d);
    }
  }

  // ---------------------------------------- the longest common subsequence

  function Max(x: nat, y: nat): nat { if x >= y then x else y }

  // Of the first i lines of a and the first j of b.
  function Lcs(a: Lines, b: Lines, i: nat, j: nat): nat
    requires i <= |a| && j <= |b|
  {
    if i == 0 || j == 0 then 0
    else if a[i - 1] == b[j - 1] then Lcs(a, b, i - 1, j - 1) + 1
    else if Lcs(a, b, i - 1, j) >= Lcs(a, b, i, j - 1) then Lcs(a, b, i - 1, j)
    else Lcs(a, b, i, j - 1)
  }

  lemma {:induction false} LcsStep(a: Lines, b: Lines, i: nat, j: nat)
    requires i <= |a| && j <= |b|
    ensures i == 0 || j == 0 ==> Lcs(a, b, i, j) == 0
    ensures i > 0 && j > 0 && a[i - 1] == b[j - 1] ==> Lcs(a, b, i, j) == Lcs(a, b, i - 1, j - 1) + 1
    ensures i > 0 && j > 0 && a[i - 1] != b[j - 1] ==>
      Lcs(a, b, i, j) == Max(Lcs(a, b, i - 1, j), Lcs(a, b, i, j - 1))
  {
  }

  // One line more makes it longer by one at most.
  lemma {:induction false} LcsGrows(a: Lines, b: Lines, i: nat, j: nat)
    requires i <= |a| && j <= |b|
    ensures i > 0 ==> Lcs(a, b, i - 1, j) <= Lcs(a, b, i, j) <= Lcs(a, b, i - 1, j) + 1
    ensures j > 0 ==> Lcs(a, b, i, j - 1) <= Lcs(a, b, i, j) <= Lcs(a, b, i, j - 1) + 1
    decreases i + j
  {
    if i > 0 { LcsGrows(a, b, i - 1, j); }
    if j > 0 { LcsGrows(a, b, i, j - 1); }
  }

  // No script between the two keeps more lines.
  lemma {:induction false} KeepsAtMost(s: Script, a: Lines, b: Lines, i: nat, j: nat)
    requires WellFormed(s) && i <= |a| && j <= |b| && OldSide(s) == a[..i] && NewSide(s) == b[..j]
    ensures Count(s, Unchanged) <= Lcs(a, b, i, j)
    decreases |s|
  {
    if s != [] {
      var d, before := s[|s| - 1], s[..|s| - 1];
      assert s == before + [d];
      Snoc(before, d);
      LcsGrows(a, b, i, j);
      match d.typ
      case Added =>
        SplitLast(NewSide(before), d.content, b, j);
        KeepsAtMost(before, a, b, i, j - 1);
      case Removed =>
        SplitLast(OldSide(before), d.content, a, i);
        KeepsAtMost(before, a, b, i - 1, j);
      case Unchanged =>
        SplitLast(OldSide(before), d.content, a, i);
        SplitLast(NewSide(before), d.content, b, j);
        KeepsAtMost(before, a, b, i - 1, j - 1);
    }
  }

  lemma {:induction false} SplitLast(before: Lines, line: string, a: Lines, i: nat)
    requires i <= |a| && before + [line] == a[..i]
    ensures i > 0 && before == a[..i - 1] && line == a[i - 1]
  {
    assert |a[..i]| == |before| + 1;
    assert before == (before + [line])[..i - 1] == a[..i - 1];
    assert line == (before + [line])[i - 1];
  }

  // ------------------------------------------------------ the chosen script

  // Which line the walk back from (i, j) takes last.
  function LastLine(a: Lines, b: Lines, i: nat, j: nat): DiffLine
    requires i <= |a| && j <= |b| && (i > 0 || j > 0)
  {
    if i > 0 && j > 0 && a[i - 1] == b[j - 1] then DiffLine(i, j, Unchanged, a[i - 1])
    else if j > 0 && (i == 0 || Lcs(a, b, i, j - 1) >= Lcs(a, b, i - 1, j)) then DiffLine(0, j, Added, b[j - 1])
    else DiffLine(i, 0, Removed, a[i - 1])
  }

  function Before(d: DiffLine, i: nat, j: nat): (nat, nat) {
    match d.typ
    case Unchanged => (if i > 0 then i - 1 else 0, if j > 0 then j - 1 else 0)
    case Added => (i, if j > 0 then j - 1 else 0)
    case _ => (if i > 0 then i - 1 else 0, j)
  }

  function Shortest(a: Lines, b: Lines, i: nat, j: nat): Script
    requires i <= |a| && j <= |b|
    decreases i + j
  {
    if i == 0 && j == 0 then []
    else
      var d := LastLine(a, b, i, j);
      Shortest(a, b, Before(d, i, j).0, Before(d, i, j).1) + [d]
  }

  // The last line leads from what is before it to the whole, and is kept when that
  // makes the common subsequence longer.
  lemma {:induction false} LastLineLeads(a: Lines, b: Lines, i: nat, j: nat)
    requires i <= |a| && j <= |b| && (i > 0 || j > 0)
    ensures var d := LastLine(a, b, i, j); var (i', j') := Before(d, i, j);
      && !d.typ.Modified? && i' <= i && j' <= j && i' + j' < i + j
      && a[..i] == a[..i'] + (if d.typ.Removed? || d.typ.Unchanged? then [d.content] else [])
      && b[..j] == b[..j'] + (if d.typ.Added? || d.typ.Unchanged? then [d.content] else [])
      && Lcs(a, b, i, j) == Lcs(a, b, i', j') + if d.typ.Unchanged? then 1 else 0
  {
    var d := LastLine(a, b, i, j);
    if i > 0 { assert a[..i] == a[..i - 1] + [a[i - 1]]; }
    if j > 0 { assert b[..j] == b[..j - 1] + [b[j - 1]]; }
    assert a[..i] == a[..i] + [] && b[..j] == b[..j] + [];
  }

  lemma {:induction false} ShortestSides(a: Lines, b: Lines, i: nat, j: nat)
    requires i <= |a| && j <= |b|
    ensures var s := Shortest(a, b, i, j);
      WellFormed(s) && OldSide(s) == a[..i] && NewSide(s) == b[..j] && Count(s, Unchanged) == Lcs(a, b, i, j)
    decreases i + j
  {
    if i > 0 || j > 0 {
      hide LastLine, Lcs, Before;
      var d := LastLine(a, b, i, j);
      var (i', j') := Before(d, i, j);
      LastLineLeads(a, b, i, j);
      ShortestSides(a, b, i', j');
      Snoc(Shortest(a, b, i', j'), d);
    }
  }

  lemma {:induction false} NumberedSnoc(s: Script, d: DiffLine, i: nat, j: nat)
    requires Numbered(s, i, j) && Numbered([d], i + |OldSide(s)|, j + |NewSide(s)|)
    ensures Numbered(s + [d], i, j)
    decreases |s|
  {
    if s == [] {
      assert s + [d] == [d];
    } else {
      assert (s + [d])[1..] == s[1..] + [d];
      match s[0].typ
      case Added => NumberedSnoc(s[1..], d, i, j + 1);
      case Removed => NumberedSnoc(s[1..], d, i + 1, j);
      case Unchanged => NumberedSnoc(s[1..], d, i + 1, j + 1);
    }
  }

  lemma {:induction false} ShortestNumbered(a: Lines, b: Lines, i: nat, j: nat)
    requires i <= |a| && j <= |b|
    ensures Numbered(Shortest(a, b, i, j), 0, 0)
    decreases i + j
  {
    if i > 0 || j > 0 {
      hide Numbered;
      var d := LastLine(a, b, i, j);
      var (i', j') := Before(d, i, j);
      ShortestNumbered(a, b, i', j');
      ShortestSides(a, b, i', j');
      LastNumbered(a, b, i, j);
      NumberedSnoc(Shortest(a, b, i', j'), d, 0, 0);
    } else {
      EmptyNumbered();
    }
  }

  lemma {:induction false} EmptyNumbered()
    ensures Numbered([], 0, 0)
  {
  }

  lemma {:induction false} LastNumbered(a: Lines, b: Lines, i: nat, j: nat)
    requires i <= |a| && j <= |b| && (i > 0 || j > 0)
    ensures var d := LastLine(a, b, i, j); Numbered([d], Before(d, i, j).0, Before(d, i, j).1)
  {
    hide Lcs;
    assert [LastLine(a, b, i, j)][1..] == [];
  }

  function Changes(s: Script): nat { Count(s, Added) + Count(s, Removed) }

  // A script from one text to the other, numbered on both sides, that leads back when
  // turned round, and than which there is no shorter.
  ghost predicate Best(s: Script, a: Lines, b: Lines) {
    && WellFormed(s) && Apply(s, a) == Some(b) && Apply(Invert(s), b) == Some(a) && Numbered(s, 0, 0)
    && forall t :: WellFormed(t) && Apply(t, a) == Some(b) ==> Changes(s) <= Changes(t)
  }

  lemma {:induction false} ShortestIsBest(a: Lines, b: Lines)
    ensures Best(Shortest(a, b, |a|, |b|), a, b)
  {
    hide Apply, Numbered, Lcs, Shortest;
    var s := Shortest(a, b, |a|, |b|);
    assert a[..|a|] == a && b[..|b|] == b;
    ShortestSides(a, b, |a|, |b|);
    ShortestNumbered(a, b, |a|, |b|);
    ApplyIff(s, a);
    InvertSwaps(s);
    ApplyIff(Invert(s), b);
    Lengths(s);
    forall t | WellFormed(t) && Apply(t, a) == Some(b) ensures Changes(s) <= Changes(t) {
      ApplyIff(t, a);
      KeepsAtMost(t, a, b, |a|, |b|);
      Lengths(t);
    }
  }

  // -------------------------------------------- which of the shortest it is

  // Where lines are replaced, the removed ones come first.
  ghost predicate RemovedFirst(s: Script) {
    forall k :: 0 <= k < |s| - 1 && s[k].typ.Added? ==> !s[k + 1].typ.Removed?
  }

  lemma {:induction false} ShortestRemovedFirst(a: Lines, b: Lines, i: nat, j: nat)
    requires i <= |a| && j <= |b|
    ensures RemovedFirst(Shortest(a, b, i, j))
    decreases i + j
  {
    if i > 0 || j > 0 {
      hide Lcs;
      var d := LastLine(a, b, i, j);
      var (i', j') := Before(d, i, j);
      var s := Shortest(a, b, i', j');
      LastLineLeads(a, b, i, j);
      ShortestRemovedFirst(a, b, i', j');
      if s != [] { NotAddedThenRemoved(a, b, i, j); }
      var all := s + [d];
      forall k | 0 <= k < |all| - 1 && all[k].typ.Added? ensures !all[k + 1].typ.Removed? {
        assert all[k] == s[k];
        if k < |s| - 1 { assert all[k + 1] == s[k + 1]; }
      }
    }
  }

  lemma {:induction false} NotAddedThenRemoved(a: Lines, b: Lines, i: nat, j: nat)
    requires i <= |a| && j <= |b| && (i > 0 || j > 0)
    requires var d := LastLine(a, b, i, j); var (i', j') := Before(d, i, j); i' <= i && j' <= j && (i' > 0 || j' > 0)
    ensures var d := LastLine(a, b, i, j); var (i', j') := Before(d, i, j);
      LastLine(a, b, i', j').typ.Added? ==> !d.typ.Removed?
  {
    hide Lcs;
    var d := LastLine(a, b, i, j);
    var (i', j') := Before(d, i, j);
    LastLineLeads(a, b, i', j');
    if i > 0 && j > 0 { LcsGrows(a, b, i, j - 1); }
  }

  function Rank(typ: ChangeType): nat {
    match typ
    case Unchanged => 2
    case Added => 1
    case _ => 0
  }

  // Read from the back, where the two first part s has the line that ranks higher.
  ghost predicate Preferred(s: Script, t: Script)
    decreases |s|
  {
    s == t ||
    (s != [] && t != [] &&
     (Rank(s[|s| - 1].typ) > Rank(t[|t| - 1].typ) ||
      (s[|s| - 1] == t[|t| - 1] && Preferred(s[..|s| - 1], t[..|t| - 1]))))
  }

  lemma {:induction false} NumberedLast(s: Script, d: DiffLine, i: nat, j: nat)
    requires Numbered(s + [d], i, j)
    ensures Numbered(s, i, j) && Numbered([d], i + |OldSide(s)|, j + |NewSide(s)|)
    decreases |s|
  {
    if s == [] {
      assert s + [d] == [d];
    } else {
      var i' := if s[0].typ.Added? then i else i + 1;
      var j' := if s[0].typ.Removed? then j else j + 1;
      assert (s + [d])[1..] == s[1..] + [d];
      NumberedLast(s[1..], d, i', j');
    }
  }

  // A numbered script that keeps as many lines as the table says.
  ghost predicate Rival(t: Script, a: Lines, b: Lines, i: nat, j: nat)
    requires i <= |a| && j <= |b|
  {
    && WellFormed(t) && Numbered(t, 0, 0) && OldSide(t) == a[..i] && NewSide(t) == b[..j]
    && Count(t, Unchanged) == Lcs(a, b, i, j)
  }

  lemma {:induction false} RivalNumber(t: Script, d: DiffLine, a: Lines, b: Lines, i: nat, j: nat)
    requires !d.typ.Modified? && Numbered([d], |OldSide(t)|, |NewSide(t)|)
    ensures d.oldNum == (if d.typ.Added? then 0 else |OldSide(t)| + 1)
    ensures d.newNum == (if d.typ.Removed? then 0 else |NewSide(t)| + 1)
  {
  }

  lemma {:induction false} RivalBefore(t: Script, d: DiffLine, a: Lines, b: Lines, i: nat, j: nat)
    requires i <= |a| && j <= |b| && Rival(t + [d], a, b, i, j)
    ensures WellFormed(t) && Numbered(t, 0, 0) && !d.typ.Modified?
    ensures d.oldNum == (if d.typ.Added? then 0 else i) && d.newNum == (if d.typ.Removed? then 0 else j)
    ensures if d.typ.Added? then OldSide(t) == a[..i] else i > 0 && OldSide(t) == a[..i - 1] && d.content == a[i - 1]
    ensures if d.typ.Removed? then NewSide(t) == b[..j] else j > 0 && NewSide(t) == b[..j - 1] && d.content == b[j - 1]
    ensures Count(t, Unchanged) == Lcs(a, b, i, j) - if d.typ.Unchanged? then 1 else 0
  {
    hide Lcs, Numbered;
    assert (t + [d])[|t|] == d && forall k :: 0 <= k < |t| ==> (t + [d])[k] == t[k];
    Snoc(t, d);
    NumberedLast(t, d, 0, 0);
    if d.typ.Added? {
      assert OldSide(t) + [] == OldSide(t);
    } else {
      SplitLast(OldSide(t), d.content, a, i);
    }
    if d.typ.Removed? {
      assert NewSide(t) + [] == NewSide(t);
    } else {
      SplitLast(NewSide(t), d.content, b, j);
    }
    RivalNumber(t, d, a, b, i, j);
  }

  // Its last line is the chosen one or ranks lower.
  lemma {:induction false} RivalLast(t: Script, d: DiffLine, a: Lines, b: Lines, i: nat, j: nat)
    requires i <= |a| && j <= |b| && Rival(t + [d], a, b, i, j)
    ensures (i > 0 || j > 0) && (d == LastLine(a, b, i, j) || Rank(d.typ) < Rank(LastLine(a, b, i, j).typ))
    ensures d == LastLine(a, b, i, j) ==>
      var (i', j') := Before(d, i, j); i' <= i && j' <= j && Rival(t, a, b, i', j')
  {
    hide Numbered, OldSide, NewSide, Count, WellFormed;
    RivalBefore(t, d, a, b, i, j);
    LastLineLeads(a, b, i, j);
    LcsGrows(a, b, i, j);
    hide Lcs;
    if d.typ.Added? { KeepsAtMost(t, a, b, i, j - 1); }
  }

  lemma {:induction false} ShortestPreferred(t: Script, a: Lines, b: Lines, i: nat, j: nat)
    requires i <= |a| && j <= |b| && Rival(t, a, b, i, j)
    ensures Preferred(Shortest(a, b, i, j), t)
    decreases |t|
  {
    hide Lcs, LastLine;
    if t == [] {
      assert |a[..i]| == 0 && |b[..j]| == 0;
    } else {
      var before, d := t[..|t| - 1], t[|t| - 1];
      assert t == before + [d];
      RivalLast(before, d, a, b, i, j);
      var e := LastLine(a, b, i, j);
      var s := Shortest(a, b, Before(e, i, j).0, Before(e, i, j).1);
      assert Shortest(a, b, i, j) == s + [e] && (s + [e])[..|s|] == s;
      if d == e { ShortestPreferred(before, a, b, Before(e, i, j).0, Before(e, i, j).1); }
    }
  }

  // Of all numbered scripts between the two that are as short, the one that, read from
  // the back, keeps a line where one can be kept and else adds where one can be added.
  ghost predicate Canonical(s: Script, a: Lines, b: Lines) {
    && RemovedFirst(s)
    && forall t ::
      WellFormed(t) && Numbered(t, 0, 0) && Apply(t, a) == Some(b) && Changes(t) == Changes(s) ==> Preferred(s, t)
  }

  lemma {:induction false} ShortestIsCanonical(a: Lines, b: Lines)
    ensures Canonical(Shortest(a, b, |a|, |b|), a, b)
  {
    hide Apply, Numbered, Lcs, Shortest, Preferred;
    var s := Shortest(a, b, |a|, |b|);
    assert a[..|a|] == a && b[..|b|] == b;
    ShortestSides(a, b, |a|, |b|);
    ShortestRemovedFirst(a, b, |a|, |b|);
    Lengths(s);
    forall t | WellFormed(t) && Numbered(t, 0, 0) && Apply(t, a) == Some(b) && Changes(t) == Changes(s)
      ensures Preferred(s, t)
    {
      ApplyIff(t, a);
      Lengths(t);
      ShortestPreferred(t, a, b, |a|, |b|);
    }
  }

  // As many changes lead from one text to another as lead back.
  lemma {:induction false} SameDistanceBack(s: Script, t: Script, a: Lines, b: Lines)
    requires Best(s, a, b) && Best(t, b, a)
    ensures Changes(s) == Changes(t)
  {
    hide Apply, Numbered, Invert;
    InvertSwaps(s);
    InvertSwaps(t);
    Lengths(s);
    Lengths(t);
    Lengths(Invert(s));
    Lengths(Invert(t));
  }

  // ----------------------------------------------------------------- texts

  // strings.Split(s, "\n")
  function SplitLines(s: string): (r: Lines)
    ensures |r| > 0
  {
    if s == "" then [""]
    else
      var rest := SplitLines(s[1..]);
      if s[0] == '\n' then [""] + rest else [[s[0]] + rest[0]] + rest[1..]
  }

  function JoinLines(ls: Lines): string {
    if ls == [] then "" else if |ls| == 1 then ls[0] else ls[0] + "\n" + JoinLines(ls[1..])
  }

  // A text as a sequence of lines; the empty text has none.
  function TextLines(s: string): Lines { if s == "" then [] else SplitLines(s) }

  function Classify(before: string, after: string): ChangeType {
    if before == after then Unchanged else if before == "" then Added else if after == "" then Removed else Modified
  }

  // All lines on one side, numbered from i + 1 on.
  function OneSided(ls: Lines, typ: ChangeType, i: nat): Script
    requires typ.Added? || typ.Removed?
  {
    if ls == [] then []
    else
      [if typ.Added? then DiffLine(0, i + 1, typ, ls[0]) else DiffLine(i + 1, 0, typ, ls[0])] +
      OneSided(ls[1..], typ, i + 1)
  }

  lemma {:induction false} OneSidedFacts(ls: Lines, typ: ChangeType, i: nat)
    requires typ.Added? || typ.Removed?
    ensures var s := OneSided(ls, typ, i);
      && WellFormed(s) && Count(s, typ) == |ls| && Changes(s) == |ls| && Count(s, Unchanged) == 0
      && OldSide(s) == (if typ.Added? then [] else ls) && NewSide(s) == (if typ.Added? then ls else [])
      && (if typ.Added? then Numbered(s, 0, i) else Numbered(s, i, 0))
  {
    if ls != [] {
      var s, rest := OneSided(ls, typ, i), OneSided(ls[1..], typ, i + 1);
      OneSidedFacts(ls[1..], typ, i + 1);
      assert s[1..] == rest;
      forall k | 0 <= k < |s| ensures !s[k].typ.Modified? {
        if k > 0 { assert s[k] == rest[k - 1]; }
      }
    }
  }

  lemma {:induction false} OneSidedSnoc(ls: Lines, line: string, typ: ChangeType, i: nat)
    requires typ.Added? || typ.Removed?
    ensures OneSided(ls + [line], typ, i) == OneSided(ls, typ, i) + OneSided([line], typ, i + |ls|)
  {
    if ls == [] {
      assert ls + [line] == [line];
    } else {
      assert (ls + [line])[1..] == ls[1..] + [line];
      OneSidedSnoc(ls[1..], line, typ, i + 1);
    }
  }

  // Where one text has no lines, adding or removing all of the other's is what is chosen.
  lemma {:induction false} OneSidedIsShortest(ls: Lines, n: nat)
    requires n <= |ls|
    ensures Shortest([], ls, 0, n) == OneSided(ls[..n], Added, 0)
    ensures Shortest(ls, [], n, 0) == OneSided(ls[..n], Removed, 0)
  {
    if n > 0 {
      OneSidedIsShortest(ls, n - 1);
      assert ls[..n] == ls[..n - 1] + [ls[n - 1]];
      OneSidedSnoc(ls[..n - 1], ls[n - 1], Added, 0);
      OneSidedSnoc(ls[..n - 1], ls[n - 1], Removed, 0);
    }
  }

  lemma {:induction false} OneSidedIsBest(ls: Lines, typ: ChangeType)
    requires typ.Added? || typ.Removed?
    ensures var (a, b) := if typ.Added? then ([], ls) else (ls, []);
      Best(OneSided(ls, typ, 0), a, b) && Canonical(OneSided(ls, typ, 0), a, b)
  {
    hide Best, Canonical;
    OneSidedIsShortest(ls, |ls|);
    assert ls[..|ls|] == ls;
    var (a, b) := if typ.Added? then ([], ls) else (ls, []);
    ShortestIsBest(a, b);
    ShortestIsCanonical(a, b);
  }

  lemma {:induction false} JoinCons(line: string, rest: Lines)
    requires rest != []
    ensures JoinLines([line] + rest) == line + "\n" + JoinLines(rest)
  {
    assert ([line] + rest)[1..] == rest;
  }

  // One character more in front of the first line.
  lemma {:induction false} JoinGrows(ch: char, ls: Lines)
    requires ls != []
    ensures JoinLines([[ch] + ls[0]] + ls[1..]) == [ch] + JoinLines(ls)
  {
    var first, rest := [ch] + ls[0], ls[1..];
    if rest == [] {
      assert [first] + rest == [first] && ls == [ls[0]];
    } else {
      JoinCons(first, rest);
      Regroup([ch], ls[0], "\n" + JoinLines(rest));
      Regroup(first, "\n", JoinLines(rest));
      Regroup(ls[0], "\n", JoinLines(rest));
    }
  }

  lemma {:induction false} Regroup(x: string, y: string, z: string)
    ensures (x + y) + z == x + (y + z)
  {
  }

  lemma {:induction false} JoinSplit(s: string)
    ensures JoinLines(SplitLines(s)) == s
  {
    if s != "" {
      hide JoinLines;
      var rest := SplitLines(s[1..]);
      JoinSplit(s[1..]);
      assert s == [s[0]] + s[1..];
      if s[0] == '\n' {
        JoinCons("", rest);
        assert "" + "\n" == [s[0]];
      } else {
        JoinGrows(s[0], rest);
      }
    }
  }

  function PatchText(s: Script, text: string): Option<string> {
    var r := Apply(s, TextLines(text)); if r.Some? then Some(JoinLines(r.value)) else None
  }

  // A best script turns the one text into the other, and turned round the other into
  // the one.
  lemma {:induction false} BestPatches(s: Script, before: string, after: string)
    requires Best(s, TextLines(before), TextLines(after))
    ensures PatchText(s, before) == Some(after) && PatchText(Invert(s), after) == Some(before)
  {
    hide Apply, JoinLines, SplitLines;
    JoinSplit(before);
    JoinSplit(after);
    JoinNothing();
  }

  lemma {:induction false} JoinNothing()
    ensures JoinLines([]) == ""
  {
  }
}
