/** Applying a generated diff to a text, and when that gives the text the diff was made for. */
module DiffPatch {
  import opened Wrappers
  import opened DiffSpec
  import opened Diff

  // ------------------------------------------------------ what is computed

  // The old line numbers a script removes.
  function RemovedNums(s: Script): set<nat> {
    if s == [] then {} else
      (if s[0].typ.Removed? && s[0].oldNum > 0 then {s[0].oldNum} else {}) + RemovedNums(s[1..])
  }

  // The lines of these numbers left out, numbering from i + 1 on.
  function Without(ls: Lines, nums: set<nat>, i: nat): Lines
    decreases |ls|
  {
    if ls == [] then [] else (if i + 1 in nums then [] else [ls[0]]) + Without(ls[1..], nums, i + 1)
  }

  function InsertIndex(d: DiffLine, n: nat): (k: nat)
    ensures k <= n
  {
    if d.newNum > 0 && d.newNum - 1 <= n then d.newNum - 1 else n
  }

  function Insert(d: DiffLine, ls: Lines): Lines {
    if d.typ.Added? then ls[..InsertIndex(d, |ls|)] + [d.content] + ls[InsertIndex(d, |ls|)..] else ls
  }

  // The added lines inserted one after the other, each at its new number.
  function InsertAll(s: Script, ls: Lines): Lines
    decreases |s|
  {
    if s == [] then ls else InsertAll(s[1..], Insert(s[0], ls))
  }

  function Modify(text: string, s: Script): string {
    JoinLines(InsertAll(s, Without(SplitLines(text), RemovedNums(s), 0)))
  }

  function Ended(text: string): string {
    if text != "" && text[|text| - 1] != '\n' then text + "\n" else text
  }

  function Terminated(s: Script): string { if s == [] then "" else s[0].content + "\n" + Terminated(s[1..]) }

  function PatchOf(text: string, typ: ChangeType, s: Script): string {
    match typ
    case Added => Ended(text) + Terminated(s)
    case Removed => ""
    case Unchanged => text
    case Modified => Modify(text, s)
  }

  method PatchAdded(original: string, lines: Script) returns (text: string)
    ensures text == Ended(original) + Terminated(lines)
  {
    text := original;
    if original != "" && original[|original| - 1] != '\n' { text := text + "\n"; }
    ghost var start := text;
    assert lines[0..] == lines;
    for i := 0 to |lines|
      invariant text + Terminated(lines[i..]) == start + Terminated(lines)
    {
      assert lines[i..][1..] == lines[i + 1..];
      text := text + lines[i].content;
      text := text + "\n";
    }
    assert text + "" == text;
  }

  method PatchModified(original: string, lines: Script) returns (text: string)
    ensures text == Modify(original, lines)
  {
    hide JoinLines, SplitLines, Insert;
    var removed: set<nat> := {};
    assert lines[0..] == lines;
    for i := 0 to |lines|
      invariant removed + RemovedNums(lines[i..]) == RemovedNums(lines)
    {
      assert lines[i..][1..] == lines[i + 1..];
      if lines[i].typ.Removed? && lines[i].oldNum > 0 { removed := removed + {lines[i].oldNum}; }
    }
    assert removed == RemovedNums(lines);
    var result: Lines := [];
    var oldLines := SplitLines(original);
    assert oldLines[0..] == oldLines;
    for i := 0 to |oldLines|
      invariant result + Without(oldLines[i..], removed, i) == Without(oldLines, removed, 0)
    {
      assert oldLines[i..][1..] == oldLines[i + 1..];
      if i + 1 !in removed { result := result + [oldLines[i]]; }
    }
    ghost var kept := Without(oldLines, removed, 0);
    assert result == kept;
    for i := 0 to |lines|
      invariant InsertAll(lines[i..], result) == InsertAll(lines, kept)
    {
      assert lines[i..][1..] == lines[i + 1..];
      result := InsertLine(lines[i], result);
    }
    assert result == InsertAll(lines, kept);
    text := JoinLines(result);
  }

  method InsertLine(d: DiffLine, ls: Lines) returns (r: Lines)
    ensures r == Insert(d, ls)
  {
    if !d.typ.Added? { return ls; }
    var insertIdx := |ls|;
    if d.newNum > 0 {
      insertIdx := d.newNum - 1;
      if insertIdx > |ls| { insertIdx := |ls|; }
    }
    r := ls[..insertIdx] + [d.content] + ls[insertIdx..];
  }

  method ApplyPatch(original: string, diff: Option<FileDiff>) returns (text: string)
    ensures text == if diff.None? then original else PatchOf(original, diff.value.typ, diff.value.lines)
  {
    if diff.None? { return original; }
    match diff.value.typ
    case Added => text := PatchAdded(original, diff.value.lines);
    case Removed => text := "";
    case Unchanged => text := original;
    case Modified => text := PatchModified(original, diff.value.lines);
  }

  // ------------------------------------------------- patching a diff's own text

  // The lines a script keeps.
  function Keeps(s: Script): Lines {
    if s == [] then [] else (if s[0].typ.Unchanged? then [s[0].content] else []) + Keeps(s[1..])
  }

  lemma {:induction false} NumsAbove(s: Script, i: nat, j: nat, n: nat)
    requires Numbered(s, i, j) && n in RemovedNums(s)
    ensures n > i
    decreases |s|
  {
    if n in RemovedNums(s[1..]) {
      match s[0].typ
      case Added => NumsAbove(s[1..], i, j + 1, n);
      case Removed => NumsAbove(s[1..], i + 1, j, n);
      case Unchanged => NumsAbove(s[1..], i + 1, j + 1, n);
    }
  }

  // On lines that are numbered rightly, leaving out the removed numbers leaves what is kept.
  lemma {:induction false} RemovesRight(s: Script, nums: set<nat>, i: nat, j: nat)
    requires Numbered(s, i, j) && forall n :: n > i ==> (n in nums <==> n in RemovedNums(s))
    ensures Without(OldSide(s), nums, i) == Keeps(s)
    decreases |s|
  {
    if s != [] {
      var d, rest := s[0], s[1..];
      if d.typ.Added? {
        assert OldSide(s) == OldSide(rest) && Keeps(s) == Keeps(rest) && RemovedNums(s) == RemovedNums(rest);
        RemovesRight(rest, nums, i, j + 1);
      } else {
        var j' := if d.typ.Unchanged? then j + 1 else j;
        assert OldSide(s)[0] == d.content && OldSide(s)[1..] == OldSide(rest);
        if i + 1 in RemovedNums(rest) { NumsAbove(rest, i + 1, j', i + 1); }
        RemovesRight(rest, nums, i + 1, j');
      }
    }
  }

  lemma {:induction false} InsertHere(d: DiffLine, done: Lines, later: Lines)
    requires d.typ.Added? && d.newNum == |done| + 1
    ensures Insert(d, done + later) == (done + [d.content]) + later
  {
    assert (done + later)[..|done|] == done && (done + later)[|done|..] == later;
  }

  lemma {:induction false} Move(done: Lines, line: string, later: Lines)
    ensures done + ([line] + later) == (done + [line]) + later
  {
  }

  // Inserting the added lines into those, in order, completes the new side.
  lemma {:induction false} InsertsRight(s: Script, done: Lines, i: nat)
    requires Numbered(s, i, |done|)
    ensures InsertAll(s, done + Keeps(s)) == done + NewSide(s)
    decreases |s|
  {
    if s != [] {
      hide Insert;
      var d, rest := s[0], s[1..];
      var more := done + [d.content];
      match d.typ
      case Added =>
        InsertHere(d, done, Keeps(rest));
        assert Keeps(s) == Keeps(rest);
        InsertsRight(rest, more, i);
        Move(done, d.content, NewSide(rest));
      case Removed =>
        assert Keeps(s) == Keeps(rest) && NewSide(s) == NewSide(rest);
        NotInserted(d, done + Keeps(rest));
        InsertsRight(rest, done, i + 1);
      case Unchanged =>
        Move(done, d.content, Keeps(rest));
        NotInserted(d, more + Keeps(rest));
        InsertsRight(rest, more, i + 1);
        Move(done, d.content, NewSide(rest));
    }
  }

  lemma {:induction false} NotInserted(d: DiffLine, ls: Lines)
    requires !d.typ.Added?
    ensures Insert(d, ls) == ls
  {
  }

  lemma {:induction false} ModifiesRight(s: Script, before: string, after: string)
    requires before != "" && after != "" && Best(s, TextLines(before), TextLines(after))
    ensures Modify(before, s) == after
  {
    hide JoinLines, SplitLines, Apply, Numbered, InsertAll, Without, RemovedNums;
    ApplyIff(s, TextLines(before));
    RemovesRight(s, RemovedNums(s), 0, 0);
    InsertsRight(s, [], 0);
    assert [] + Keeps(s) == Keeps(s) && [] + NewSide(s) == NewSide(s);
    JoinSplit(after);
  }

  // A script that expects no lines adds every line it has.
  lemma {:induction false} TerminatesAll(s: Script)
    requires WellFormed(s) && OldSide(s) == []
    ensures Terminated(s) == if s == [] then "" else JoinLines(NewSide(s)) + "\n"
    ensures |NewSide(s)| == |s|
  {
    if s != [] {
      var rest := s[1..];
      assert s[0].typ.Added?;
      TerminatesAll(rest);
      if rest == [] {
        assert NewSide(s) == [s[0].content];
      } else {
        assert NewSide(s) == [s[0].content] + NewSide(rest);
        JoinCons(s[0].content, NewSide(rest));
        assert Terminated(s) == s[0].content + "\n" + (JoinLines(NewSide(rest)) + "\n");
      }
    }
  }

  lemma {:induction false} AddsOneBreak(s: Script, after: string)
    requires after != "" && Best(s, [], TextLines(after))
    ensures PatchOf("", Added, s) == after + "\n"
  {
    hide JoinLines, SplitLines, Apply, Numbered;
    ApplyIff(s, []);
    TerminatesAll(s);
    JoinSplit(after);
    assert "" + Terminated(s) == Terminated(s);
  }

  // Applying the diff of two texts to the first gives the second, except from the empty
  // text to another: then it gives the second with a line break too many.
  lemma {:induction false} PatchLawIff(before: string, after: string, lines: Script)
    requires if before == after then lines == [] else Best(lines, TextLines(before), TextLines(after))
    ensures var patched := PatchOf(before, Classify(before, after), lines);
      && (patched == after <==> before != "" || after == "")
      && (before == "" && after != "" ==> patched == after + "\n")
  {
    hide Best, Terminated, Modify, SplitLines;
    if before == "" && after != "" {
      AddsOneBreak(lines, after);
      assert |after + "\n"| != |after|;
    } else if before != after && after != "" {
      ModifiesRight(lines, before, after);
    }
  }

  // ------------------------------------------- patching a text with any script

  lemma {:induction false} RemovedNumsIff(s: Script, n: nat)
    ensures n in RemovedNums(s) <==> n > 0 && exists k :: 0 <= k < |s| && s[k].typ.Removed? && s[k].oldNum == n
  {
    if s != [] {
      RemovedNumsIff(s[1..], n);
      if k :| 0 <= k < |s| && s[k].typ.Removed? && s[k].oldNum == n {
        if k > 0 { assert s[1..][k - 1] == s[k]; }
      }
      if k :| 0 <= k < |s[1..]| && s[1..][k].typ.Removed? && s[1..][k].oldNum == n { assert s[k + 1] == s[1..][k]; }
    }
  }

  lemma {:induction false} WithoutSnoc(ls: Lines, line: string, nums: set<nat>, i: nat)
    ensures Without(ls + [line], nums, i) ==
      Without(ls, nums, i) + if i + |ls| + 1 in nums then [] else [line]
  {
    var all, last := ls + [line], if i + |ls| + 1 in nums then [] else [line];
    if ls == [] {
      assert all[1..] == [] && last + [] == last;
    } else {
      var first := if i + 1 in nums then [] else [ls[0]];
      assert all[0] == ls[0] && all[1..] == ls[1..] + [line];
      WithoutSnoc(ls[1..], line, nums, i + 1);
      assert first + (Without(ls[1..], nums, i + 1) + last) == (first + Without(ls[1..], nums, i + 1)) + last;
    }
  }

  function AddedLines(s: Script): multiset<string> {
    if s == [] then multiset{}
    else (if s[0].typ.Added? then multiset{s[0].content} else multiset{}) + AddedLines(s[1..])
  }

  // The lines left after removal by number and the added ones, and nothing else.
  lemma {:induction false} InsertsExactly(s: Script, ls: Lines)
    ensures multiset(InsertAll(s, ls)) == multiset(ls) + AddedLines(s)
    decreases |s|
  {
    if s != [] {
      hide Insert;
      InsertsExactly(s[1..], Insert(s[0], ls));
      InsertMeans(s[0], ls);
    }
  }

  // An added line comes to stand at its number, or at the end if there is no such place,
  // and the others keep their order.
  lemma {:induction false} InsertMeans(d: DiffLine, ls: Lines)
    ensures multiset(Insert(d, ls)) == multiset(ls) + if d.typ.Added? then multiset{d.content} else multiset{}
    ensures d.typ.Added? ==>
      var r, k := Insert(d, ls), if 0 < d.newNum <= |ls| then d.newNum - 1 else |ls|;
      |r| == |ls| + 1 && r[k] == d.content && r[..k] + r[k + 1..] == ls
  {
    if d.typ.Added? {
      var k := InsertIndex(d, |ls|);
      var r := Insert(d, ls);
      assert ls[..k] + ls[k..] == ls;
      assert r[..k] == ls[..k] && r[k + 1..] == ls[k..];
    }
  }

  lemma {:induction false} SplitConcat(x: string, y: string)
    ensures SplitLines(x + "\n" + y) == SplitLines(x) + SplitLines(y)
  {
    var all := x + "\n" + y;
    if x == "" {
      assert all[1..] == y;
    } else {
      assert all[1..] == x[1..] + "\n" + y;
      SplitConcat(x[1..], y);
    }
  }

  lemma {:induction false} SplitOne(line: string)
    requires '\n' !in line
    ensures SplitLines(line) == [line]
  {
    if line != "" {
      SplitOne(line[1..]);
      assert line[0] in line && [line[0]] + line[1..] == line;
    }
  }

  function Contents(s: Script): Lines { seq(|s|, k requires 0 <= k < |s| => s[k].content) }

  lemma {:induction false} SplitTerminated(s: Script)
    requires forall k :: 0 <= k < |s| ==> '\n' !in s[k].content
    ensures SplitLines(Terminated(s)) == Contents(s) + [""]
  {
    if s != [] {
      hide SplitLines;
      SplitTerminated(s[1..]);
      SplitConcat(s[0].content, Terminated(s[1..]));
      SplitOne(s[0].content);
      assert Contents(s) == [s[0].content] + Contents(s[1..]);
    } else {
      assert Contents(s) == [];
    }
  }

  // Patching any text with an "added" diff puts the lines of the diff after its own, each
  // ended by a line break; a text that ends in one gets no empty line in between.
  lemma {:induction false} AddsAtTheEnd(text: string, s: Script)
    requires forall k :: 0 <= k < |s| ==> '\n' !in s[k].content
    ensures SplitLines(PatchOf("", Added, s)) == Contents(s) + [""]
    ensures SplitLines(PatchOf(text + "\n", Added, s)) == SplitLines(text) + Contents(s) + [""]
    ensures text != "" && text[|text| - 1] != '\n' ==>
      SplitLines(PatchOf(text, Added, s)) == SplitLines(text) + Contents(s) + [""]
  {
    hide SplitLines, Terminated;
    SplitTerminated(s);
    SplitConcat(text, Terminated(s));
    assert "" + Terminated(s) == Terminated(s);
    assert SplitLines(text) + (Contents(s) + [""]) == SplitLines(text) + Contents(s) + [""];
  }
}
