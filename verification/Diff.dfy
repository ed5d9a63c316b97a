/**
  The line diff of internal/diff: the table of common subsequences filled in place, the
  walk back through it, and the diff of two texts.
 */
module Diff {
  import opened Wrappers
  import opened DiffSpec

  datatype DiffStats = DiffStats(added: nat, removed: nat, modified: nat, context: nat)

  datatype FileDiff = FileDiff(
    path: string,
    typ: ChangeType,
    oldSize: nat,
    newSize: nat,
    lines: Script,
    stats: DiffStats)

  function Min(x: nat, y: nat): nat { if x < y then x else y }

  const NO_STATS := DiffStats(0, 0, 0, 0)

  ghost predicate Sized(dp: array2<nat>, a: Lines, b: Lines) {
    dp.Length0 == |a| + 1 && dp.Length1 == |b| + 1
  }

  method FillTable(a: Lines, b: Lines) returns (dp: array2<nat>)
    ensures fresh(dp) && Sized(dp, a, b)
    ensures forall i, j :: 0 <= i <= |a| && 0 <= j <= |b| ==> dp[i, j] == Lcs(a, b, i, j)
  {
    hide Lcs;
    var n, m := |a|, |b|;
    dp := new nat[n + 1, m + 1]((i, j) => 0);
    forall y: nat | y <= m ensures Lcs(a, b, 0, y) == 0 { LcsStep(a, b, 0, y); }
    for i := 1 to n + 1
      invariant forall x, y :: 0 <= x < i && 0 <= y <= m ==> dp[x, y] == Lcs(a, b, x, y)
      invariant forall x :: i <= x <= n ==> dp[x, 0] == 0
    {
      LcsStep(a, b, i, 0);
      for j := 1 to m + 1
        invariant forall x, y :: 0 <= x < i && 0 <= y <= m ==> dp[x, y] == Lcs(a, b, x, y)
        invariant forall y :: 0 <= y < j ==> dp[i, y] == Lcs(a, b, i, y)
        invariant forall x :: i <= x <= n ==> dp[x, 0] == 0
      {
        LcsStep(a, b, i, j);
        if a[i - 1] == b[j - 1] {
          dp[i, j] := dp[i - 1, j - 1] + 1;
        } else if dp[i - 1, j] >= dp[i, j - 1] {
          dp[i, j] := dp[i - 1, j];
        } else {
          dp[i, j] := dp[i, j - 1];
        }
      }
    }
  }

  // The code walks back from the ends of both texts and turns what it has met round.
  method ComputeLineDiff(oldLines: Lines, newLines: Lines) returns (result: Script)
    ensures result == Shortest(oldLines, newLines, |oldLines|, |newLines|)
  {
    hide Lcs, Shortest;
    var i: nat, j: nat := |oldLines|, |newLines|;
    NothingToWalk(oldLines, newLines);
    if i == 0 && j == 0 { return []; }
    var dp := FillTable(oldLines, newLines);
    var entries: Script := [];
    while i > 0 || j > 0
      invariant i <= |oldLines| && j <= |newLines|
      invariant Shortest(oldLines, newLines, i, j) + Reverse(entries) ==
        Shortest(oldLines, newLines, |oldLines|, |newLines|)
      invariant forall x, y :: 0 <= x <= |oldLines| && 0 <= y <= |newLines| ==>
        dp[x, y] == Lcs(oldLines, newLines, x, y)
      decreases i + j
    {
      WalkedBack(oldLines, newLines, i, j, entries);
      if i > 0 && j > 0 && oldLines[i - 1] == newLines[j - 1] {
        entries := entries + [DiffLine(i, j, Unchanged, oldLines[i - 1])];
        i, j := i - 1, j - 1;
      } else if j > 0 && (i == 0 || dp[i, j - 1] >= dp[i - 1, j]) {
        entries := entries + [DiffLine(0, j, Added, newLines[j - 1])];
        j := j - 1;
      } else {
        entries := entries + [DiffLine(i, 0, Removed, oldLines[i - 1])];
        i := i - 1;
      }
    }
    result := TurnRound(entries);
  }

  method TurnRound(entries: Script) returns (result: Script)
    ensures result == Reverse(entries)
  {
    result := [];
    assert entries[..|entries|] == entries;
    for k := |entries| downto 0
      invariant result + Reverse(entries[..k]) == Reverse(entries)
    {
      assert entries[..k + 1] == entries[..k] + [entries[k]];
      ReverseSnoc(entries[..k], entries[k]);
      result := result + [entries[k]];
    }
  }

  lemma {:induction false} NothingToWalk(a: Lines, b: Lines)
    ensures Shortest(a, b, 0, 0) == []
  {
  }

  function Reverse(s: Script): Script { if s == [] then [] else Reverse(s[1..]) + [s[0]] }

  lemma {:induction false} ReverseSnoc(s: Script, d: DiffLine)
    ensures Reverse(s + [d]) == [d] + Reverse(s)
  {
    if s == [] {
      assert s + [d] == [d] && [d][1..] == [];
    } else {
      assert (s + [d])[1..] == s[1..] + [d];
      ReverseSnoc(s[1..], d);
    }
  }

  lemma {:induction false} WalkedBack(a: Lines, b: Lines, i: nat, j: nat, entries: Script)
    requires i <= |a| && j <= |b| && (i > 0 || j > 0)
    ensures var d := LastLine(a, b, i, j); var (i', j') := Before(d, i, j);
      && i' <= i && j' <= j
      && Shortest(a, b, i, j) + Reverse(entries) == Shortest(a, b, i', j') + Reverse(entries + [d])
  {
    hide Lcs;
    var d := LastLine(a, b, i, j);
    ReverseSnoc(entries, d);
  }

  // One DiffLine for each line of a text that only one side has.
  method OneSideLines(content: string, typ: ChangeType) returns (lines: Script)
    requires typ.Added? || typ.Removed?
    ensures lines == OneSided(SplitLines(content), typ, 0)
  {
    var ls := SplitLines(content);
    lines := [];
    assert ls[0..] == ls;
    for i := 0 to |ls|
      invariant lines + OneSided(ls[i..], typ, i) == OneSided(ls, typ, 0)
    {
      assert ls[i..][1..] == ls[i + 1..];
      lines := lines + [if typ.Added? then DiffLine(0, i + 1, typ, ls[i]) else DiffLine(i + 1, 0, typ, ls[i])];
    }
  }

  function CountLines(content: string): nat { if content == "" then 0 else |SplitLines(content)| }

  method CountTypes(lines: Script) returns (stats: DiffStats)
    requires WellFormed(lines)
    ensures stats.added == Count(lines, Added) && stats.removed == Count(lines, Removed)
    ensures stats.context == Count(lines, Unchanged)
    ensures stats.modified == Min(stats.added, stats.removed)
  {
    stats := NO_STATS;
    for i := 0 to |lines|
      invariant stats == DiffStats(
        Count(lines[..i], Added), Count(lines[..i], Removed), 0, Count(lines[..i], Unchanged))
    {
      assert lines[..i + 1] == lines[..i] + [lines[i]];
      Snoc(lines[..i], lines[i]);
      match lines[i].typ
      case Added => stats := stats.(added := stats.added + 1);
      case Removed => stats := stats.(removed := stats.removed + 1);
      case Unchanged => stats := stats.(context := stats.context + 1);
    }
    assert lines[..|lines|] == lines;
    stats := stats.(modified := Min(stats.added, stats.removed));
  }

  method ComputeDiff(oldContent: string, newContent: string, path: string) returns (d: FileDiff)
    ensures d.path == path && d.oldSize == |oldContent| && d.newSize == |newContent|
    ensures d.typ == Classify(oldContent, newContent)
    ensures oldContent != newContent ==>
      var a, b := TextLines(oldContent), TextLines(newContent); Best(d.lines, a, b) && Canonical(d.lines, a, b)
    ensures oldContent != newContent ==>
      PatchText(d.lines, oldContent) == Some(newContent) && PatchText(Invert(d.lines), newContent) == Some(oldContent)
    ensures oldContent == newContent ==> d.lines == []
    ensures d.stats.added == Count(d.lines, Added) && d.stats.removed == Count(d.lines, Removed)
    ensures d.stats.context == Count(d.lines, Unchanged)
    ensures d.stats.modified == if d.typ.Modified? then Min(d.stats.added, d.stats.removed) else 0
  {
    hide Best, Canonical, Shortest, OneSided, PatchText, Invert, Count;
    if oldContent == "" && newContent != "" {
      var lines := OneSideLines(newContent, Added);
      OneSidedIsBest(SplitLines(newContent), Added);
      OneSidedFacts(SplitLines(newContent), Added, 0);
      OnlyOneType(lines, Added);
      BestPatches(lines, oldContent, newContent);
      return FileDiff(path, Added, 0, |newContent|, lines, NO_STATS.(added := CountLines(newContent)));
    }
    if oldContent != "" && newContent == "" {
      var lines := OneSideLines(oldContent, Removed);
      OneSidedIsBest(SplitLines(oldContent), Removed);
      OneSidedFacts(SplitLines(oldContent), Removed, 0);
      OnlyOneType(lines, Removed);
      BestPatches(lines, oldContent, newContent);
      return FileDiff(path, Removed, |oldContent|, 0, lines, NO_STATS.(removed := CountLines(oldContent)));
    }
    if oldContent == newContent {
      NothingCounted();
      return FileDiff(path, Unchanged, |oldContent|, |newContent|, [], NO_STATS);
    }
    var oldLines, newLines := SplitLines(oldContent), SplitLines(newContent);
    var lines := ComputeLineDiff(oldLines, newLines);
    ShortestIsBest(oldLines, newLines);
    ShortestIsCanonical(oldLines, newLines);
    BestPatches(lines, oldContent, newContent);
    assert WellFormed(lines) by { BestIsWellFormed(lines, oldLines, newLines); }
    var stats := CountTypes(lines);
    d := FileDiff(path, Modified, |oldContent|, |newContent|, lines, stats);
  }

  lemma {:induction false} OnlyOneType(s: Script, typ: ChangeType)
    requires (typ.Added? || typ.Removed?) && WellFormed(s) && Changes(s) == Count(s, typ)
    ensures Count(s, if typ.Added? then Removed else Added) == 0
  {
    hide Count;
  }

  lemma {:induction false} NothingCounted()
    ensures forall typ :: Count([], typ) == 0
  {
  }

  lemma {:induction false} BestIsWellFormed(s: Script, a: Lines, b: Lines)
    requires Best(s, a, b)
    ensures WellFormed(s)
  {
  }
}
