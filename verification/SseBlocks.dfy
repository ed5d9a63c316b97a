/**
  What the decoder of internal/ai/llm.go makes of the lines of any event: fields in any
  order and number, comments, unknown fields and lines without a colon among them.
 */
module SseBlocks {
  import opened Wrappers
  import opened SseSpec

  // A line of an event. The name of a field may have white space around it, and one
  // space may stand before its value.
  datatype BlockLine =
    | Comment(text: string)
    | Field(before: string, name: string, after: string, spaced: bool, value: string)
    | NoColon(text: string)

  predicate Blanks(s: string) { forall i :: 0 <= i < |s| ==> IsSpace(s[i]) }

  predicate Trimmed(s: string) { s == "" || (!IsSpace(s[0]) && !IsSpace(s[|s| - 1])) }

  ghost predicate GoodLine(l: BlockLine) {
    match l
    case Comment(text) => OneLine(text)
    case NoColon(text) => OneLine(text) && ':' !in text && text != ""
    case Field(before, name, after, spaced, value) =>
      && Blanks(before) && Blanks(after) && Trimmed(name) && before + name + after != ""
      && OneLine(before + name + after) && ':' !in before + name + after && OneLine(value)
      && (spaced || value == "" || value[0] != ' ')
  }

  function Text(l: BlockLine): string {
    match l
    case Comment(text) => ":" + text
    case NoColon(text) => text
    case Field(before, name, after, spaced, value) =>
      (before + name + after) + ":" + ((if spaced then " " else "") + value)
  }

  function Block(ls: seq<BlockLine>, rest: string): string {
    if ls == [] then rest else Ln(Text(ls[0]), Block(ls[1..], rest))
  }

  // ------------------------------------------------------- what is expected

  // The value of the last field of this name, if there is one.
  function LastValue(ls: seq<BlockLine>, name: string): Option<string> {
    if ls == [] then None
    else
      var later := LastValue(ls[1..], name);
      if later.Some? then later else if ls[0].Field? && ls[0].name == name then Some(ls[0].value) else None
  }

  function Values(ls: seq<BlockLine>, name: string): seq<string> {
    if ls == [] then []
    else (if ls[0].Field? && ls[0].name == name then [ls[0].value] else []) + Values(ls[1..], name)
  }

  function JoinLines(vs: seq<string>): string {
    if vs == [] then "" else if |vs| == 1 then vs[0] else vs[0] + "\n" + JoinLines(vs[1..])
  }

  // The empty values at the start leave no trace.
  function FromFirstText(vs: seq<string>): seq<string> {
    if vs != [] && vs[0] == "" then FromFirstText(vs[1..]) else vs
  }

  // ---------------------------------------------------------------- lines

  lemma {:induction false} TrimBlanks(before: string, name: string, after: string)
    requires Blanks(before) && Blanks(after) && Trimmed(name)
    ensures TrimSpace(before + name + after) == name
  {
    var all := name + after;
    assert before + name + after == before + all;
    if name == "" {
      assert all == after;
      assert Blanks(before + after);
      TrimAll(before + after);
    } else {
      TrimFront(before, all);
      TrimBack(name, after);
    }
  }

  lemma {:induction false} TrimAll(s: string)
    requires Blanks(s)
    ensures TrimLeft(s) == ""
  {
    if s != "" { TrimAll(s[1..]); }
  }

  lemma {:induction false} TrimFront(before: string, rest: string)
    requires Blanks(before) && rest != "" && !IsSpace(rest[0])
    ensures TrimLeft(before + rest) == rest
  {
    if before == "" {
      assert before + rest == rest;
    } else {
      assert (before + rest)[1..] == before[1..] + rest;
      TrimFront(before[1..], rest);
    }
  }

  lemma {:induction false} TrimBack(name: string, after: string)
    requires Blanks(after) && name != "" && !IsSpace(name[|name| - 1])
    ensures TrimRight(name + after) == name
    decreases |after|
  {
    if after == "" {
      assert name + after == name;
    } else {
      var n := |after| - 1;
      assert (name + after)[..|name + after| - 1] == name + after[..n];
      TrimBack(name, after[..n]);
    }
  }

  lemma {:induction false} SplitField(l: BlockLine)
    requires GoodLine(l) && l.Field?
    ensures SplitLine(Text(l)) == Some((l.name, l.value))
  {
    hide TrimSpace, IsSpace;
    var head, line := l.before + l.name + l.after, Text(l);
    var tail := (if l.spaced then " " else "") + l.value;
    assert line == head + ":" + tail;
    assert line[..|head|] == head && line[|head|] == ':' && line[|head| + 1..] == tail;
    forall j | 0 <= j < |head| ensures line[j] != ':' { assert line[j] == head[j] && head[j] in head; }
    assert IndexOf(line, ':') == |head|;
    TrimBlanks(l.before, l.name, l.after);
    if l.spaced { assert tail[1..] == l.value; } else { assert tail == l.value; }
  }

  lemma {:induction false} FirstOfText(l: BlockLine)
    requires GoodLine(l)
    ensures var t := Text(l); OneLine(t) && t != "" && (t[0] == ':' <==> l.Comment?)
  {
    match l
    case Comment(_) =>
    case NoColon(text) => assert text[0] in text;
    case Field(before, name, after, _, _) =>
      var head := before + name + after;
      assert Text(l)[0] == head[0] && head[0] in head;
  }

  // What one line adds.
  lemma {:induction false} LineAdds(p: Partial, l: BlockLine)
    requires GoodLine(l)
    ensures AddLine(p, Text(l)) ==
      if !l.Field? then p
      else if l.name == "event" then p.(event := l.value)
      else if l.name == "data" then p.(data := if p.data == "" then l.value else p.data + "\n" + l.value)
      else p
  {
    hide SplitLine, Text;
    FirstOfText(l);
    match l
    case Comment(_) =>
    case Field(_, _, _, _, _) => SplitField(l);
    case NoColon(text) => assert Text(l) == text && SplitLine(text) == None by { NoColonSplits(text); }
  }

  lemma {:induction false} NoColonSplits(text: string)
    requires ':' !in text
    ensures SplitLine(text) == None && Text(NoColon(text)) == text
  {
    assert forall i :: 0 <= i < |text| ==> text[i] in text;
  }

  // --------------------------------------------------------------- blocks

  // Values appended to data already there.
  function Append(data: string, vs: seq<string>): string
    decreases |vs|
  {
    if vs == [] then data else Append(if data == "" then vs[0] else data + "\n" + vs[0], vs[1..])
  }

  lemma {:induction false} AppendJoins(data: string, vs: seq<string>)
    ensures Append(data, vs) ==
      if data == "" then JoinLines(FromFirstText(vs)) else if vs == [] then data else data + "\n" + JoinLines(vs)
    decreases |vs|
  {
    if vs != [] {
      var next := if data == "" then vs[0] else data + "\n" + vs[0];
      AppendJoins(next, vs[1..]);
      if data != "" && |vs| > 1 {
        assert (data + "\n" + vs[0]) + "\n" + JoinLines(vs[1..]) == data + "\n" + (vs[0] + "\n" + JoinLines(vs[1..]));
      }
    }
  }

  // What the lines of an event make of what has been read before them.
  function After(p: Partial, ls: seq<BlockLine>): Partial {
    var event := LastValue(ls, "event");
    Partial(if event.Some? then event.value else p.event, Append(p.data, Values(ls, "data")))
  }

  lemma {:induction false} AfterOne(p: Partial, ls: seq<BlockLine>)
    requires ls != [] && GoodLine(ls[0])
    ensures After(p, ls) == After(AddLine(p, Text(ls[0])), ls[1..])
  {
    hide AddLine, Text, GoodLine;
    var l, later := ls[0], ls[1..];
    LineAdds(p, l);
    if l.Field? && l.name == "data" {
      assert Values(ls, "data") == [l.value] + Values(later, "data");
      assert Values(ls, "data")[1..] == Values(later, "data");
    } else {
      assert Values(ls, "data") == Values(later, "data");
    }
  }

  lemma {:induction false} BlockAdds(p: Partial, ls: seq<BlockLine>, rest: string)
    requires forall i :: 0 <= i < |ls| ==> GoodLine(ls[i])
    ensures Decode(p, Block(ls, rest)) == Decode(After(p, ls), rest)
    decreases |ls|
  {
    if ls == [] {
      assert After(p, ls) == p;
    } else {
      hide AddLine, Decode, Text, Ln, GoodLine, After;
      FirstOfText(ls[0]);
      ReadLine(p, Text(ls[0]), Block(ls[1..], rest));
      AfterOne(p, ls);
      BlockAdds(AddLine(p, Text(ls[0])), ls[1..], rest);
    }
  }

  // For every event, however its lines are ordered: the decoder returns the last value of
  // the event field and all values of the data fields, one per line, but for empty ones
  // before the first that is not; without such a one it goes on to the next event.
  lemma {:induction false} BlockDecodes(ls: seq<BlockLine>, rest: string)
    requires forall i :: 0 <= i < |ls| ==> GoodLine(ls[i])
    ensures var event := if LastValue(ls, "event").Some? then LastValue(ls, "event").value else "";
      var data := JoinLines(FromFirstText(Values(ls, "data")));
      Decode(START, Block(ls, Ln("", rest))) ==
        if data != "" then Some((Partial(event, data), rest)) else Decode(Partial(event, ""), rest)
  {
    hide Decode, Ln, AddLine;
    BlockAdds(START, ls, Ln("", rest));
    AppendJoins("", Values(ls, "data"));
    var event := if LastValue(ls, "event").Some? then LastValue(ls, "event").value else "";
    BlankLine(Partial(event, JoinLines(FromFirstText(Values(ls, "data")))), rest);
  }

  // ---------------------------------------------------------------- CRs

  lemma {:induction false} NextCharacter(c: char, s: string)
    ensures WithoutCR([c] + s) == (if c == '\r' then "" else [c]) + WithoutCR(s)
  {
    assert ([c] + s)[1..] == s;
  }

  lemma {:induction false} DropCR(a: string, b: string)
    ensures WithoutCR(a + "\r" + b) == WithoutCR(a + b)
  {
    hide WithoutCR;
    if a == "" {
      NextCharacter('\r', b);
      assert a + "\r" + b == "\r" + b && a + b == b && "" + WithoutCR(b) == WithoutCR(b);
    } else {
      var c, rest := a[0], a[1..];
      DropCR(rest, b);
      NextCharacter(c, rest + "\r" + b);
      NextCharacter(c, rest + b);
      assert a + "\r" + b == [c] + (rest + "\r" + b) && a + b == [c] + (rest + b);
    }
  }

  lemma {:induction false} LineEndsAt(line: string, rest: string)
    requires '\n' !in line
    ensures NextLine(line + "\n" + rest) == Some((WithoutCR(line), rest)) && NextLine(line).None?
  {
    var s := line + "\n" + rest;
    assert s[|line|] == '\n' && s[..|line|] == line && s[|line| + 1..] == rest;
    forall k | 0 <= k < |line| ensures s[k] != '\n' && line[k] != '\n' { assert s[k] == line[k] && line[k] in line; }
  }

  // Where the first LF splits a text.
  lemma {:induction false} SplitAtLF(s: string) returns (line: string, rest: string)
    ensures '\n' !in line && (s == line || s == line + "\n" + rest)
  {
    var i := IndexOf(s, '\n');
    line, rest := s[..i], if i < |s| then s[i + 1..] else "";
    assert i < |s| ==> s == s[..i] + [s[i]] + s[i + 1..];
  }

  // The next line does not show the CR; if it is not in that line, it is still to come.
  lemma {:induction false} LineWithCR(a: string, b: string) returns (left: string)
    ensures match (NextLine(a + b), NextLine(a + "\r" + b))
      case (None, None) => true
      case (Some((line, rest)), Some((line', rest'))) =>
        line == line' && (rest == rest' || (rest == left + b && rest' == left + "\r" + b))
      case _ => false
  {
    hide NextLine, WithoutCR;
    var x, y := SplitAtLF(a);
    left := y;
    if a == x {
      var z, w := SplitAtLF(b);
      LineEndsAt(x + z, w);
      LineEndsAt(x + "\r" + z, w);
      DropCR(x, z);
      if b != z {
        assert a + b == (x + z) + "\n" + w;
        assert a + "\r" + b == (x + "\r" + z) + "\n" + w;
      }
    } else {
      LineEndsAt(x, y + b);
      LineEndsAt(x, y + "\r" + b);
      assert a + b == x + "\n" + (y + b);
      assert a + "\r" + b == x + "\n" + (y + "\r" + b);
    }
  }

  lemma {:induction false} EventWithCR(p: Partial, a: string, b: string) returns (left: string)
    ensures match (Decode(p, a + b), Decode(p, a + "\r" + b))
      case (None, None) => true
      case (Some((q, rest)), Some((q', rest'))) =>
        q == q' && (rest == rest' || (rest == left + b && rest' == left + "\r" + b))
      case _ => false
    decreases |a| + |b|
  {
    hide NextLine, AddLine;
    var s, t := a + b, a + "\r" + b;
    left := LineWithCR(a, b);
    if NextLine(s).Some? {
      var (line, rest) := NextLine(s).value;
      var rest' := NextLine(t).value.1;
      if !(line == "" && p.data != "") && rest != rest' {
        left := EventWithCR(AddLine(p, line), left, b);
      }
    }
  }

  // A CR changes nothing, wherever it stands: before an LF, alone, or within a field.
  lemma {:induction false} CRsAreIgnored(a: string, b: string)
    ensures DecodeAll(a + "\r" + b) == DecodeAll(a + b)
    decreases |a| + |b|
  {
    hide Decode;
    var left := EventWithCR(START, a, b);
    if Decode(START, a + b).Some? {
      var rest := Decode(START, a + b).value.1;
      if rest != Decode(START, a + "\r" + b).value.1 { CRsAreIgnored(left, b); }
    }
  }

  // Section 9.2.6 of the HTML standard keeps every value of the data fields. The decoder
  // has the same text exactly when there are no two values of which the first is empty.
  lemma {:induction false} DataAsStandardIff(vs: seq<string>)
    ensures JoinLines(FromFirstText(vs)) == JoinLines(vs) <==> |vs| <= 1 || vs[0] != ""
  {
    if |vs| > 1 && vs[0] == "" {
      TextShrinks(vs[1..]);
      assert |JoinLines(vs)| == 1 + |JoinLines(vs[1..])|;
    }
  }

  lemma {:induction false} TextShrinks(vs: seq<string>)
    ensures |JoinLines(FromFirstText(vs))| <= |JoinLines(vs)|
  {
    if vs != [] && vs[0] == "" { TextShrinks(vs[1..]); }
  }
}
