/**
  Server-sent events of internal/ai/llm.go: the frames the service writes, and what
  its decoder makes of a text, on values. Text is a sequence of characters; the
  decoder looks for CR, LF, ':' and white space only, so reading it byte by byte, as
  the service does, makes no difference on valid UTF-8.
 */
module SseSpec {
  import opened Wrappers

  // ---------------------------------------------------------------- lines

  predicate IsSpace(c: char) {
    c in {'\t', '\n', '\U{0B}', '\U{0C}', '\r', ' ', '\U{85}', '\U{A0}', '\U{1680}', '\U{2028}', '\U{2029}', '\U{202F}',
          '\U{205F}', '\U{3000}'} || '\U{2000}' <= c <= '\U{200A}'
  }

  function TrimLeft(s: string): (r: string)
    ensures |r| <= |s|
  {
    if s != "" && IsSpace(s[0]) then TrimLeft(s[1..]) else s
  }

  function TrimRight(s: string): (r: string)
    ensures |r| <= |s|
  {
    if s != "" && IsSpace(s[|s| - 1]) then TrimRight(s[..|s| - 1]) else s
  }

  function TrimSpace(s: string): string { TrimRight(TrimLeft(s)) }

  // Position of the first c, or |s|.
  function IndexOf(s: string, c: char): (i: nat)
    ensures i <= |s| && forall j :: 0 <= j < i ==> s[j] != c
    ensures i < |s| ==> s[i] == c
  {
    if s == "" || s[0] == c then 0 else 1 + IndexOf(s[1..], c)
  }

  function WithoutCR(s: string): (r: string)
    ensures |r| <= |s| && '\r' !in r
    ensures '\n' !in s ==> '\n' !in r
  {
    if s == "" then "" else (if s[0] == '\r' then "" else [s[0]]) + WithoutCR(s[1..])
  }

  // A complete line, its CRs dropped, and the text after it.
  function NextLine(s: string): (r: Option<(string, string)>)
    ensures r.Some? ==> |r.value.1| < |s| && |r.value.0| + |r.value.1| < |s|
  {
    var i := IndexOf(s, '\n');
    if i < |s| then Some((WithoutCR(s[..i]), s[i + 1..])) else None
  }

  // The field name and the value of a line; None without a colon.
  function SplitLine(line: string): (r: Option<(string, string)>)
    ensures r.Some? ==> |r.value.1| < |line|
    ensures forall c :: c !in line && r.Some? ==> c !in r.value.1
  {
    var i := IndexOf(line, ':');
    if i == |line| then None
    else
      var value := line[i + 1..];
      Some((TrimSpace(line[..i]), if value != "" && value[0] == ' ' then value[1..] else value))
  }

  // --------------------------------------------------------------- decoding

  // What has been read of a frame so far.
  datatype Partial = Partial(event: string, data: string)

  function AddLine(p: Partial, line: string): Partial {
    if line != "" && line[0] == ':' then p
    else match SplitLine(line)
      case None => p
      case Some((field, value)) =>
        if field == "event" then p.(event := value)
        else if field == "data" then p.(data := if p.data != "" then p.data + "\n" + value else value)
        else p
  }

  // One call of Decode: an event, its data and the text left, or None at the end of
  // the text.
  function Decode(p: Partial, s: string): (r: Option<(Partial, string)>)
    ensures r.Some? ==> |r.value.1| < |s|
    decreases |s|
  {
    match NextLine(s)
    case None => None
    case Some((line, rest)) =>
      if line == "" && p.data != "" then Some((p, rest)) else Decode(AddLine(p, line), rest)
  }

  const START := Partial("", "")

  // Decode until the end of the text.
  function DecodeAll(s: string): seq<Partial>
    decreases |s|
  {
    match Decode(START, s)
    case None => []
    case Some((p, rest)) => [p] + DecodeAll(rest)
  }

  // ---------------------------------------------------------------- frames

  function Frame(event: string, data: string): string {
    "event: " + event + "\ndata: " + data + "\n\n"
  }

  // A frame with comment lines before each of its three lines.
  datatype Noisy = Noisy(event: string, data: string, c0: seq<string>, c1: seq<string>, c2: seq<string>)

  // A line and the text behind it.
  function Ln(line: string, rest: string): string { line + "\n" + rest }

  function Comments(cs: seq<string>, rest: string): string {
    if cs == [] then rest else Ln(":" + cs[0], Comments(cs[1..], rest))
  }

  function Print(n: Noisy, rest: string): string {
    Comments(n.c0, Ln("event: " + n.event, Comments(n.c1, Ln("data: " + n.data, Comments(n.c2, Ln("", rest))))))
  }

  function PrintAll(ns: seq<Noisy>, rest: string): string {
    if ns == [] then rest else Print(ns[0], PrintAll(ns[1..], rest))
  }

  // Without comments this is what the service writes.
  lemma {:induction false} QuietPrintIsFrame(event: string, data: string, rest: string)
    ensures Print(Noisy(event, data, [], [], []), rest) == Frame(event, data) + rest
  {
    var e, d := "event: " + event, "data: " + data;
    assert Frame(event, data) == e + "\n" + d + "\n" + "\n";
    assert Print(Noisy(event, data, [], [], []), rest) == e + "\n" + (d + "\n" + ("" + "\n" + rest));
  }

  predicate OneLine(s: string) { '\r' !in s && '\n' !in s }

  ghost predicate Quiet(cs: seq<string>) { forall i :: 0 <= i < |cs| ==> '\n' !in cs[i] }

  ghost predicate Proper(n: Noisy) {
    OneLine(n.event) && OneLine(n.data) && Quiet(n.c0) && Quiet(n.c1) && Quiet(n.c2)
  }

  // The frames that carry data.
  function WithData(ns: seq<Noisy>): seq<Partial> {
    if ns == [] then []
    else (if ns[0].data != "" then [Partial(ns[0].event, ns[0].data)] else []) + WithData(ns[1..])
  }

  // ------------------------------------------------------------ round trip

  lemma {:induction false} NoCR(s: string)
    requires '\r' !in s
    ensures WithoutCR(s) == s
  {
    if s != "" { assert s[0] in s; NoCR(s[1..]); }
  }

  lemma {:induction false} FirstLine(line: string, rest: string)
    requires '\n' !in line
    ensures NextLine(Ln(line, rest)) == Some((WithoutCR(line), rest))
  {
    var s := Ln(line, rest);
    assert s[..|line|] == line && s[|line| + 1..] == rest;
    forall j | 0 <= j < |line| ensures s[j] != '\n' { assert s[j] == line[j] && line[j] in line; }
    assert s[|line|] == '\n' && IndexOf(s, '\n') == |line|;
  }

  lemma {:induction false} EventLine(p: Partial, value: string)
    requires OneLine(value)
    ensures AddLine(p, "event: " + value) == p.(event := value)
  {
    var line := "event: " + value;
    assert line[..5] == "event" && line[5] == ':' && line[6..] == " " + value;
    assert IndexOf(line, ':') == 5;
    assert TrimSpace("event") == "event";
  }

  lemma {:induction false} DataLine(p: Partial, value: string)
    requires OneLine(value)
    ensures AddLine(p, "data: " + value) == p.(data := if p.data != "" then p.data + "\n" + value else value)
  {
    var line := "data: " + value;
    assert line[..4] == "data" && line[4] == ':' && line[5..] == " " + value;
    assert IndexOf(line, ':') == 4;
    assert TrimSpace("data") == "data";
  }

  // Comment lines change nothing.
  lemma {:induction false} SkipComments(p: Partial, cs: seq<string>, rest: string)
    requires Quiet(cs)
    ensures Decode(p, Comments(cs, rest)) == Decode(p, rest)
  {
    if cs != [] {
      hide Ln, NextLine;
      var line := ":" + cs[0];
      FirstLine(line, Comments(cs[1..], rest));
      assert WithoutCR(line) == ":" + WithoutCR(cs[0]) by { assert line[1..] == cs[0]; }
      SkipComments(p, cs[1..], rest);
    }
  }

  lemma {:induction false} ReadLine(p: Partial, line: string, rest: string)
    requires OneLine(line) && (line == "" ==> p.data == "")
    ensures Decode(p, Ln(line, rest)) == Decode(AddLine(p, line), rest)
  {
    hide Ln, NextLine;
    FirstLine(line, rest);
    NoCR(line);
  }

  // A frame ends the call when it has data, and otherwise leaves the call waiting for
  // one that does.
  lemma {:induction false} FrameBack(p: Partial, n: Noisy, rest: string)
    requires Proper(n) && p.data == ""
    ensures Decode(p, Print(n, rest)) ==
      if n.data != "" then Some((Partial(n.event, n.data), rest)) else Decode(Partial(n.event, ""), rest)
  {
    hide Ln, NextLine, Comments, Decode, Quiet, AddLine;
    var t2 := Comments(n.c2, Ln("", rest));
    var t1 := Comments(n.c1, Ln("data: " + n.data, t2));
    var e, d := Partial(n.event, ""), Partial(n.event, n.data);
    SkipComments(p, n.c0, Ln("event: " + n.event, t1));
    ReadLine(p, "event: " + n.event, t1);
    EventLine(p, n.event);
    SkipComments(e, n.c1, Ln("data: " + n.data, t2));
    ReadLine(e, "data: " + n.data, t2);
    DataLine(e, n.data);
    SkipComments(d, n.c2, Ln("", rest));
    BlankLine(d, rest);
  }

  lemma {:induction false} BlankLine(p: Partial, rest: string)
    ensures Decode(p, Ln("", rest)) == if p.data != "" then Some((p, rest)) else Decode(p, rest)
  {
    hide Ln, NextLine;
    FirstLine("", rest);
  }

  // For every list of frames with one-line events and data, comments anywhere, and
  // text behind them that holds no complete event, decoding to the end returns the
  // frames that carry data, in order; so the list itself when they all do.
  lemma {:induction false} FramesRoundTrip(p: Partial, ns: seq<Noisy>, cs: seq<string>, cut: string)
    requires (forall i :: 0 <= i < |ns| ==> Proper(ns[i])) && Quiet(cs) && '\n' !in cut && p.data == ""
    ensures DecodeFrom(p, PrintAll(ns, Comments(cs, cut))) == WithData(ns)
    decreases |ns|
  {
    if ns == [] {
      SkipComments(p, cs, cut);
      assert NextLine(cut) == None;
    } else {
      hide Print, Decode, Proper, Comments;
      FrameBack(p, ns[0], PrintAll(ns[1..], Comments(cs, cut)));
      FramesRoundTrip(if ns[0].data != "" then START else Partial(ns[0].event, ""), ns[1..], cs, cut);
    }
  }

  // DecodeAll, with the first call already under way.
  function DecodeFrom(p: Partial, s: string): seq<Partial> {
    match Decode(p, s)
    case None => []
    case Some((q, rest)) => [q] + DecodeAll(rest)
  }

  // ----------------------------------------------- when a frame comes back

  lemma {:induction false} LineIsClean(s: string)
    requires NextLine(s).Some?
    ensures OneLine(NextLine(s).value.0)
  {
    var i := IndexOf(s, '\n');
    assert '\n' !in s[..i];
  }

  // Whatever is decoded has a one-line event, and data without CR.
  lemma {:induction false} DecodedIsClean(p: Partial, s: string)
    requires Decode(p, s).Some? && OneLine(p.event) && '\r' !in p.data
    ensures var q := Decode(p, s).value.0; OneLine(q.event) && '\r' !in q.data && q.data != ""
    decreases |s|
  {
    var (line, rest) := NextLine(s).value;
    LineIsClean(s);
    if line != "" || p.data == "" { DecodedIsClean(AddLine(p, line), rest); }
  }

  // Data that grows does so by less than the text read.
  lemma {:induction false} DataGrowth(p: Partial, s: string)
    requires Decode(p, s).Some?
    ensures var q := Decode(p, s).value.0; q.data == p.data || |q.data| + 2 <= |p.data| + |s|
    decreases |s|
  {
    var (line, rest) := NextLine(s).value;
    if line != "" || p.data == "" { DataGrowth(AddLine(p, line), rest); }
  }

  // A frame comes back as written exactly when the event and the data have no line
  // breaks in them and there is some data.
  lemma {:induction false} FrameComesBackIff(event: string, data: string)
    ensures Decode(START, Frame(event, data)) == Some((Partial(event, data), "")) <==>
      OneLine(event) && OneLine(data) && data != ""
  {
    hide Frame, Ln, NextLine, AddLine, Decode;
    var n := Noisy(event, data, [], [], []);
    QuietPrintIsFrame(event, data, "");
    assert Frame(event, data) + "" == Frame(event, data) == Print(n, "");
    if OneLine(event) && OneLine(data) && data != "" { FrameBack(START, n, ""); }
    if Decode(START, Print(n, "")) == Some((Partial(event, data), "")) {
      DecodedIsClean(START, Print(n, ""));
      ReadLine(START, "event: " + event, Ln("data: " + data, Ln("", "")));
      EventLine(START, event);
      if '\n' in data { BrokenDataIsLost(Partial(event, ""), data); }
    }
  }

  // Of data with a line break, the decoder never makes that data again.
  lemma {:induction false} BrokenDataIsLost(p: Partial, data: string)
    requires '\n' in data && '\r' !in data && p.data == ""
    ensures var r := Decode(p, Ln("data: " + data, Ln("", ""))); r.Some? ==> r.value.0.data != data
  {
    var i := IndexOf(data, '\n');
    var d, d' := data[..i], data[i + 1..];
    assert '\n' !in d && '\r' !in d;
    var rest := Ln(d', Ln("", ""));
    assert Ln("data: " + data, Ln("", "")) == Ln("data: " + d, rest) by {
      assert data == d + "\n" + d';
    }
    ReadLine(p, "data: " + d, rest);
    DataLine(p, d);
    if Decode(p.(data := d), rest).Some? { DataGrowth(p.(data := d), rest); }
  }
}
