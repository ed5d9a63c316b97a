/**
  The CSV export of internal/audit, and a reader of comma-separated records written
  after section 2 of RFC 4180 to read it back.
 */
module AuditCsv {
  import opened Wrappers
  import opened AuditChain

  // --------------------------------------------------------------- writing

  predicate NeedsQuotes(s: string) { ',' in s || '"' in s || '\n' in s }

  function DoubleQuotes(s: string): string {
    if s == "" then "" else (if s[0] == '"' then "\"\"" else [s[0]]) + DoubleQuotes(s[1..])
  }

  function EscapeCSV(s: string): string {
    if NeedsQuotes(s) then "\"" + DoubleQuotes(s) + "\"" else s
  }

  // How a time is written is a parameter; RFC 3339 has no character that needs quotes.
  type TimeFormat = int -> string

  const HEADER := [
    "id", "timestamp", "user_id", "action", "resource", "resource_id", "status", "ip", "user_agent", "details"]
  const HEADER_LINE := "id" + ("," + ("timestamp" + ("," + ("user_id" + ("," + ("action" + ("," + ("resource" + ("," +
    ("resource_id" + ("," + ("status" + ("," + ("ip" + ("," + ("user_agent" + ("," + ("details" + "\n"))))))))))))))))))

  function Columns(format: TimeFormat, e: Event): (r: seq<string>)
    ensures |r| == 10 && r[9] == e.details
  {
    [e.id, format(e.timestamp), e.userID, e.action, e.resource, e.resourceID, e.status, e.ip, e.userAgent, e.details]
  }

  function Line(format: TimeFormat, e: Event): string {
    EscapeCSV(e.id) + ("," + (format(e.timestamp) + ("," + (EscapeCSV(e.userID) + ("," + (EscapeCSV(e.action) + ("," +
    (EscapeCSV(e.resource) + ("," + (EscapeCSV(e.resourceID) + ("," + (EscapeCSV(e.status) + ("," +
    (EscapeCSV(e.ip) + ("," + (EscapeCSV(e.userAgent) + ("," + (EscapeCSV(e.details) + "\n"))))))))))))))))))
  }

  function Lines(format: TimeFormat, es: seq<Event>): string {
    if es == [] then "" else Line(format, es[0]) + Lines(format, es[1..])
  }

  lemma {:induction false} LinesAppend(format: TimeFormat, es: seq<Event>, e: Event)
    ensures Lines(format, es + [e]) == Lines(format, es) + Line(format, e)
  {
    hide Line;
    if es == [] {
      assert (es + [e])[1..] == [];
    } else {
      assert (es + [e])[1..] == es[1..] + [e];
      LinesAppend(format, es[1..], e);
    }
  }

  method ExportCSV(format: TimeFormat, events: seq<Event>) returns (text: string)
    ensures text == HEADER_LINE + Lines(format, events)
  {
    hide Line, Lines;
    var header := HEADER_LINE;
    text := "";
    assert Lines(format, events[..0]) == "" by { NoLines(format); }
    for i := 0 to |events|
      invariant text == Lines(format, events[..i])
    {
      LinesAppend(format, events[..i], events[i]);
      assert events[..i + 1] == events[..i] + [events[i]];
      text := text + Line(format, events[i]);
    }
    assert events[..|events|] == events;
    text := header + text;
  }

  lemma {:induction false} NoLines(format: TimeFormat)
    ensures Lines(format, []) == ""
  {
  }

  // --------------------------------------------------------------- reading

  // What ends a record: LF alone, or also CR LF as the RFC writes it. In the second
  // case a CR before the LF belongs to the line break.
  datatype LineEnd = LF | CRLF

  // A field and the text after it, which is empty or starts with what follows the
  // field; None when the text is malformed.
  function ReadPlain(s: string): (r: Option<(string, string)>)
    ensures r.Some? ==> |r.value.1| <= |s|
  {
    if s == "" || s[0] == ',' || s[0] == '\n' then Some(("", s))
    else if s[0] == '"' then None
    else match ReadPlain(s[1..])
      case None => None
      case Some((f, rest)) => Some(([s[0]] + f, rest))
  }

  function ReadQuoted(s: string): (r: Option<(string, string)>)
    ensures r.Some? ==> |r.value.1| < |s|
  {
    if s == "" then None
    else if s[0] != '"' then
      match ReadQuoted(s[1..])
      case None => None
      case Some((f, rest)) => Some(([s[0]] + f, rest))
    else if |s| > 1 && s[1] == '"' then
      match ReadQuoted(s[2..])
      case None => None
      case Some((f, rest)) => Some(("\"" + f, rest))
    else Some(("", s[1..]))
  }

  // Leaves to the line break what belongs to it.
  function TrimEnd(end: LineEnd, f: string, rest: string): string {
    if end == CRLF && rest != "" && rest[0] == '\n' && f != "" && f[|f| - 1] == '\r' then f[..|f| - 1] else f
  }

  function ReadField(end: LineEnd, s: string): (r: Option<(string, string)>)
    ensures r.Some? ==> |r.value.1| <= |s|
  {
    if s != "" && s[0] == '"' then
      match ReadQuoted(s[1..])
      case None => None
      case Some((f, rest)) =>
        Some((f, if end == CRLF && |rest| > 1 && rest[..2] == "\r\n" then rest[1..] else rest))
    else
      match ReadPlain(s)
      case None => None
      case Some((f, rest)) => Some((TrimEnd(end, f, rest), rest))
  }

  function ReadRecord(end: LineEnd, s: string): (r: Option<(seq<string>, string)>)
    ensures r.Some? && s != "" ==> |r.value.1| < |s|
    decreases |s|
  {
    match ReadField(end, s)
    case None => None
    case Some((f, rest)) =>
      if rest == "" then Some(([f], ""))
      else if rest[0] == '\n' then Some(([f], rest[1..]))
      else if rest[0] != ',' then None
      else match ReadRecord(end, rest[1..])
        case None => None
        case Some((fs, after)) => Some(([f] + fs, after))
  }

  function ReadAll(end: LineEnd, s: string): Option<seq<seq<string>>>
    decreases |s|
  {
    if s == "" then Some([])
    else match ReadRecord(end, s)
      case None => None
      case Some((fs, rest)) =>
        match ReadAll(end, rest)
        case None => None
        case Some(records) => Some([fs] + records)
  }

  // ------------------------------------------------------------ round trip

  // What a reader with this line end makes of the last field of a record.
  function AtLineEnd(end: LineEnd, f: string): string {
    if NeedsQuotes(f) then f else TrimEnd(end, f, "\n")
  }

  lemma {:induction false} PlainField(f: string, tail: string)
    requires !NeedsQuotes(f) && tail != "" && (tail[0] == ',' || tail[0] == '\n')
    ensures ReadPlain(f + tail) == Some((f, tail))
  {
    if f == "" {
      assert f + tail == tail;
    } else {
      assert f[0] in f && (f + tail)[1..] == f[1..] + tail;
      PlainField(f[1..], tail);
      assert [f[0]] + f[1..] == f;
    }
  }

  lemma {:induction false} QuotedField(f: string, tail: string)
    requires tail != "" && tail[0] != '"'
    ensures ReadQuoted(DoubleQuotes(f) + "\"" + tail) == Some((f, tail))
  {
    var text := DoubleQuotes(f) + "\"" + tail;
    if f == "" {
      assert text == "\"" + tail;
    } else {
      var rest := DoubleQuotes(f[1..]) + "\"" + tail;
      QuotedField(f[1..], tail);
      assert [f[0]] + f[1..] == f;
      if f[0] == '"' { assert text == "\"\"" + rest && text[2..] == rest; } else {
        assert text == [f[0]] + rest && text[1..] == rest;
      }
    }
  }

  lemma {:induction false} QuotedRoundTrip(end: LineEnd, f: string, tail: string)
    requires tail != "" && (tail[0] == ',' || tail[0] == '\n') && NeedsQuotes(f)
    ensures ReadField(end, EscapeCSV(f) + tail) == Some((f, tail))
  {
    hide DoubleQuotes, NeedsQuotes, ReadQuoted;
    var text := EscapeCSV(f) + tail;
    QuotedField(f, tail);
    assert text[0] == '"' && text[1..] == DoubleQuotes(f) + "\"" + tail;
    assert |tail| > 1 ==> tail[..2][0] == tail[0];
  }

  lemma {:induction false} PlainRoundTrip(end: LineEnd, f: string, tail: string)
    requires tail != "" && (tail[0] == ',' || tail[0] == '\n') && !NeedsQuotes(f)
    ensures ReadField(end, EscapeCSV(f) + tail) == Some((TrimEnd(end, f, tail), tail))
  {
    hide ReadPlain, TrimEnd;
    PlainField(f, tail);
    if f != "" { assert f[0] in f && (f + tail)[0] == f[0]; } else { assert f + tail == tail; }
  }

  lemma {:induction false} FieldRoundTrip(end: LineEnd, f: string, tail: string)
    requires tail != "" && (tail[0] == ',' || tail[0] == '\n')
    ensures ReadField(end, EscapeCSV(f) + tail) == Some((if tail[0] == '\n' then AtLineEnd(end, f) else f, tail))
  {
    hide EscapeCSV, ReadField, NeedsQuotes;
    if NeedsQuotes(f) { QuotedRoundTrip(end, f, tail); } else { PlainRoundTrip(end, f, tail); }
  }

  // The fields, escaped and separated by commas, and then the tail.
  function Join(fs: seq<string>, tail: string): string
    requires fs != []
  {
    EscapeCSV(fs[0]) + if |fs| == 1 then tail else "," + Join(fs[1..], tail)
  }

  lemma {:induction false} JoinThen(fs: seq<string>, a: string, b: string)
    requires fs != []
    ensures Join(fs, a) + b == Join(fs, a + b)
  {
    hide EscapeCSV;
    if |fs| > 1 { JoinThen(fs[1..], a, b); }
  }

  // The record as the reader sees it.
  function Seen(end: LineEnd, fs: seq<string>): seq<string>
    requires fs != []
  {
    fs[..|fs| - 1] + [AtLineEnd(end, fs[|fs| - 1])]
  }

  lemma {:induction false} RecordRoundTrip(end: LineEnd, fs: seq<string>, tail: string)
    requires fs != []
    ensures ReadRecord(end, Join(fs, "\n" + tail)) == Some((Seen(end, fs), tail))
    decreases |fs|
  {
    hide EscapeCSV, ReadField, AtLineEnd;
    if |fs| == 1 {
      FieldRoundTrip(end, fs[0], "\n" + tail);
      assert Seen(end, fs) == [AtLineEnd(end, fs[0])];
    } else {
      var rest := Join(fs[1..], "\n" + tail);
      FieldRoundTrip(end, fs[0], "," + rest);
      assert ("," + rest)[1..] == rest;
      RecordRoundTrip(end, fs[1..], tail);
      assert Seen(end, fs) == [fs[0]] + Seen(end, fs[1..]);
    }
  }

  lemma {:induction false} JoinStep(fs: seq<string>, i: nat, tail: string)
    requires i < |fs|
    ensures Join(fs[i..], tail) == EscapeCSV(fs[i]) + if i + 1 == |fs| then tail else "," + Join(fs[i + 1..], tail)
  {
    assert i + 1 < |fs| ==> fs[i..][1..] == fs[i + 1..];
  }

  lemma {:induction false} LineIsJoin(format: TimeFormat, e: Event)
    requires !NeedsQuotes(format(e.timestamp))
    ensures Line(format, e) == Join(Columns(format, e), "\n")
  {
    var c := Columns(format, e);
    assert EscapeCSV(c[1]) == format(e.timestamp);
    hide EscapeCSV, Join;
    assert c[0..] == c;
    JoinStep(c, 0, "\n"); JoinStep(c, 1, "\n"); JoinStep(c, 2, "\n"); JoinStep(c, 3, "\n"); JoinStep(c, 4, "\n");
    JoinStep(c, 5, "\n"); JoinStep(c, 6, "\n"); JoinStep(c, 7, "\n"); JoinStep(c, 8, "\n"); JoinStep(c, 9, "\n");
  }

  function Records(end: LineEnd, format: TimeFormat, es: seq<Event>): seq<seq<string>> {
    if es == [] then [] else [Seen(end, Columns(format, es[0]))] + Records(end, format, es[1..])
  }

  lemma {:induction false} LinesRoundTrip(end: LineEnd, format: TimeFormat, es: seq<Event>)
    requires forall i :: 0 <= i < |es| ==> !NeedsQuotes(format(es[i].timestamp))
    ensures ReadAll(end, Lines(format, es)) == Some(Records(end, format, es))
  {
    if es != [] {
      hide Line, Columns, ReadRecord, Seen;
      var fs, rest := Columns(format, es[0]), Lines(format, es[1..]);
      LineIsJoin(format, es[0]);
      JoinThen(fs, "\n", rest);
      RecordRoundTrip(end, fs, rest);
      LinesRoundTrip(end, format, es[1..]);
    }
  }

  lemma {:induction false} ShortLabelsArePlain()
    ensures !NeedsQuotes("id") && !NeedsQuotes("ip") && !NeedsQuotes("action") && !NeedsQuotes("status")
  {
  }

  lemma {:induction false} UserLabelsArePlain()
    ensures !NeedsQuotes("user_id") && !NeedsQuotes("user_agent") && !NeedsQuotes("timestamp")
  {
  }

  lemma {:induction false} ObjectLabelsArePlain()
    ensures !NeedsQuotes("resource") && !NeedsQuotes("resource_id") && !NeedsQuotes("details")
  {
  }

  lemma {:induction false} HeaderIsJoin()
    ensures HEADER_LINE == Join(HEADER, "\n")
  {
    hide NeedsQuotes, Join;
    ShortLabelsArePlain();
    UserLabelsArePlain();
    ObjectLabelsArePlain();
    var c := HEADER;
    assert c[0..] == c;
    JoinStep(c, 0, "\n"); JoinStep(c, 1, "\n"); JoinStep(c, 2, "\n"); JoinStep(c, 3, "\n"); JoinStep(c, 4, "\n");
    JoinStep(c, 5, "\n"); JoinStep(c, 6, "\n"); JoinStep(c, 7, "\n"); JoinStep(c, 8, "\n"); JoinStep(c, 9, "\n");
  }

  lemma {:induction false} HeaderIsSeen(end: LineEnd)
    ensures Seen(end, HEADER) == HEADER
  {
    var last := HEADER[9];
    assert last == "details" && last[|last| - 1] == 's';
    assert HEADER == HEADER[..9] + [last];
  }

  lemma {:induction false} HeaderRoundTrip(end: LineEnd, rest: string)
    ensures ReadRecord(end, HEADER_LINE + rest) == Some((HEADER, rest))
  {
    hide Join, Seen, ReadRecord;
    HeaderIsJoin();
    HeaderIsSeen(end);
    JoinThen(HEADER, "\n", rest);
    RecordRoundTrip(end, HEADER, rest);
  }

  function Table(end: LineEnd, format: TimeFormat, es: seq<Event>): seq<seq<string>> {
    [HEADER] + Records(end, format, es)
  }

  // Whatever the fields hold, reading the export back gives the header and one record
  // per event; with a CR LF reader the last field may lose a CR.
  lemma {:induction false} ExportRoundTrip(end: LineEnd, format: TimeFormat, es: seq<Event>)
    requires forall i :: 0 <= i < |es| ==> !NeedsQuotes(format(es[i].timestamp))
    ensures ReadAll(end, HEADER_LINE + Lines(format, es)) == Some(Table(end, format, es))
  {
    hide Lines;
    var rest := Lines(format, es);
    HeaderRoundTrip(end, rest);
    LinesRoundTrip(end, format, es);
    assert |HEADER_LINE| > 0;
  }

  // The columns of every event, untouched.
  function Originals(format: TimeFormat, es: seq<Event>): seq<seq<string>> {
    if es == [] then [] else [Columns(format, es[0])] + Originals(format, es[1..])
  }

  predicate EndsInBareCR(f: string) {
    f != "" && f[|f| - 1] == '\r' && ',' !in f && '"' !in f && '\n' !in f
  }

  // A field is written as it is exactly when it has no comma, quote or LF in it.
  lemma {:induction false} UnquotedIff(f: string)
    ensures EscapeCSV(f) == f <==> ',' !in f && '"' !in f && '\n' !in f
  {
    if NeedsQuotes(f) {
      QuotesGrow(f);
      assert |EscapeCSV(f)| > |f|;
    }
  }

  lemma {:induction false} QuotesGrow(s: string)
    ensures |DoubleQuotes(s)| >= |s|
  {
    if s != "" { QuotesGrow(s[1..]); }
  }

  // What a reader who looks a column up by its label is to find there.
  function Labelled(format: TimeFormat, e: Event, name: string): Option<string> {
    match name
    case "id" => Some(e.id)
    case "timestamp" => Some(format(e.timestamp))
    case "user_id" => Some(e.userID)
    case "action" => Some(e.action)
    case "resource" => Some(e.resource)
    case "resource_id" => Some(e.resourceID)
    case "status" => Some(e.status)
    case "ip" => Some(e.ip)
    case "user_agent" => Some(e.userAgent)
    case "details" => Some(e.details)
    case _ => None
  }

  // Each column stands under the label of its field.
  lemma {:induction false} ColumnsAreLabelled(format: TimeFormat, e: Event, i: nat)
    requires i < |HEADER|
    ensures |Columns(format, e)| == |HEADER| && Labelled(format, e, HEADER[i]) == Some(Columns(format, e)[i])
  {
  }

  // With LF line ends, as the exporter writes them, the original table comes back.
  // A reader that also takes CR LF for a line break gets it back exactly when no
  // details text is left unquoted with a CR at its end: CR is not among the characters
  // that make the exporter quote a field.
  lemma {:induction false} OriginalsComeBackIff(end: LineEnd, format: TimeFormat, es: seq<Event>)
    requires forall i :: 0 <= i < |es| ==> !NeedsQuotes(format(es[i].timestamp))
    ensures ReadAll(end, HEADER_LINE + Lines(format, es)) == Some([HEADER] + Originals(format, es)) <==>
      end == LF || forall i :: 0 <= i < |es| ==> !EndsInBareCR(es[i].details)
  {
    hide Lines, ReadAll;
    ExportRoundTrip(end, format, es);
    RecordsAreOriginals(end, format, es);
    assert Table(end, format, es)[1..] == Records(end, format, es);
    assert ([HEADER] + Originals(format, es))[1..] == Originals(format, es);
  }

  lemma {:induction false} RecordsAreOriginals(end: LineEnd, format: TimeFormat, es: seq<Event>)
    ensures Records(end, format, es) == Originals(format, es) <==>
      end == LF || forall i :: 0 <= i < |es| ==> !EndsInBareCR(es[i].details)
  {
    if es != [] {
      var a, b := Records(end, format, es), Originals(format, es);
      RecordsAreOriginals(end, format, es[1..]);
      assert a[1..] == Records(end, format, es[1..]) && b[1..] == Originals(format, es[1..]);
      SeenIsOriginal(end, Columns(format, es[0]));
      assert a[0] == Seen(end, Columns(format, es[0])) && b[0] == Columns(format, es[0]);
      assert forall i :: 1 <= i < |es| ==> es[i] == es[1..][i - 1];
    }
  }

  lemma {:induction false} SeenIsOriginal(end: LineEnd, fs: seq<string>)
    requires fs != []
    ensures Seen(end, fs) == fs <==> end == LF || !EndsInBareCR(fs[|fs| - 1])
  {
    var last := fs[|fs| - 1];
    assert fs == fs[..|fs| - 1] + [last];
    assert Seen(end, fs)[|fs| - 1] == AtLineEnd(end, last);
    if end == CRLF && EndsInBareCR(last) { assert |AtLineEnd(end, last)| == |last| - 1; }
  }
}
