/** The decoder of internal/ai/llm.go over an in-memory reader. */
module Sse {
  import opened Wrappers
  import Spec = SseSpec

  // A reader that hands out one character at a time and then reports the end.
  class Reader {
    var unread: string

    constructor (text: string)
      ensures unread == text
    {
      unread := text;
    }

    method Read() returns (c: Option<char>)
      modifies this
      ensures old(unread) == "" ==> c == None && unread == ""
      ensures old(unread) != "" ==> c == Some(old(unread)[0]) && unread == old(unread)[1..]
    {
      if unread == "" { return None; }
      c := Some(unread[0]);
      unread := unread[1..];
    }
  }

  class SSEDecoder {
    const r: Reader
    var buf: string

    constructor (r: Reader)
      ensures this.r == r
    {
      this.r := r;
      buf := "";
    }

    // At the end of the text the characters of an unfinished line are lost.
    method ReadLine() returns (line: Option<string>)
      modifies r
      ensures match Spec.NextLine(old(r.unread))
        case Some((l, rest)) => line == Some(l) && r.unread == rest
        case None => line == None && r.unread == ""
    {
      var text := "";
      ghost var all := r.unread;
      ghost var i := 0;
      while true
        invariant i <= |all| && r.unread == all[i..]
        invariant text == Spec.WithoutCR(all[..i]) && forall j :: 0 <= j < i ==> all[j] != '\n'
        decreases |all| - i
      {
        var c := r.Read();
        if c == None { return None; }
        if c.value == '\n' {
          assert Spec.IndexOf(all, '\n') == i;
          return Some(text);
        }
        DropCR(all, i);
        if c.value != '\r' { text := text + [c.value]; }
        i := i + 1;
      }
    }

    static lemma {:induction false} DropCR(s: string, i: nat)
      requires i < |s|
      ensures Spec.WithoutCR(s[..i + 1]) == Spec.WithoutCR(s[..i]) + if s[i] == '\r' then "" else [s[i]]
    {
      if i > 0 {
        var t := s[1..];
        DropCR(t, i - 1);
        assert s[..i + 1][1..] == t[..i] && s[..i][1..] == t[..i - 1];
        var head := if s[0] == '\r' then "" else [s[0]];
        assert Spec.WithoutCR(s[..i + 1]) == head + Spec.WithoutCR(t[..i]);
        assert Spec.WithoutCR(s[..i]) == head + Spec.WithoutCR(t[..i - 1]);
      }
    }

    // None stands for the end of the text.
    method Decode() returns (result: Option<(string, string)>)
      modifies this, r
      ensures match Spec.Decode(Spec.START, old(r.unread))
        case Some((p, rest)) => result == Some((p.event, p.data)) && r.unread == rest
        case None => result == None && r.unread == ""
    {
      hide Spec.NextLine, Spec.SplitLine;
      buf := "";
      var event := "";
      ghost var all := r.unread;
      while true
        invariant Spec.Decode(Spec.START, all) == Spec.Decode(Spec.Partial(event, buf), r.unread)
        decreases |r.unread|
      {
        var line := ReadLine();
        if line == None { return None; }
        if line.value == "" {
          NoFields();
          if buf != "" { return Some((event, buf)); }
          continue;
        }
        if line.value[0] == ':' { continue; }
        var parts := Spec.SplitLine(line.value);
        if parts == None { continue; }
        match parts.value.0
        case "event" => event := parts.value.1;
        case "data" =>
          if buf != "" { buf := buf + "\n"; }
          assert "" + parts.value.1 == parts.value.1;
          buf := buf + parts.value.1;
        case _ =>
      }
    }

    lemma {:induction false} NoFields()
      ensures Spec.SplitLine("") == None
    {
    }
  }
}
