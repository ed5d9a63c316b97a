/** The BER printers and parsers of internal/auth/ldap_provider.go, byte by byte. */
module Ber {

  type byte = x: int | 0 <= x < 256
  type Bytes = seq<byte>

  datatype Element = Element(tag: byte, content: Bytes)

  // A length above 255 is cut to 255.
  function EncLen(n: int): byte { if n > 255 || n < 0 then 255 else n }

  function Encode(e: Element): Bytes { [e.tag, EncLen(|e.content|)] + e.content }

  function EncodeOctetString(data: Bytes): Bytes { Encode(Element(0x04, data)) }

  function EncodeAll(es: seq<Element>): Bytes {
    if es == [] then [] else Encode(es[0]) + EncodeAll(es[1..])
  }

  // The data starts with a complete element.
  predicate Starts(data: Bytes) { |data| >= 2 && |data| >= Span(data) }

  // The bytes of the element whose tag and length come first.
  function Span(data: Bytes): nat
    requires |data| >= 2
  {
    2 + (data[1] as int)
  }

  function First(data: Bytes): Element
    requires Starts(data)
  {
    Element(data[0], data[2..Span(data)])
  }

  function Rest(data: Bytes): (r: Bytes)
    requires Starts(data)
    ensures |r| < |data|
  {
    data[Span(data)..]
  }

  function Parse(data: Bytes): seq<Element>
    decreases |data|
  {
    if Starts(data) then [First(data)] + Parse(Rest(data)) else []
  }

  lemma {:induction false} ParseStep(data: Bytes, pos: nat)
    requires pos <= |data|
    ensures if pos + 2 <= |data| && pos + 2 + data[pos + 1] as int <= |data| then
        var next := pos + 2 + data[pos + 1] as int;
        Parse(data[pos..]) == [Element(data[pos], data[pos + 2..next])] + Parse(data[next..])
      else Parse(data[pos..]) == []
  {
    var left := data[pos..];
    if Starts(left) {
      var next := pos + Span(left);
      assert left[2..Span(left)] == data[pos + 2..next];
      assert Rest(left) == data[next..];
    }
  }

  method ParseBER(data: Bytes) returns (out: seq<Element>)
    ensures out == Parse(data)
  {
    hide Parse;
    out := [];
    var pos := 0;
    assert data[0..] == data;
    while pos + 2 <= |data|
      invariant pos <= |data| && out + Parse(data[pos..]) == Parse(data)
      decreases |data| - pos
    {
      ParseStep(data, pos);
      var tag, length: int := data[pos], data[pos + 1];
      if pos + 2 + length > |data| { break; }
      out := out + [Element(tag, data[pos + 2..pos + 2 + length])];
      pos := pos + 2 + length;
    }
    ParseStep(data, pos);
  }

  // ------------------------------------------------- printing and parsing

  ghost predicate Fits(e: Element) { |e.content| <= 255 }

  ghost predicate AllFit(es: seq<Element>) { forall i :: 0 <= i < |es| ==> Fits(es[i]) }

  lemma {:induction false} OneBack(e: Element, tail: Bytes)
    requires Fits(e)
    ensures Parse(Encode(e) + tail) == [e] + Parse(tail)
  {
    var data := Encode(e) + tail;
    assert Starts(data) && First(data) == e && Rest(data) == tail;
  }

  lemma {:induction false} Associate<T>(a: seq<T>, b: seq<T>, c: seq<T>)
    ensures (a + b) + c == a + (b + c)
  {
  }

  lemma {:induction false} AllBack(es: seq<Element>, tail: Bytes)
    requires AllFit(es)
    ensures Parse(EncodeAll(es) + tail) == es + Parse(tail)
  {
    if es == [] {
      assert EncodeAll(es) + tail == tail;
    } else {
      hide Encode, Parse;
      var later := EncodeAll(es[1..]) + tail;
      Associate(Encode(es[0]), EncodeAll(es[1..]), tail);
      OneBack(es[0], later);
      AllBack(es[1..], tail);
      Associate([es[0]], es[1..], Parse(tail));
      assert [es[0]] + es[1..] == es;
    }
  }

  lemma {:induction false} ParsedFit(data: Bytes)
    ensures AllFit(Parse(data))
    decreases |data|
  {
    if Starts(data) { ParsedFit(Rest(data)); }
  }

  // Parsing undoes printing exactly when no content is longer than 255 bytes.
  lemma {:induction false} ParseInvertsEncodeIff(es: seq<Element>)
    ensures Parse(EncodeAll(es)) == es <==> AllFit(es)
  {
    if AllFit(es) {
      AllBack(es, []);
      assert EncodeAll(es) + [] == EncodeAll(es);
    } else {
      ParsedFit(EncodeAll(es));
    }
  }

  lemma {:induction false} OctetStringBackIff(data: Bytes)
    ensures Parse(EncodeOctetString(data)) == [Element(0x04, data)] <==> |data| <= 255
  {
    var es := [Element(0x04, data)];
    ParseInvertsEncodeIff(es);
    assert EncodeAll(es) == EncodeOctetString(data);
    assert es[0] == Element(0x04, data);
  }

  // On arbitrary bytes, what has been parsed prints as a prefix of the data, and
  // nothing complete follows it.
  lemma {:induction false} ParsedIsPrefix(data: Bytes)
    ensures var printed := EncodeAll(Parse(data)); printed <= data && !Starts(data[|printed|..])
    decreases |data|
  {
    if Starts(data) {
      var e, rest := First(data), Rest(data);
      ParsedIsPrefix(rest);
      var printed := EncodeAll(Parse(rest));
      assert data == Encode(e) + rest;
      assert EncodeAll(Parse(data)) == Encode(e) + printed;
      assert data[|Encode(e) + printed|..] == rest[|printed|..];
    } else {
      assert data[0..] == data;
    }
  }

  // It is the longest such prefix: any run of elements the data starts with is the
  // beginning of the parsed one.
  lemma {:induction false} ParsedIsLongest(es: seq<Element>, data: Bytes)
    requires AllFit(es) && EncodeAll(es) <= data
    ensures es <= Parse(data)
  {
    var tail := data[|EncodeAll(es)|..];
    assert data == EncodeAll(es) + tail;
    AllBack(es, tail);
  }

  // ------------------------------------------- lengths as X.690 has them

  function Digits(n: nat): Bytes { if n == 0 then [] else Digits(n / 256) + [n % 256] }

  // A length whose digits can be counted in seven bits, short of the reserved count.
  predicate Printable(n: nat) { |Digits(n)| < 127 }

  // The definite form of sections 8.1.3.4 and 8.1.3.5 of X.690: one byte up to 127, and
  // above that the count of the bytes that follow with the length in base 256.
  function StandardLength(n: nat): Bytes
    requires Printable(n)
  {
    if n < 128 then [n] else [128 + |Digits(n)|] + Digits(n)
  }

  function StandardEncode(e: Element): Bytes
    requires Printable(|e.content|)
  {
    [e.tag] + StandardLength(|e.content|) + e.content
  }

  lemma {:induction false} DigitCount(n: nat)
    ensures |Digits(n)| <= n
    ensures 128 <= n < 256 ==> Digits(n) == [n]
    ensures n >= 130 ==> |Digits(n)| < n - 128
  {
    if n > 0 {
      DigitCount(n / 256);
      if n < 256 { assert Digits(n / 256) == []; }
    }
  }

  // The printers agree exactly up to 127 bytes.
  lemma {:induction false} EncodeIsStandardIff(e: Element)
    requires Printable(|e.content|)
    ensures Encode(e) == StandardEncode(e) <==> |e.content| <= 127
  {
    var n := |e.content|;
    if n > 127 {
      assert |Digits(n)| > 0;
      assert |StandardEncode(e)| == 2 + |Digits(n)| + n && |Encode(e)| == 2 + n;
    } else {
      assert StandardLength(n) == [n];
    }
  }

  // A run of one byte is what does not change when that byte is put in front.
  lemma {:induction false} Shifted(s: Bytes, b: byte, k: nat)
    requires |s| > 0 && s == [b] + s[..|s| - 1] && k < |s|
    ensures s[k] == b
  {
    if k > 0 {
      Shifted(s, b, k - 1);
      assert s[k] == ([b] + s[..|s| - 1])[k];
    }
  }

  predicate AllEqual(s: Bytes, b: byte) { forall k :: 0 <= k < |s| ==> s[k] == b }

  lemma {:induction false} ShiftedIff(s: Bytes, b: byte)
    requires |s| > 0
    ensures s == [b] + s[..|s| - 1] <==> AllEqual(s, b)
  {
    if s == [b] + s[..|s| - 1] {
      forall k: nat | k < |s| ensures s[k] == b { Shifted(s, b, k); }
    }
  }

  // The parser takes the first length byte for the length, so of what a standard
  // printer writes it gives back elements of up to 127 bytes, and by accident one of
  // 129 bytes that all equal its length byte.
  lemma {:induction false} StandardBackIff(e: Element)
    requires Printable(|e.content|)
    ensures Parse(StandardEncode(e)) == [e] <==>
      |e.content| <= 127 || (|e.content| == 129 && AllEqual(e.content, 129))
  {
    hide StandardEncode, Parse;
    if |e.content| <= 127 {
      EncodeIsStandardIff(e);
      OneBack(e, []);
      assert Encode(e) + [] == Encode(e);
      NothingLeft([]);
    } else if |e.content| == 129 {
      LongForm(e);
      ShiftedIff(e.content, 129);
    } else {
      OtherLength(e);
    }
  }

  lemma {:induction false} NothingLeft(data: Bytes)
    ensures |data| < 2 ==> Parse(data) == []
  {
  }

  lemma {:induction false} OtherLength(e: Element)
    requires Printable(|e.content|) && |e.content| > 127 && |e.content| != 129
    ensures Parse(StandardEncode(e)) != [e]
  {
    hide Digits;
    var n, data := |e.content|, StandardEncode(e);
    DigitCount(n);
    assert data[1] == 128 + |Digits(n)|;
    if Starts(data) {
      assert |First(data).content| == 128 + |Digits(n)| != n;
      assert Parse(data)[0] == First(data);
    }
  }

  lemma {:induction false} LongForm(e: Element)
    requires |e.content| == 129
    ensures StandardEncode(e) == [e.tag, 129, 129] + e.content
    ensures Parse(StandardEncode(e)) == [Element(e.tag, [129] + e.content[..128])]
  {
    DigitCount(129);
    var data := [e.tag, 129, 129] + e.content;
    assert StandardEncode(e) == data;
    assert First(data).content == [129] + e.content[..128];
    assert |Rest(data)| == 1 && Parse(Rest(data)) == [];
  }

  // ------------------------------------------------------ parseLDAPSet

  predicate SetTag(tag: byte) { tag == 0x30 || tag == 0x64 || tag == 0x31 }

  function SetItems(es: seq<Element>): seq<Bytes> {
    if es == [] then []
    else (if SetTag(es[0].tag) then [es[0].content] else []) + SetItems(es[1..])
  }

  function WithTags(es: seq<Element>, tags: set<byte>): seq<Element> {
    if es == [] then [] else (if es[0].tag in tags then [es[0]] else []) + WithTags(es[1..], tags)
  }

  // The contents of the elements of three tags, in order.
  lemma {:induction false} SetItemsMean(es: seq<Element>)
    ensures var kept := WithTags(es, {0x30, 0x31, 0x64});
      |SetItems(es)| == |kept| && forall i :: 0 <= i < |kept| ==> SetItems(es)[i] == kept[i].content
  {
    if es != [] {
      var kept, rest := WithTags(es, {0x30, 0x31, 0x64}), WithTags(es[1..], {0x30, 0x31, 0x64});
      SetItemsMean(es[1..]);
      forall i | 0 <= i < |kept| ensures SetItems(es)[i] == kept[i].content {
        if kept != rest && i > 0 { assert kept[i] == rest[i - 1]; }
      }
    }
  }

  // Where the scan stops: behind the last complete element, and two bytes further when
  // a tag and a length follow whose content is cut off.
  function Scanned(data: Bytes): nat
    decreases |data|
  {
    if Starts(data) then Span(data) + Scanned(Rest(data)) else if |data| >= 2 then 2 else 0
  }

  lemma {:induction false} ScanStep(data: Bytes, pos: nat)
    requires pos <= |data|
    ensures var left := data[pos..];
      if pos + 2 <= |data| && pos + 2 + data[pos + 1] as int <= |data| then
        var next := pos + 2 + data[pos + 1] as int;
        && SetItems(Parse(left)) ==
             (if SetTag(data[pos]) then [data[pos + 2..next]] else []) + SetItems(Parse(data[next..]))
        && Scanned(left) == next - pos + Scanned(data[next..])
      else SetItems(Parse(left)) == [] && Scanned(left) == if pos + 2 <= |data| then 2 else 0
  {
    var left := data[pos..];
    if Starts(left) {
      var next := pos + Span(left);
      assert First(left) == Element(data[pos], data[pos + 2..next]) && Rest(left) == data[next..];
      assert Parse(left)[1..] == Parse(Rest(left));
    }
  }

  method ParseLDAPSet(data: Bytes) returns (pos: nat, items: seq<Bytes>)
    ensures items == SetItems(Parse(data)) && pos == Scanned(data)
  {
    hide SetItems, Scanned, Parse;
    items, pos := [], 0;
    assert data[0..] == data;
    while pos < |data|
      invariant pos <= |data|
      invariant items + SetItems(Parse(data[pos..])) == SetItems(Parse(data))
      invariant pos + Scanned(data[pos..]) == Scanned(data)
      decreases |data| - pos
    {
      ScanStep(data, pos);
      if pos + 2 > |data| { break; }
      var tag, length: int := data[pos], data[pos + 1];
      pos := pos + 2;
      if pos + length > |data| { return; }
      if tag == 0x30 || tag == 0x64 || tag == 0x31 {
        Associate(items, [data[pos..pos + length]], SetItems(Parse(data[pos + length..])));
        items := items + [data[pos..pos + length]];
      }
      pos := pos + length;
    }
    ScanStep(data, pos);
  }

  // The count returned is the length of the complete elements only when less than a
  // tag and a length follow them.
  lemma {:induction false} ScannedIsParsedIff(data: Bytes)
    ensures |EncodeAll(Parse(data))| <= |data|
    ensures Scanned(data) == |EncodeAll(Parse(data))| <==> |data| - |EncodeAll(Parse(data))| < 2
    decreases |data|
  {
    if Starts(data) { ScannedIsParsedIff(Rest(data)); }
  }
}
