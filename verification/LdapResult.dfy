/**
  Search results of internal/auth/ldap_provider.go: the parser of a response, and the
  round trip with messages of the shape of section 4.5.2 of RFC 4511. They are printed
  with the one length byte of the code's own printer, which a standard server writes up
  to 127 only (Ber.StandardBackIff says what becomes of longer elements).
 */
module LdapResult {
  import opened Ber

  // strings.ToLower on the bytes of a name
  type Lower = Bytes -> Bytes

  type Attributes = map<Bytes, Bytes>

  // ------------------------------------------------------- what is collected

  function AddAttribute(lower: Lower, e: Element, acc: Attributes): Attributes {
    if e.tag != 0x30 then acc
    else
      var parts := Parse(e.content);
      if |parts| < 2 then acc
      else
        var values := Parse(parts[1].content);
        if |values| > 0 then acc[lower(parts[0].content) := values[0].content] else acc
  }

  function AddAttributes(lower: Lower, es: seq<Element>, acc: Attributes): Attributes {
    if es == [] then acc else AddAttributes(lower, es[1..], AddAttribute(lower, es[0], acc))
  }

  function AddOperation(lower: Lower, e: Element, acc: Attributes): Attributes {
    if e.tag != 0x64 then acc
    else
      var fields := Parse(e.content);
      if |fields| < 2 then acc else AddAttributes(lower, Parse(fields[1].content), acc)
  }

  function AddOperations(lower: Lower, es: seq<Element>, acc: Attributes): Attributes {
    if es == [] then acc else AddOperations(lower, es[1..], AddOperation(lower, es[0], acc))
  }

  function AddMessage(lower: Lower, e: Element, acc: Attributes): Attributes {
    if e.tag != 0x30 then acc else AddOperations(lower, Parse(e.content), acc)
  }

  function AddMessages(lower: Lower, es: seq<Element>, acc: Attributes): Attributes {
    if es == [] then acc else AddMessages(lower, es[1..], AddMessage(lower, es[0], acc))
  }

  method ParseLDAPResult(lower: Lower, data: Bytes) returns (result: Attributes)
    ensures result == AddMessages(lower, Parse(data), map[])
  {
    result := map[];
    var msgs := ParseBER(data);
    for i := 0 to |msgs|
      invariant AddMessages(lower, msgs[i..], result) == AddMessages(lower, msgs, map[])
    {
      ghost var before := result;
      assert msgs[i..][1..] == msgs[i + 1..];
      if msgs[i].tag != 0x30 { continue; }
      var ops := ParseBER(msgs[i].content);
      for j := 0 to |ops|
        invariant AddOperations(lower, ops[j..], result) == AddOperations(lower, ops, before)
      {
        ghost var middle := result;
        assert ops[j..][1..] == ops[j + 1..];
        if ops[j].tag != 0x64 { continue; }
        var fields := ParseBER(ops[j].content);
        if |fields| < 2 { continue; }
        result := CollectAttributes(lower, fields[1].content, result);
      }
    }
  }

  // The innermost loop, over the attributes of one entry.
  method CollectAttributes(lower: Lower, data: Bytes, acc: Attributes) returns (result: Attributes)
    ensures result == AddAttributes(lower, Parse(data), acc)
  {
    result := acc;
    var attrs := ParseBER(data);
    for k := 0 to |attrs|
      invariant AddAttributes(lower, attrs[k..], result) == AddAttributes(lower, attrs, acc)
    {
      assert attrs[k..][1..] == attrs[k + 1..];
      if attrs[k].tag != 0x30 { continue; }
      var parts := ParseBER(attrs[k].content);
      if |parts| < 2 { continue; }
      var name := parts[0].content;
      var values := ParseBER(parts[1].content);
      if |values| > 0 {
        result := result[lower(name) := values[0].content];
      }
    }
  }

  // ------------------------------------------------------ messages of a server

  datatype Attribute = Attribute(name: Bytes, values: seq<Bytes>)

  // A search result entry, or a message with some other operation in it.
  datatype Response =
    | Entry(id: Bytes, dn: Bytes, attributes: seq<Attribute>)
    | Other(id: Bytes, op: Element)

  function OctetStrings(vs: seq<Bytes>): (r: seq<Element>)
    ensures |r| == |vs|
  {
    if vs == [] then [] else [Element(0x04, vs[0])] + OctetStrings(vs[1..])
  }

  function AttributeElement(a: Attribute): Element {
    Element(0x30, EncodeAll([Element(0x04, a.name), Element(0x31, EncodeAll(OctetStrings(a.values)))]))
  }

  function AttributeElements(attrs: seq<Attribute>): seq<Element> {
    if attrs == [] then [] else [AttributeElement(attrs[0])] + AttributeElements(attrs[1..])
  }

  function Operation(r: Response): Element {
    match r
    case Entry(_, dn, attributes) =>
      Element(0x64, EncodeAll([Element(0x04, dn), Element(0x30, EncodeAll(AttributeElements(attributes)))]))
    case Other(_, op) => op
  }

  function MessageElement(r: Response): Element {
    Element(0x30, EncodeAll([Element(0x02, r.id), Operation(r)]))
  }

  function MessageElements(rs: seq<Response>): seq<Element> {
    if rs == [] then [] else [MessageElement(rs[0])] + MessageElements(rs[1..])
  }

  // ------------------------------------------------------------- round trip

  // The attributes in order, by lower-cased name and first value; one without values
  // leaves no trace, and of two with the same name the later counts.
  function FirstValues(lower: Lower, attrs: seq<Attribute>, acc: Attributes): Attributes {
    if attrs == [] then acc
    else FirstValues(lower, attrs[1..],
      if attrs[0].values == [] then acc else acc[lower(attrs[0].name) := attrs[0].values[0]])
  }

  function Collected(lower: Lower, rs: seq<Response>, acc: Attributes): Attributes {
    if rs == [] then acc
    else Collected(lower, rs[1..], if rs[0].Entry? then FirstValues(lower, rs[0].attributes, acc) else acc)
  }

  // What is nested is shorter than what it is nested in.
  lemma {:induction false} NestedFit(es: seq<Element>)
    requires |EncodeAll(es)| <= 255
    ensures AllFit(es)
    ensures Parse(EncodeAll(es)) == es
  {
    Shorter(es);
    ParseInvertsEncodeIff(es);
  }

  lemma {:induction false} Shorter(es: seq<Element>)
    ensures forall i :: 0 <= i < |es| ==> |es[i].content| < |EncodeAll(es)|
  {
    if es != [] {
      Shorter(es[1..]);
      assert forall i :: 1 <= i < |es| ==> es[i] == es[1..][i - 1];
    }
  }

  lemma {:induction false} AttributeBack(lower: Lower, a: Attribute, acc: Attributes)
    requires Fits(AttributeElement(a))
    ensures AddAttribute(lower, AttributeElement(a), acc) ==
      if a.values == [] then acc else acc[lower(a.name) := a.values[0]]
  {
    var values := Element(0x31, EncodeAll(OctetStrings(a.values)));
    var parts := [Element(0x04, a.name), values];
    NestedFit(parts);
    assert Fits(parts[1]);
    NestedFit(OctetStrings(a.values));
  }

  lemma {:induction false} AttributesBack(lower: Lower, attrs: seq<Attribute>, acc: Attributes)
    requires AllFit(AttributeElements(attrs))
    ensures AddAttributes(lower, AttributeElements(attrs), acc) == FirstValues(lower, attrs, acc)
  {
    hide AddAttribute, AttributeElement;
    if attrs != [] {
      var es := AttributeElements(attrs);
      assert es[0] == AttributeElement(attrs[0]) && es[1..] == AttributeElements(attrs[1..]);
      AttributeBack(lower, attrs[0], acc);
      AttributesBack(lower, attrs[1..], AddAttribute(lower, es[0], acc));
    }
  }

  lemma {:induction false} EntryBack(lower: Lower, r: Response, acc: Attributes)
    requires r.Entry? && Fits(Operation(r))
    ensures AddOperation(lower, Operation(r), acc) == FirstValues(lower, r.attributes, acc)
  {
    hide AddAttributes, FirstValues, AttributeElements;
    var attrs := AttributeElements(r.attributes);
    var fields := [Element(0x04, r.dn), Element(0x30, EncodeAll(attrs))];
    NestedFit(fields);
    assert Fits(fields[1]);
    NestedFit(attrs);
    AttributesBack(lower, r.attributes, acc);
  }

  ghost predicate Proper(r: Response) {
    |MessageElement(r).content| <= 255 && (r.Other? ==> r.op.tag != 0x64)
  }

  lemma {:induction false} MessageBack(lower: Lower, r: Response, acc: Attributes)
    requires Proper(r)
    ensures AddMessage(lower, MessageElement(r), acc) ==
      if r.Entry? then FirstValues(lower, r.attributes, acc) else acc
  {
    hide AddOperation, FirstValues, Operation;
    var ops := [Element(0x02, r.id), Operation(r)];
    NestedFit(ops);
    assert Fits(ops[1]);
    OtherTags(lower, r, acc);
    assert ops[1..] == [Operation(r)] && ops[1..][1..] == [];
    var acc' := AddOperation(lower, ops[0], acc);
    assert AddOperations(lower, ops, acc) == AddOperations(lower, [Operation(r)], acc');
    assert AddOperations(lower, [Operation(r)], acc) == AddOperation(lower, Operation(r), acc);
    if r.Entry? { EntryBack(lower, r, acc); }
  }

  lemma {:induction false} OtherTags(lower: Lower, r: Response, acc: Attributes)
    ensures AddOperation(lower, Element(0x02, r.id), acc) == acc
    ensures r.Other? && r.op.tag != 0x64 ==> AddOperation(lower, Operation(r), acc) == acc
  {
  }

  // Any run of messages of at most 255 bytes of content each comes back as the first
  // values of the attributes of its entries, in order; bytes of an incomplete message
  // behind them change nothing.
  lemma {:induction false} ResultRoundTrip(lower: Lower, rs: seq<Response>, cut: Bytes)
    requires (forall i :: 0 <= i < |rs| ==> Proper(rs[i])) && !Starts(cut)
    ensures AddMessages(lower, Parse(EncodeAll(MessageElements(rs)) + cut), map[]) == Collected(lower, rs, map[])
  {
    MessagesFit(rs);
    AllBack(MessageElements(rs), cut);
    assert MessageElements(rs) + [] == MessageElements(rs);
    MessagesBack(lower, rs, map[]);
  }

  lemma {:induction false} MessagesFit(rs: seq<Response>)
    requires forall i :: 0 <= i < |rs| ==> Proper(rs[i])
    ensures AllFit(MessageElements(rs))
  {
    if rs != [] { MessagesFit(rs[1..]); }
  }

  lemma {:induction false} MessagesBack(lower: Lower, rs: seq<Response>, acc: Attributes)
    requires forall i :: 0 <= i < |rs| ==> Proper(rs[i])
    ensures AddMessages(lower, MessageElements(rs), acc) == Collected(lower, rs, acc)
  {
    hide AddMessage, MessageElement, FirstValues, Proper;
    if rs != [] {
      var es := MessageElements(rs);
      assert es[0] == MessageElement(rs[0]) && es[1..] == MessageElements(rs[1..]);
      MessageBack(lower, rs[0], acc);
      MessagesBack(lower, rs[1..], AddMessage(lower, es[0], acc));
    }
  }

  // The result maps a name to the first value of the last attribute that has it and
  // has a value; nothing else is in it.
  ghost predicate LastWins(lower: Lower, attrs: seq<Attribute>, i: nat, name: Bytes) {
    && i < |attrs| && attrs[i].values != [] && lower(attrs[i].name) == name
    && forall j :: i < j < |attrs| && attrs[j].values != [] ==> lower(attrs[j].name) != name
  }

  lemma {:induction false} FirstValuesMean(lower: Lower, attrs: seq<Attribute>, acc: Attributes, i: nat, name: Bytes)
    ensures LastWins(lower, attrs, i, name) ==>
      name in FirstValues(lower, attrs, acc) && FirstValues(lower, attrs, acc)[name] == attrs[i].values[0]
    ensures (forall j :: 0 <= j < |attrs| && attrs[j].values != [] ==> lower(attrs[j].name) != name) ==>
      (name in FirstValues(lower, attrs, acc) <==> name in acc) &&
      (name in acc ==> FirstValues(lower, attrs, acc)[name] == acc[name])
  {
    if attrs != [] {
      var rest := attrs[1..];
      var acc' := if attrs[0].values == [] then acc else acc[lower(attrs[0].name) := attrs[0].values[0]];
      assert forall j :: 0 <= j < |rest| ==> rest[j] == attrs[j + 1];
      if i > 0 {
        FirstValuesMean(lower, rest, acc', i - 1, name);
        if LastWins(lower, attrs, i, name) {
          forall j | i - 1 < j < |rest| && rest[j].values != [] ensures lower(rest[j].name) != name {
            assert rest[j] == attrs[j + 1];
          }
        }
      } else {
        FirstValuesMean(lower, rest, acc', |rest|, name);
        if LastWins(lower, attrs, 0, name) {
          forall j | 0 <= j < |rest| && rest[j].values != [] ensures lower(rest[j].name) != name {
            assert rest[j] == attrs[j + 1];
          }
        }
      }
    }
  }

  // --------------------------------------------------- what is passed over

  // Elements with another tag leave no trace, at any of the three levels: only
  // sequences count as messages and as attributes, and only search entries as results.
  lemma {:induction false} OtherMessagesIgnored(lower: Lower, es: seq<Element>, acc: Attributes)
    ensures AddMessages(lower, es, acc) == AddMessages(lower, WithTags(es, {0x30}), acc)
  {
    if es != [] {
      hide Parse, AddOperations;
      var kept := WithTags(es[1..], {0x30});
      OtherMessagesIgnored(lower, es[1..], AddMessage(lower, es[0], acc));
      if es[0].tag == 0x30 { assert ([es[0]] + kept)[1..] == kept; } else { assert WithTags(es, {0x30}) == kept; }
    }
  }

  lemma {:induction false} OtherOperationsIgnored(lower: Lower, es: seq<Element>, acc: Attributes)
    ensures AddOperations(lower, es, acc) == AddOperations(lower, WithTags(es, {0x64}), acc)
  {
    if es != [] {
      hide Parse, AddAttributes;
      var kept := WithTags(es[1..], {0x64});
      OtherOperationsIgnored(lower, es[1..], AddOperation(lower, es[0], acc));
      if es[0].tag == 0x64 { assert ([es[0]] + kept)[1..] == kept; } else { assert WithTags(es, {0x64}) == kept; }
    }
  }

  lemma {:induction false} OtherAttributesIgnored(lower: Lower, es: seq<Element>, acc: Attributes)
    ensures AddAttributes(lower, es, acc) == AddAttributes(lower, WithTags(es, {0x30}), acc)
  {
    if es != [] {
      hide Parse;
      var kept := WithTags(es[1..], {0x30});
      OtherAttributesIgnored(lower, es[1..], AddAttribute(lower, es[0], acc));
      if es[0].tag == 0x30 { assert ([es[0]] + kept)[1..] == kept; } else { assert WithTags(es, {0x30}) == kept; }
    }
  }
}
