/**
  Parsing what the printer wrote rebuilds the tree.
 */
module XmlRoundTrip {
  import opened Json
  import opened Numbers
  import opened XmlSpec

  // ---------------------------------------------------------------- what can be printed and read back

  predicate AllIn(k: CharClass, s: Bytes) {
    forall i :: 0 <= i < |s| ==> In(k, s[i])
  }

  predicate GoodName(name: Bytes) {
    name != [] && AllIn(NodeName, name) && name[0] != BANG
  }

  predicate GoodAttribute(a: Attribute) {
    a.name != [] && AllIn(AttributeName, a.name) && 0 !in a.value
  }

  /** Character data that the parser takes for the white space between tags. */
  predicate Blank(s: Bytes) {
    AllIn(Space, s)
  }

  predicate GoodCdata(s: Bytes) {
    0 !in s && forall i :: 0 <= i <= |s| - 3 ==> !ClosesAt(s, i)
  }

  predicate ClosesAt(s: Bytes, i: nat)
    requires i + 3 <= |s|
  {
    s[i] == 0x5D && s[i + 1] == 0x5D && s[i + 2] == 0x3E
  }

  /** Legal names, no NUL, and CDATA free of its own end mark. */
  predicate Printable(n: Node)
    decreases n
  {
    match n
    case Data(text) => 0 !in text
    case Cdata(text) => GoodCdata(text)
    case Element(name, value, attributes, children) =>
      && GoodName(name)
      && (forall i :: 0 <= i < |attributes| ==> GoodAttribute(attributes[i]))
      && (forall i :: 0 <= i < |children| ==> Printable(children[i]))
      && (children == [] ==> 0 !in value)
  }

  predicate PrintableAll(ns: seq<Node>) {
    forall i :: 0 <= i < |ns| ==> Printable(ns[i])
  }

  /** The node the parser makes of the text between two tags: none when the text is blank. */
  function Run(text: Bytes): seq<Node> {
    if Blank(text) then [] else [Data(text)]
  }

  /** The tree as the parser would have built it: a value without children is data, and values follow the data. */
  function Normal(n: Node): (r: Node)
    ensures n.Data? <==> r.Data?
    decreases n, 1
  {
    match n
    case Element(name, value, attributes, children) =>
      var kids := if children == [] then Run(value) else Gather([], children);
      Element(name, ValueOf([], kids), attributes, kids)
    case _ => n
  }

  /** Siblings as the parser would have built them, after `text`: adjacent data in one piece, blank data dropped. */
  function Gather(text: Bytes, ns: seq<Node>): seq<Node>
    decreases ns, 0
  {
    if ns == [] then Run(text)
    else if ns[0].Data? then Gather(text + ns[0].text, ns[1..])
    else Run(text) + ([Normal(ns[0])] + Gather([], ns[1..]))
  }

  // ---------------------------------------------------------------- spans

  /** A run of a class ends here. */
  predicate Stops(k: CharClass, tail: Bytes) {
    tail == [] || !In(k, tail[0])
  }

  lemma {:induction false} SpanOf(k: CharClass, s: Bytes, tail: Bytes)
    requires AllIn(k, s) && Stops(k, tail)
    ensures Span(k, s + tail) == |s| && (s + tail)[..|s|] == s && (s + tail)[|s|..] == tail
    decreases s
  {
    if s == [] {
      assert s + tail == tail;
    } else {
      assert (s + tail)[1..] == s[1..] + tail;
      SpanOf(k, s[1..], tail);
    }
  }

  lemma NoSpace(tail: Bytes)
    requires Stops(Space, tail)
    ensures SkipSpace(tail) == tail
  {
  }

  // ---------------------------------------------------------------- escapes

  /** The quote that ends the run is not among the characters left unescaped. */
  predicate Suits(k: CharClass, noexpand: Byte, s: Bytes) {
    && noexpand != AMP
    && match k
       case TextChars => noexpand == 0
       case ValueChars(quote) => (quote == APOS && noexpand == QUOT) || (quote == QUOT && noexpand == APOS && QUOT !in s)
       case _ => false
  }

  lemma ReadEscaped(c: Byte, noexpand: Byte, rest: Bytes)
    requires c != 0 && noexpand != AMP
    ensures PieceAt(Escaped(c, noexpand) + rest) == Piece([c], rest)
  {
    var text := Escaped(c, noexpand) + rest;
    var n := |Escaped(c, noexpand)|;
    assert text[..n] == Escaped(c, noexpand) && text[n..] == rest;
    if c == AMP {
      assert AMP_REF <= text;
    } else if c == noexpand {
      assert text[0] == c;
    } else if c == LT {
      assert LT_REF <= text && text[1] == 0x6C;
    } else if c == GT {
      assert GT_REF <= text && text[1] == 0x67;
    } else if c == APOS {
      assert APOS_REF <= text && text[2] == 0x70;
    } else if c == QUOT {
      assert QUOT_REF <= text && text[1] == 0x71;
    }
  }

  lemma EscapedHead(k: CharClass, c: Byte, noexpand: Byte, s: Bytes)
    requires c != 0 && Suits(k, noexpand, s) && c in s
    ensures Escaped(c, noexpand) != [] && In(k, Escaped(c, noexpand)[0])
  {
  }

  lemma ExpandStep(k: CharClass, head: Bytes, c: Byte, after: Bytes, more: Bytes, tail: Bytes)
    requires head != [] && In(k, head[0]) && PieceAt(head + after) == Piece([c], after)
    requires Expand(k, after) == Piece(more, tail)
    ensures Expand(k, head + after) == Piece([c] + more, tail)
  {
    hide PieceAt, In;
  }

  /** Expansion undoes escaping, up to what ends the run. */
  lemma {:induction false} ExpandEscaped(k: CharClass, s: Bytes, noexpand: Byte, tail: Bytes)
    requires 0 !in s && Suits(k, noexpand, s) && Stops(k, tail)
    ensures Expand(k, EscapedText(s, noexpand) + tail) == Piece(s, tail)
    decreases s
  {
    hide PieceAt, In, Escaped, Expand;
    if s == [] {
      assert EscapedText(s, noexpand) + tail == tail;
      ExpandNothing(k, tail);
    } else {
      var after := EscapedText(s[1..], noexpand) + tail;
      assert EscapedText(s, noexpand) + tail == Escaped(s[0], noexpand) + after;
      EscapedHead(k, s[0], noexpand, s);
      ReadEscaped(s[0], noexpand, after);
      ExpandEscaped(k, s[1..], noexpand, tail);
      ExpandStep(k, Escaped(s[0], noexpand), s[0], after, s[1..], tail);
      assert [s[0]] + s[1..] == s;
    }
  }

  lemma ExpandNothing(k: CharClass, tail: Bytes)
    requires Stops(k, tail)
    ensures Expand(k, tail) == Piece([], tail)
  {
  }

  // ---------------------------------------------------------------- attributes

  lemma ReadQuoted(value: Bytes, tail: Bytes)
    requires 0 !in value
    ensures var q := QuotedText(value) + tail;
            && q != [] && (q[0] == APOS || q[0] == QUOT)
            && Expand(ValueChars(q[0]), q[1..]) == Piece(value, [q[0]] + tail)
  {
    hide Expand, EscapedText;
    var q := QuotedText(value) + tail;
    var noexpand := if QUOT in value then QUOT else APOS;
    assert q[1..] == EscapedText(value, noexpand) + ([q[0]] + tail);
    ExpandEscaped(ValueChars(q[0]), value, noexpand, [q[0]] + tail);
  }

  lemma ReadAttribute(a: Attribute, tail: Bytes)
    requires GoodAttribute(a)
    ensures var s := a.name + [EQUALS] + QuotedText(a.value) + tail;
            In(AttributeName, s[0]) && AttributeAt(s) == OneAttribute(a, SkipSpace(tail))
  {
    hide Expand, QuotedText, Span, SkipSpace;
    var q := QuotedText(a.value) + tail;
    var s := a.name + [EQUALS] + QuotedText(a.value) + tail;
    assert s == a.name + ([EQUALS] + q);
    SpanOf(AttributeName, a.name, [EQUALS] + q);
    ReadQuoted(a.value, tail);
    NoSpace([EQUALS] + q);
    NoSpace(q);
    assert ([EQUALS] + q)[1..] == q;
    assert ([q[0]] + tail)[1..] == tail;
    assert s[0] == a.name[0];
  }

  /** What follows the attributes of a tag. */
  predicate EndsTag(tail: Bytes) {
    tail != [] && (tail[0] == SLASH || tail[0] == GT)
  }

  lemma AttributesTurn(s: Bytes, a: Attribute, after: Bytes, list: seq<Attribute>, tail: Bytes)
    requires s != [] && In(AttributeName, s[0]) && AttributeAt(s) == OneAttribute(a, after)
    requires AttributesAt(after) == Attributes(list, tail)
    ensures AttributesAt(s) == Attributes([a] + list, tail)
  {
    hide AttributeAt;
  }

  lemma NoAttributes(tail: Bytes)
    requires EndsTag(tail)
    ensures AttributesAt(SkipSpace(AttributesText([]) + tail)) == Attributes([], tail)
  {
    assert AttributesText([]) + tail == tail;
    NoSpace(tail);
  }

  lemma AttributesTextStep(list: seq<Attribute>, tail: Bytes)
    requires list != []
    ensures AttributesText(list) + tail
         == [0x20] + (list[0].name + [EQUALS] + QuotedText(list[0].value) + (AttributesText(list[1..]) + tail))
  {
    hide QuotedText;
  }

  lemma {:induction false} ReadAttributes(list: seq<Attribute>, tail: Bytes)
    requires (forall i :: 0 <= i < |list| ==> GoodAttribute(list[i])) && EndsTag(tail)
    ensures AttributesAt(SkipSpace(AttributesText(list) + tail)) == Attributes(list, tail)
    decreases list
  {
    hide AttributeAt, QuotedText, SkipSpace, AttributesText, AttributesAt, GoodAttribute;
    if list == [] {
      NoAttributes(tail);
    } else {
      var after := AttributesText(list[1..]) + tail;
      var s := list[0].name + [EQUALS] + QuotedText(list[0].value) + after;
      AttributesTextStep(list, tail);
      ReadAttribute(list[0], after);
      OneSpace(s);
      ReadAttributes(list[1..], tail);
      AttributesTurn(s, list[0], SkipSpace(after), list[1..], tail);
      assert [list[0]] + list[1..] == list;
    }
  }

  lemma OneSpace(s: Bytes)
    requires s != [] && In(AttributeName, s[0])
    ensures SkipSpace([0x20] + s) == s
  {
    SpanOf(Space, [0x20], s);
  }

  // ---------------------------------------------------------------- data

  /** Character data that is not all whitespace is recognised as such, leading whitespace and all. */
  lemma {:induction false} DataShows(s: Bytes, tail: Bytes)
    requires 0 !in s && !Blank(s)
    ensures var t := SkipSpace(EscapedText(s, 0) + tail); Peek(t) != LT && Peek(t) != 0
    decreases s
  {
    hide SkipSpace;
    var rest := EscapedText(s[1..], 0) + tail;
    assert EscapedText(s, 0) + tail == Escaped(s[0], 0) + rest;
    if IsSpace(s[0]) {
      var i :| 0 <= i < |s| && !IsSpace(s[i]);
      assert s[1..][i - 1] == s[i];
      DataShows(s[1..], tail);
      SpaceFirst(s[0], rest);
      assert Escaped(s[0], 0) == [s[0]];
    } else {
      assert Stops(Space, Escaped(s[0], 0) + rest);
      NoSpace(Escaped(s[0], 0) + rest);
    }
  }

  lemma SpaceFirst(c: Byte, s: Bytes)
    requires IsSpace(c)
    ensures SkipSpace([c] + s) == SkipSpace(s)
  {
    assert ([c] + s)[1..] == s;
  }

  // ---------------------------------------------------------------- CDATA

  lemma {:induction false} ReadCdata(text: Bytes, tail: Bytes)
    requires GoodCdata(text)
    ensures SkipPast(CDATA_CLOSE, text + CDATA_CLOSE + tail) == Past(|text|, tail)
    decreases text
  {
    var s := text + CDATA_CLOSE + tail;
    if text == [] {
      assert s == CDATA_CLOSE + tail && s[3..] == tail;
    } else {
      assert !(CDATA_CLOSE <= s) by {
        assert |text| >= 3 ==> !ClosesAt(text, 0);
        assert s[0] == text[0] && s[1] == (if |text| > 1 then text[1] else 0x5D);
        assert s[2] == (if |text| > 2 then text[2] else 0x5D);
      }
      assert s[1..] == text[1..] + CDATA_CLOSE + tail;
      forall i | 0 <= i <= |text[1..]| - 3 ensures !ClosesAt(text[1..], i) {
        assert !ClosesAt(text, i + 1);
      }
      ReadCdata(text[1..], tail);
    }
  }

  // ---------------------------------------------------------------- nodes

  /** The closing tag of an element and what follows. */
  function Closing(name: Bytes, tail: Bytes): Bytes {
    [LT, SLASH] + name + [GT] + tail
  }

  lemma ReadClosing(afterTag: bool, name: Bytes, tail: Bytes)
    requires AllIn(NodeName, name)
    ensures ContentsAt(afterTag, Closing(name, tail)) == Contents([], tail)
  {
    hide SkipSpace, Span;
    var s := Closing(name, tail);
    NoSpace(s);
    assert s[2..] == name + ([GT] + tail);
    SpanOf(NodeName, name, [GT] + tail);
    NoSpace([GT] + tail);
    assert ([GT] + tail)[1..] == tail;
  }

  /** A child that starts with '<', once it is known how it reads. */
  lemma ReadTag(afterTag: bool, inner: Bytes, node: Node, after: Bytes)
    requires inner != [] && inner[0] != SLASH && NodeAt(inner) == Made(node, after)
    ensures ContentsAt(afterTag, [LT] + inner) == Under([node], ContentsAt(true, after))
  {
    hide SkipSpace, NodeAt, Under;
    var s := [LT] + inner;
    NoSpace(s);
    assert s[1..] == inner;
  }

  /** Before a '<' there is no white space to skip. */
  lemma AtTag(s: Bytes)
    requires Peek(s) == LT
    ensures ContentsAt(false, s) == ContentsAt(true, s)
  {
    hide NodeAt, Under;
    NoSpace(s);
  }

  lemma UnderNothing(c: Contents)
    ensures Under([], c) == c
  {
    if c.Contents? {
      assert [] + c.children == c.children;
    }
  }

  /** Text up to the next tag: one piece of data, or nothing when it is blank. */
  lemma ReadRun(text: Bytes, after: Bytes)
    requires 0 !in text && Peek(after) == LT
    ensures ContentsAt(true, EscapedText(text, 0) + after) == Under(Run(text), ContentsAt(true, after))
  {
    hide SkipSpace, Expand, EscapedText, Under, Blank, ContentsAt;
    if Blank(text) {
      BlankIsPlain(text);
      BlankSkipped(text, after);
      UnderNothing(ContentsAt(true, after));
    } else {
      DataShows(text, after);
      ExpandEscaped(TextChars, text, 0, after);
      DataTurn(EscapedText(text, 0) + after, text, after);
      AtTag(after);
    }
  }

  lemma {:induction false} BlankIsPlain(blank: Bytes)
    requires Blank(blank)
    ensures EscapedText(blank, 0) == blank
    decreases blank
  {
    if blank != [] {
      BlankIsPlain(blank[1..]);
      assert blank == [blank[0]] + blank[1..];
    }
  }

  lemma BlankSkipped(blank: Bytes, s: Bytes)
    requires Blank(blank) && Peek(s) == LT
    ensures SkipSpace(blank + s) == s && ContentsAt(true, blank + s) == ContentsAt(true, s)
  {
    hide NodeAt, Under;
    SpanOf(Space, blank, s);
    NoSpace(s);
  }

  lemma DataTurn(s: Bytes, text: Bytes, after: Bytes)
    requires Peek(SkipSpace(s)) != LT && Peek(SkipSpace(s)) != 0 && Expand(TextChars, s) == Piece(text, after)
    ensures |after| < |s|
    ensures ContentsAt(true, s) == Under([Data(text)], ContentsAt(false, after))
  {
    hide SkipSpace, Under;
    assert |after| < |s| by {
      DataIsSome(s);
    }
  }

  lemma DataIsSome(s: Bytes)
    requires Peek(SkipSpace(s)) != LT && Peek(SkipSpace(s)) != 0 && Expand(TextChars, s).Piece?
    ensures |Expand(TextChars, s).rest| < |s|
  {
    assert s != [] && In(TextChars, s[0]);
  }

  lemma CdataNode(text: Bytes, after: Bytes)
    requires GoodCdata(text)
    ensures NodeAt(CDATA_OPEN + text + CDATA_CLOSE + after) == Made(Cdata(text), after)
  {
    hide SkipPast;
    var s := CDATA_OPEN + text + CDATA_CLOSE + after;
    assert CDATA_OPEN <= s && s[8..] == text + CDATA_CLOSE + after;
    assert s[0] == BANG && s[1] == 0x5B;
    ReadCdata(text, after);
    assert s[8..8 + |text|] == text;
  }

  lemma AfterName(list: seq<Attribute>, tail: Bytes)
    requires EndsTag(tail)
    ensures Stops(NodeName, AttributesText(list) + tail)
  {
  }

  lemma NameStarts(name: Bytes)
    requires GoodName(name)
    ensures name != [] && name[0] != QUERY && name[0] != BANG && name[0] != SLASH && AllIn(NodeName, name)
  {
  }

  /** The name and the attributes of a tag. */
  lemma ReadHead(name: Bytes, list: seq<Attribute>, tail: Bytes)
    requires GoodName(name) && (forall i :: 0 <= i < |list| ==> GoodAttribute(list[i])) && EndsTag(tail)
    ensures var s := name + AttributesText(list) + tail;
            && s != [] && s[0] != QUERY && s[0] != BANG
            && Span(NodeName, s) == |name| && s[..|name|] == name
            && AttributesAt(SkipSpace(s[|name|..])) == Attributes(list, tail)
  {
    hide SkipSpace, Span, AttributesAt, AttributesText, In, GoodAttribute, GoodName, AllIn, EndsTag;
    var rest := AttributesText(list) + tail;
    var s := name + AttributesText(list) + tail;
    NameStarts(name);
    assert s == name + rest && s[0] == name[0];
    AfterName(list, tail);
    SpanOf(NodeName, name, rest);
    ReadAttributes(list, tail);
  }

  /** An element without contents. */
  lemma EmptyElement(name: Bytes, list: seq<Attribute>, after: Bytes)
    requires GoodName(name) && forall i :: 0 <= i < |list| ==> GoodAttribute(list[i])
    ensures NodeAt(name + AttributesText(list) + ([SLASH, GT] + after)) == Made(Element(name, [], list, []), after)
  {
    hide SkipSpace, Span, AttributesAt, ContentsAt, AttributesText, In, GoodAttribute, GoodName;
    var tail := [SLASH, GT] + after;
    NameStarts(name);
    ReadHead(name, list, tail);
    assert Peek(tail) == SLASH && Peek(tail[1..]) == GT && tail[2..] == after;
  }

  /** An element whose contents are known to read as these children. */
  lemma FullElement(name: Bytes, list: seq<Attribute>, inside: Bytes, children: seq<Node>, after: Bytes)
    requires GoodName(name) && forall i :: 0 <= i < |list| ==> GoodAttribute(list[i])
    requires ContentsAt(true, inside) == Contents(children, after)
    ensures NodeAt(name + AttributesText(list) + ([GT] + inside))
         == Made(Element(name, ValueOf([], children), list, children), after)
  {
    hide SkipSpace, Span, AttributesAt, ContentsAt, ValueOf, AttributesText, In, GoodAttribute, GoodName;
    var tail := [GT] + inside;
    NameStarts(name);
    ReadHead(name, list, tail);
    assert Peek(tail) == GT && tail[1..] == inside;
  }

  /** The text of an element or CDATA node after its '<'. */
  function TagText(n: Node): Bytes
    requires !n.Data?
  {
    NodeText(n)[1..]
  }

  function Body(value: Bytes, children: seq<Node>): Bytes {
    if children == [] then EscapedText(value, 0) else ChildrenText(children)
  }

  lemma CdataTag(n: Node, after: Bytes)
    requires n.Cdata?
    ensures NodeText(n) == [LT] + TagText(n) && TagText(n) != [] && TagText(n)[0] == BANG
    ensures TagText(n) + after == CDATA_OPEN + n.text + CDATA_CLOSE + after
  {
  }

  lemma EmptyTag(n: Node, after: Bytes)
    requires n.Element? && n.name != [] && n.value == [] && n.children == []
    ensures NodeText(n) == [LT] + TagText(n) && TagText(n) != [] && TagText(n)[0] == n.name[0]
    ensures TagText(n) + after == n.name + AttributesText(n.attributes) + ([SLASH, GT] + after)
  {
    hide AttributesText;
    var text := n.name + AttributesText(n.attributes);
    assert NodeText(n) == [LT] + n.name + AttributesText(n.attributes) + [SLASH, GT];
    assert NodeText(n) == [LT] + (text + [SLASH, GT]);
    assert TagText(n) == text + [SLASH, GT];
  }

  lemma FullTag(n: Node, after: Bytes)
    requires n.Element? && n.name != [] && (n.value != [] || n.children != [])
    ensures NodeText(n) == [LT] + TagText(n) && TagText(n) != [] && TagText(n)[0] == n.name[0]
    ensures TagText(n) + after
         == n.name + AttributesText(n.attributes) + ([GT] + (Body(n.value, n.children) + Closing(n.name, after)))
  {
    hide AttributesText, EscapedText, ChildrenText, Body, NodeText;
    FullText(n);
    Reordered(n.name, AttributesText(n.attributes), Body(n.value, n.children), after);
  }

  lemma Reordered(name: Bytes, attributes: Bytes, body: Bytes, after: Bytes)
    requires name != []
    ensures var text := [LT] + name + attributes + ([GT] + body + [LT, SLASH] + name + [GT]);
            && text[0] == LT && text[1] == name[0] && |text| > 1
            && text == [LT] + text[1..]
            && text[1..] + after == name + attributes + ([GT] + (body + Closing(name, after)))
  {
    var inner := name + attributes + ([GT] + body + [LT, SLASH] + name + [GT]);
    assert [LT] + name + attributes + ([GT] + body + [LT, SLASH] + name + [GT]) == [LT] + inner;
    assert ([GT] + body + [LT, SLASH] + name + [GT]) + after == [GT] + (body + Closing(name, after));
    assert inner + after == name + attributes + (([GT] + body + [LT, SLASH] + name + [GT]) + after);
  }

  lemma FullText(n: Node)
    requires n.Element? && (n.value != [] || n.children != [])
    ensures NodeText(n) == [LT] + n.name + AttributesText(n.attributes)
                           + ([GT] + Body(n.value, n.children) + [LT, SLASH] + n.name + [GT])
  {
    hide AttributesText, EscapedText, ChildrenText;
  }

  /** A tag reads back as the normal form of its node. */
  lemma {:induction false} ReadNode(n: Node, after: Bytes)
    requires Printable(n) && !n.Data?
    ensures NodeText(n) == [LT] + TagText(n) && TagText(n) != [] && TagText(n)[0] != SLASH
    ensures NodeAt(TagText(n) + after) == Made(Normal(n), after)
    decreases n, 1
  {
    hide NodeAt, ContentsAt, AttributesText, EscapedText, ChildrenText, ValueOf, NodeText, TagText, Closing, Blank,
         GoodCdata, GoodAttribute, Gather, Body, GoodName;
    if n.Cdata? {
      CdataTag(n, after);
      CdataNode(n.text, after);
    } else {
      NameStarts(n.name);
      if n.value == [] && n.children == [] {
        EmptyTag(n, after);
        EmptyElement(n.name, n.attributes, after);
        NoValue();
      } else {
        FullTag(n, after);
        ReadBody(n, after);
        FullElement(n.name, n.attributes, Body(n.value, n.children) + Closing(n.name, after), Normal(n).children, after);
      }
    }
  }

  /** What lies between the tags of an element. */
  lemma {:induction false} ReadBody(n: Node, after: Bytes)
    requires Printable(n) && n.Element?
    ensures ContentsAt(true, Body(n.value, n.children) + Closing(n.name, after)) == Contents(Normal(n).children, after)
    decreases n, 0
  {
    hide ContentsAt, EscapedText, ChildrenText, ValueOf, Closing, Blank, GoodCdata, GoodAttribute, Gather, GoodName;
    NameStarts(n.name);
    var closing := Closing(n.name, after);
    if n.children == [] {
      ClosingStarts(n.name, after);
      ReadClosing(true, n.name, after);
      ReadRun(n.value, closing);
      assert Run(n.value) + [] == Run(n.value);
    } else {
      ReadChildren([], n.children, n.name, after);
      NoText(ChildrenText(n.children) + closing);
    }
  }

  lemma NoText(s: Bytes)
    ensures EscapedText([], 0) + s == s && Run([]) == []
  {
    assert EscapedText([], 0) == [];
  }

  lemma ClosingStarts(name: Bytes, after: Bytes)
    ensures Peek(Closing(name, after)) == LT
  {
  }

  lemma NoValue()
    ensures ValueOf([], []) == [] && Run([]) == []
  {
  }

  lemma ChildrenStep(ns: seq<Node>, tail: Bytes)
    requires ns != []
    ensures ChildrenText(ns) + tail == NodeText(ns[0]) + (ChildrenText(ns[1..]) + tail)
  {
    hide NodeText;
    assert NodeText(ns[0]) + ChildrenText(ns[1..]) + tail == NodeText(ns[0]) + (ChildrenText(ns[1..]) + tail);
  }

  lemma GatherStep(text: Bytes, ns: seq<Node>)
    ensures ns == [] ==> Gather(text, ns) == Run(text) && ChildrenText(ns) == []
    ensures ns != [] && ns[0].Data? ==> Gather(text, ns) == Gather(text + ns[0].text, ns[1..])
    ensures ns != [] && ns[0].Data? ==> NodeText(ns[0]) == EscapedText(ns[0].text, 0)
    ensures ns != [] && !ns[0].Data? ==> Gather(text, ns) == Run(text) + ([Normal(ns[0])] + Gather([], ns[1..]))
  {
    hide Run, Normal;
  }

  lemma {:induction false} EscapedAppend(a: Bytes, b: Bytes, noexpand: Byte)
    ensures EscapedText(a + b, noexpand) == EscapedText(a, noexpand) + EscapedText(b, noexpand)
    decreases a
  {
    hide Escaped;
    if a == [] {
      assert a + b == b;
    } else {
      assert (a + b)[1..] == a[1..] + b;
      EscapedAppend(a[1..], b, noexpand);
    }
  }

  /** Data joins the text before it. */
  lemma EscapedJoin(text: Bytes, more: Bytes, tail: Bytes)
    ensures EscapedText(text, 0) + (EscapedText(more, 0) + tail) == EscapedText(text + more, 0) + tail
  {
    EscapedAppend(text, more, 0);
  }

  lemma PrintableStep(ns: seq<Node>)
    requires PrintableAll(ns) && ns != []
    ensures Printable(ns[0]) && PrintableAll(ns[1..]) && (ns[0].Data? ==> 0 !in ns[0].text)
  {
  }

  /** Children after some text read back one after the other, up to the closing tag. */
  lemma {:induction false} ReadChildren(text: Bytes, ns: seq<Node>, name: Bytes, after: Bytes)
    requires GoodName(name) && PrintableAll(ns) && 0 !in text
    ensures ContentsAt(true, EscapedText(text, 0) + (ChildrenText(ns) + Closing(name, after)))
         == Contents(Gather(text, ns), after)
    decreases ns, 0
  {
    hide NodeAt, ContentsAt, NodeText, Printable, PrintableAll, Normal, Closing, ChildrenText, Gather, TagText, EscapedText,
         GoodName, Run;
    GatherStep(text, ns);
    var closing := Closing(name, after);
    if ns == [] {
      NameStarts(name);
      ClosingStarts(name, after);
      ReadClosing(true, name, after);
      ReadRun(text, closing);
      assert ChildrenText(ns) + closing == closing;
      assert Run(text) + [] == Run(text);
    } else {
      PrintableStep(ns);
      ChildrenStep(ns, closing);
      var more := ChildrenText(ns[1..]) + closing;
      if ns[0].Data? {
        EscapedJoin(text, ns[0].text, more);
        ReadChildren(text + ns[0].text, ns[1..], name, after);
      } else {
        ReadNode(ns[0], more);
        ReadChildren([], ns[1..], name, after);
        NoText(more);
        ReadTagged(text, ns[0], more);
      }
    }
  }

  /** A tag after some text. */
  lemma ReadTagged(text: Bytes, n: Node, more: Bytes)
    requires 0 !in text && !n.Data?
    requires NodeText(n) == [LT] + TagText(n) && TagText(n) != [] && TagText(n)[0] != SLASH
    requires NodeAt(TagText(n) + more) == Made(Normal(n), more)
    ensures ContentsAt(true, EscapedText(text, 0) + (NodeText(n) + more))
         == Under(Run(text) + [Normal(n)], ContentsAt(true, more))
  {
    hide NodeAt, ContentsAt, NodeText, Normal, TagText, EscapedText, Run, Under;
    assert NodeText(n) + more == [LT] + (TagText(n) + more);
    ReadTag(true, TagText(n) + more, Normal(n), more);
    ReadRun(text, NodeText(n) + more);
    UnderTwice(Run(text), [Normal(n)], ContentsAt(true, more));
  }

  // ---------------------------------------------------------------- documents

  /** Outside the elements there is at most white space. */
  predicate TopBlank(ns: seq<Node>) {
    forall i :: 0 <= i < |ns| && ns[i].Data? ==> Blank(ns[i].text)
  }

  lemma DocumentTurn(inner: Bytes, node: Node, after: Bytes)
    requires NodeAt(inner) == Made(node, after)
    ensures DocumentAt([LT] + inner)
         == match DocumentAt(after) { case Parsed(children) => Parsed([node] + children) case _ => DocumentAt(after) }
  {
    hide NodeAt;
    NoSpace([LT] + inner);
    assert ([LT] + inner)[1..] == inner;
  }

  /** Text before a tag or the end of the document: skipped when it is blank, refused otherwise. */
  lemma TopText(text: Bytes, after: Bytes)
    requires 0 !in text && (after == [] || Peek(after) == LT)
    ensures var d := DocumentAt(EscapedText(text, 0) + after);
            if Blank(text) then d == DocumentAt(after) else d.ParseError? && d.fault == ExpectedLess
  {
    hide NodeAt;
    if Blank(text) {
      BlankIsPlain(text);
      SpanOf(Space, text, after);
      NoSpace(after);
    } else {
      DataShows(text, after);
    }
  }

  /** What the printed siblings read as, at the top level and after some text. */
  predicate ReadsAs(d: Parsed, text: Bytes, ns: seq<Node>) {
    if Blank(text) && TopBlank(ns) then d == Parsed(Gather(text, ns)) else d.ParseError? && d.fault == ExpectedLess
  }

  lemma {:induction false} ReadDocument(text: Bytes, ns: seq<Node>)
    requires PrintableAll(ns) && 0 !in text
    ensures ReadsAs(DocumentAt(EscapedText(text, 0) + ChildrenText(ns)), text, ns)
    decreases ns
  {
    hide NodeAt, NodeText, Printable, PrintableAll, Normal, TagText, DocumentAt, ChildrenText, Gather, EscapedText, Blank;
    GatherStep(text, ns);
    if ns == [] {
      EmptyDocument();
      TopText(text, []);
    } else {
      PrintableStep(ns);
      ChildrenStep(ns, []);
      assert ChildrenText(ns) + [] == ChildrenText(ns) && ChildrenText(ns[1..]) + [] == ChildrenText(ns[1..]);
      var more := ChildrenText(ns[1..]);
      if ns[0].Data? {
        EscapedJoin(text, ns[0].text, more);
        ReadDocument(text + ns[0].text, ns[1..]);
        JoinBlank(text, ns);
      } else {
        ReadDocument([], ns[1..]);
        NoText(more);
        ReadNode(ns[0], more);
        assert NodeText(ns[0]) + more == [LT] + (TagText(ns[0]) + more);
        DocumentTurn(TagText(ns[0]) + more, Normal(ns[0]), more);
        TopText(text, NodeText(ns[0]) + more);
        SkipTop(text, ns);
      }
    }
  }

  lemma JoinBlank(text: Bytes, ns: seq<Node>)
    requires ns != [] && ns[0].Data?
    ensures Blank(text) && TopBlank(ns) <==> Blank(text + ns[0].text) && TopBlank(ns[1..])
  {
    var t := text + ns[0].text;
    if Blank(t) && TopBlank(ns[1..]) {
      forall i | 0 <= i < |text| ensures In(Space, text[i]) { assert t[i] == text[i]; }
      forall i | 0 <= i < |ns[0].text| ensures In(Space, ns[0].text[i]) { assert t[|text| + i] == ns[0].text[i]; }
      assert forall i :: 0 < i < |ns| ==> ns[i] == ns[1..][i - 1];
    }
  }

  lemma SkipTop(text: Bytes, ns: seq<Node>)
    requires ns != [] && !ns[0].Data?
    ensures TopBlank(ns) <==> TopBlank(ns[1..])
    ensures Blank([]) && (Blank(text) ==> Run(text) == [] && Gather(text, ns) == [Normal(ns[0])] + Gather([], ns[1..]))
  {
    hide Normal;
    assert forall i :: 0 < i < |ns| ==> ns[i] == ns[1..][i - 1];
    if Blank(text) {
      assert [] + ([Normal(ns[0])] + Gather([], ns[1..])) == [Normal(ns[0])] + Gather([], ns[1..]);
    }
  }

  lemma EmptyDocument()
    ensures DocumentAt([]) == Parsed([])
  {
  }

  /** A document never starts with the byte order mark, which the parser would skip. */
  lemma {:induction false} NoMark(ns: seq<Node>)
    requires TopBlank(ns)
    ensures var c := Peek(ChildrenText(ns)); ChildrenText(ns) == [] || c == LT || IsSpace(c)
    decreases ns
  {
    hide AttributesText;
    if ns != [] {
      if ns[0].Data? {
        BlankIsPlain(ns[0].text);
        if ns[0].text == [] {
          NoMark(ns[1..]);
          assert ChildrenText(ns) == ChildrenText(ns[1..]);
        } else {
          assert ChildrenText(ns)[0] == ns[0].text[0] && In(Space, ns[0].text[0]);
        }
      }
    }
  }

  /** Parsing the printed text of any document gives its normal form. */
  lemma NormalRoundTrip(ns: seq<Node>)
    requires PrintableAll(ns) && TopBlank(ns)
    ensures Parse(ChildrenText(ns)) == Parsed(Gather([], ns))
  {
    hide ChildrenText, DocumentAt, Printable, Gather, EscapedText;
    ReadDocument([], ns);
    NoText(ChildrenText(ns));
    NoMark(ns);
    assert !(BOM <= ChildrenText(ns));
  }

  // ---------------------------------------------------------------- exactly when the tree comes back

  predicate DataApart(ns: seq<Node>) {
    forall i :: 0 <= i < |ns| - 1 ==> !(ns[i].Data? && ns[i + 1].Data?)
  }

  predicate NoBlankData(ns: seq<Node>) {
    forall i :: 0 <= i < |ns| && ns[i].Data? ==> !Blank(ns[i].text)
  }

  /**
    Trees in the form the parser builds: every element's value repeats its first data, no two data nodes are
    adjacent, and none is blank.
   */
  predicate Settled(n: Node)
    decreases n
  {
    n.Element? ==>
      && n.value == ValueOf([], n.children) && DataApart(n.children) && NoBlankData(n.children)
      && forall i :: 0 <= i < |n.children| ==> Settled(n.children[i])
  }

  predicate SettledAll(ns: seq<Node>) {
    DataApart(ns) && NoBlankData(ns) && forall i :: 0 <= i < |ns| ==> Settled(ns[i])
  }

  /** What is gathered has no adjacent and no blank data. */
  lemma {:induction false} GatherTidies(text: Bytes, ns: seq<Node>)
    ensures DataApart(Gather(text, ns)) && NoBlankData(Gather(text, ns))
    decreases ns
  {
    hide Normal, Blank;
    if ns != [] {
      if ns[0].Data? {
        GatherTidies(text + ns[0].text, ns[1..]);
      } else {
        GatherTidies([], ns[1..]);
        JoinTidy(Run(text), Normal(ns[0]), Gather([], ns[1..]));
      }
    }
  }

  lemma JoinTidy(run: seq<Node>, n: Node, more: seq<Node>)
    requires |run| <= 1 && !n.Data? && DataApart(more) && NoBlankData(run) && NoBlankData(more)
    ensures DataApart(run + ([n] + more)) && NoBlankData(run + ([n] + more))
  {
    hide Blank;
    var r := run + ([n] + more);
    var k := |run| + 1;
    assert forall i :: k <= i < |r| ==> r[i] == more[i - k];
  }

  /** The normal forms one by one. */
  function Each(ns: seq<Node>): seq<Node> {
    seq(|ns|, i requires 0 <= i < |ns| => Normal(ns[i]))
  }

  /** Where no data is adjacent or blank, gathering only normalises each node. */
  lemma {:induction false} TidyGather(ns: seq<Node>)
    requires DataApart(ns) && NoBlankData(ns)
    ensures Gather([], ns) == Each(ns)
    decreases ns
  {
    hide Normal, Gather;
    GatherStep([], ns);
    NoText([]);
    if ns != [] {
      var rest := ns[1..];
      assert forall i :: 0 <= i < |rest| ==> rest[i] == ns[i + 1];
      TidyGather(rest);
      assert Each(ns) == [Normal(ns[0])] + Each(rest);
      if ns[0].Data? {
        assert [] + ns[0].text == ns[0].text;
        GatherRun(ns[0].text, rest);
        DataIsNormal(ns[0]);
      } else {
        assert [] + ([Normal(ns[0])] + Each(rest)) == [Normal(ns[0])] + Each(rest);
      }
    }
  }

  lemma DataIsNormal(n: Node)
    requires n.Data?
    ensures Normal(n) == n && n == Data(n.text)
  {
  }

  lemma GatherRun(text: Bytes, ns: seq<Node>)
    requires ns != [] ==> !ns[0].Data?
    ensures Gather(text, ns) == Run(text) + Gather([], ns)
  {
    hide Normal, Gather, Run;
    GatherStep(text, ns);
    GatherStep([], ns);
    NoText([]);
    if ns == [] {
      assert Run(text) + [] == Run(text);
    } else {
      var more := [Normal(ns[0])] + Gather([], ns[1..]);
      assert [] + more == more;
    }
  }

  lemma {:induction false} NormalFixed(n: Node)
    ensures Normal(n) == n <==> Settled(n)
    decreases n, 1
  {
    hide Gather, ValueOf, DataApart, NoBlankData, Blank;
    if n.Element? {
      NoValue();
      if n.children == [] {
        NoSiblings();
      } else {
        GatherFixed(n.children);
      }
    }
  }

  lemma NoSiblings()
    ensures DataApart([]) && NoBlankData([])
  {
  }

  lemma {:induction false} GatherFixed(ns: seq<Node>)
    ensures Gather([], ns) == ns <==> SettledAll(ns)
    decreases ns, 0
  {
    hide Gather, Normal, Settled, DataApart, NoBlankData;
    GatherTidies([], ns);
    if DataApart(ns) && NoBlankData(ns) {
      TidyGather(ns);
      forall i | 0 <= i < |ns| ensures Each(ns)[i] == ns[i] <==> Settled(ns[i]) {
        NormalFixed(ns[i]);
      }
    }
  }

  /** The parser makes no data at the top level. */
  lemma {:induction false} NoTopData(s: Bytes)
    requires DocumentAt(s).Parsed?
    ensures forall i :: 0 <= i < |DocumentAt(s).children| ==> !DocumentAt(s).children[i].Data?
    decreases |s|
  {
    hide NodeAt;
    var t := SkipSpace(s);
    if Peek(t) == LT {
      var r := NodeAt(t[1..]);
      NodeIsNoData(t[1..]);
      if r.Made? || r.Nothing? {
        NoTopData(r.rest);
      }
    }
  }

  lemma NodeIsNoData(s: Bytes)
    ensures NodeAt(s).Made? ==> !NodeAt(s).node.Data?
  {
    hide AttributesAt, ContentsAt, Span, SkipSpace, SkipPast, SkipDoctype, ValueOf;
  }

  /**
    The round trip, exactly. For a document with legal names, NUL-free text and CDATA free of its own end mark,
    parsing what was printed rebuilds the tree if and only if it holds data inside elements only, nowhere adjacent
    and nowhere blank, and every element's value repeats its first data.
   */
  lemma DocumentRoundTrip(ns: seq<Node>)
    requires PrintableAll(ns)
    ensures Parse(ChildrenText(ns)) == Parsed(ns) <==> SettledAll(ns) && forall i :: 0 <= i < |ns| ==> !ns[i].Data?
  {
    hide ChildrenText, DocumentAt, Printable, Gather, Settled;
    if forall i :: 0 <= i < |ns| ==> !ns[i].Data? {
      NormalRoundTrip(ns);
      GatherFixed(ns);
    } else if Parse(ChildrenText(ns)).Parsed? {
      NoTopData(if BOM <= ChildrenText(ns) then ChildrenText(ns)[3..] else ChildrenText(ns));
    }
  }

  /** <a>xy</a> is what an element with the data "x" and "y" prints as; one piece of data comes back. */
  lemma AdjacentData()
    ensures var ns := [Element([0x61], [0x78], [], [Data([0x78]), Data([0x79])])];
            PrintableAll(ns) && Parse(ChildrenText(ns)) == Parsed([Element([0x61], [0x78, 0x79], [], [Data([0x78, 0x79])])])
  {
    hide Parse, ChildrenText;
    var ds := [Data([0x78]), Data([0x79])];
    var ns := [Element([0x61], [0x78], [], ds)];
    NormalRoundTrip(ns);
    GatherTwo();
    NoText([]);
    hide Gather;
    assert ValueOf([], [Data([0x78, 0x79])]) == [0x78, 0x79];
    GatherStep([], ns);
    GatherStep([], []);
    assert ns[1..] == [];
  }

  lemma GatherTwo()
    ensures Gather([], [Data([0x78]), Data([0x79])]) == [Data([0x78, 0x79])]
  {
    hide Gather;
    var ds, text := [Data([0x78]), Data([0x79])], [0x78, 0x79];
    GatherStep([], ds);
    GatherStep([0x78], ds[1..]);
    GatherStep(text, []);
    assert [] + [0x78] == [0x78] && [0x78] + [0x79] == text && ds[1..][1..] == [];
    assert !In(Space, text[0]);
  }

  /** <a> </a> is what an element with the data " " prints as; nothing of the data comes back. */
  lemma BlankData()
    ensures var ns := [Element([0x61], [0x20], [], [Data([0x20])])];
            PrintableAll(ns) && Parse(ChildrenText(ns)) == Parsed([Element([0x61], [], [], [])])
  {
    hide Parse, ChildrenText;
    var ds := [Data([0x20])];
    var ns := [Element([0x61], [0x20], [], ds)];
    NormalRoundTrip(ns);
    assert ds[1..] == [] && ns[1..] == [] && [] + [0x20] == [0x20];
    assert Gather([0x20], []) == [];
    assert Gather([], ds) == Gather([0x20], ds[1..]);
    NoText([]);
    NoValue();
  }
}
