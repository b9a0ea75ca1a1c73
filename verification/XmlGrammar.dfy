/**
  XML by its grammar, independently of the printer: elements with white space where XML 1.0 allows it, attributes in
  either quotes, references, comments, CDATA sections, processing instructions and a document type without an internal
  subset. Each has its text and the nodes it stands for, and the parser finds them.
 */
module XmlGrammar {
  import opened Json
  import opened Numbers
  import opened XmlSpec
  import opened XmlRoundTrip
  import opened XmlReference

  // ---------------------------------------------------------------- names and white space (section 2.3)

  /** S ::= (#x20 | #x9 | #xD | #xA)+, or none. */
  predicate White(s: Bytes) {
    forall i :: 0 <= i < |s| ==> s[i] == 0x20 || s[i] == 0x09 || s[i] == 0x0D || s[i] == 0x0A
  }

  /** Letters, '_', ':' and whatever is not ASCII; then also digits, '-' and '.'. */
  predicate NameStart(c: Byte) {
    0x41 <= c <= 0x5A || 0x61 <= c <= 0x7A || c == 0x5F || c == 0x3A || c >= 0x80
  }

  predicate NameByte(c: Byte) {
    NameStart(c) || 0x30 <= c <= 0x39 || c == 0x2D || c == 0x2E
  }

  predicate Name(s: Bytes) {
    s != [] && NameStart(s[0]) && forall i :: 0 <= i < |s| ==> NameByte(s[i])
  }

  lemma NameIsIn(s: Bytes)
    requires Name(s)
    ensures AllIn(NodeName, s) && AllIn(AttributeName, s)
    ensures s[0] != 0x3F && s[0] != 0x21 && s[0] != 0x2F && !IsSpace(s[0])
  {
  }

  lemma WhiteIsIn(s: Bytes)
    ensures White(s) <==> AllIn(Space, s)
  {
  }

  // ---------------------------------------------------------------- derivations

  datatype Attr =
    Attr(before: Bytes, name: Bytes, beforeEquals: Bytes, afterEquals: Bytes, quote: Byte, value: seq<Item>)

  /** The name, the attributes and the white space behind them. */
  datatype Head = Head(name: Bytes, attributes: seq<Attr>, after: Bytes)

  datatype Markup =
    | CharData(items: seq<Item>)
    | Section(text: Bytes)
    | Comment(text: Bytes)
    | Instruction(text: Bytes)
    | EmptyTag(head: Head)
    | Tags(head: Head, content: seq<Markup>, closing: Bytes)

  predicate LegalAttr(a: Attr) {
    && a.before != [] && White(a.before) && Name(a.name) && White(a.beforeEquals) && White(a.afterEquals)
    && (a.quote == 0x22 || a.quote == 0x27) && LegalItems(ValueChars(a.quote), a.value)
  }

  predicate LegalHead(h: Head) {
    Name(h.name) && White(h.after) && forall i :: 0 <= i < |h.attributes| ==> LegalAttr(h.attributes[i])
  }

  /** The end mark comes nowhere before the end. */
  predicate EndsAt(text: Bytes, mark: Bytes) {
    0 !in text && forall i :: 0 <= i < |text| ==> !(mark <= (text + mark)[i..])
  }

  predicate LegalMarkup(m: Markup)
    decreases m
  {
    match m
    case CharData(items) => items != [] && LegalItems(TextChars, items)
    case Section(text) => EndsAt(text, [0x5D, 0x5D, 0x3E])
    case Comment(text) => EndsAt(text, [0x2D, 0x2D, 0x3E])
    case Instruction(text) => text != [] && NameStart(text[0]) && EndsAt(text, [0x3F, 0x3E])
    case EmptyTag(head) => LegalHead(head)
    case Tags(head, content, closing) => LegalHead(head) && White(closing) && LegalContent(content)
  }

  /** Character data is in one piece between other markup. */
  predicate LegalContent(ms: seq<Markup>)
    decreases ms
  {
    ms == []
    || (LegalMarkup(ms[0]) && LegalContent(ms[1..]) && (|ms| > 1 && ms[0].CharData? ==> !ms[1].CharData?))
  }

  function AttrText(a: Attr): Bytes {
    a.before + (a.name + (a.beforeEquals + ([0x3D] + (a.afterEquals + ([a.quote] + (ItemsText(a.value) + [a.quote]))))))
  }

  function AttrsText(list: seq<Attr>): Bytes {
    if list == [] then [] else AttrText(list[0]) + AttrsText(list[1..])
  }

  function HeadText(h: Head): Bytes {
    h.name + (AttrsText(h.attributes) + h.after)
  }

  function MarkupText(m: Markup): Bytes
    decreases m
  {
    match m
    case CharData(items) => ItemsText(items)
    case Section(text) => [0x3C, 0x21, 0x5B, 0x43, 0x44, 0x41, 0x54, 0x41, 0x5B] + (text + [0x5D, 0x5D, 0x3E])
    case Comment(text) => [0x3C, 0x21, 0x2D, 0x2D] + (text + [0x2D, 0x2D, 0x3E])
    case Instruction(text) => [0x3C, 0x3F] + (text + [0x3F, 0x3E])
    case EmptyTag(head) => [0x3C] + (HeadText(head) + [0x2F, 0x3E])
    case Tags(head, content, closing) =>
      [0x3C] + (HeadText(head) + ([0x3E] + (ContentText(content) + ([0x3C, 0x2F] + (head.name + (closing + [0x3E]))))))
  }

  function ContentText(ms: seq<Markup>): Bytes
    decreases ms
  {
    if ms == [] then [] else MarkupText(ms[0]) + ContentText(ms[1..])
  }

  // ---------------------------------------------------------------- meaning

  function AttrMeans(a: Attr): Attribute
    requires LegalAttr(a)
  {
    Attribute(a.name, ItemsBytes(ValueChars(a.quote), a.value))
  }

  function AttrsMean(list: seq<Attr>): seq<Attribute>
    requires forall i :: 0 <= i < |list| ==> LegalAttr(list[i])
  {
    if list == [] then [] else [AttrMeans(list[0])] + AttrsMean(list[1..])
  }

  /** Only white space, and none of it by reference. */
  predicate WhiteItems(items: seq<Item>) {
    forall i :: 0 <= i < |items| ==> WhiteItem(items[i])
  }

  predicate WhiteItem(t: Item) {
    t.Itself? && (t.c == 0x20 || t.c == 0x09 || t.c == 0x0D || t.c == 0x0A)
  }

  /**
    The nodes: one for character data unless it is white space, one for a CDATA section, one for an element, whose
    value is its first character data, and none for comments and instructions.
   */
  function MarkupNodes(m: Markup): seq<Node>
    requires LegalMarkup(m)
    decreases m
  {
    match m
    case CharData(items) => if WhiteItems(items) then [] else [Data(ItemsBytes(TextChars, items))]
    case Section(text) => [Cdata(text)]
    case Comment(_) => []
    case Instruction(_) => []
    case EmptyTag(head) => [Element(head.name, [], AttrsMean(head.attributes), [])]
    case Tags(head, content, _) =>
      var children := ContentNodes(content);
      [Element(head.name, ValueOf([], children), AttrsMean(head.attributes), children)]
  }

  function ContentNodes(ms: seq<Markup>): seq<Node>
    requires LegalContent(ms)
    decreases ms
  {
    if ms == [] then [] else MarkupNodes(ms[0]) + ContentNodes(ms[1..])
  }

  // ---------------------------------------------------------------- attributes

  lemma SpaceThen(s: Bytes, tail: Bytes)
    requires White(s) && Stops(Space, tail)
    ensures SkipSpace(s + tail) == tail
  {
    WhiteIsIn(s);
    SpanOf(Space, s, tail);
  }

  lemma ReadAttr(a: Attr, tail: Bytes)
    requires LegalAttr(a)
    ensures var s := a.name + (a.beforeEquals + ([0x3D] + (a.afterEquals + ([a.quote] + (ItemsText(a.value) + ([a.quote] + tail))))));
            && s != [] && In(AttributeName, s[0]) && !IsSpace(s[0])
            && AttributeAt(s) == OneAttribute(AttrMeans(a), SkipSpace(tail))
  {
    hide Expand, Span, SkipSpace, ItemsText, ItemsBytes, LegalItems, White, Name;
    var quoted := [a.quote] + (ItemsText(a.value) + ([a.quote] + tail));
    var equals := [0x3D] + (a.afterEquals + quoted);
    var s := a.name + (a.beforeEquals + equals);
    NameIsIn(a.name);
    assert a.name != [] by { NameNotEmpty(a.name); }
    assert s[0] == a.name[0];
    AfterName(a.beforeEquals, equals);
    SpanOf(AttributeName, a.name, a.beforeEquals + equals);
    SpaceThen(a.beforeEquals, equals);
    assert equals[1..] == a.afterEquals + quoted;
    SpaceThen(a.afterEquals, quoted);
    assert quoted[1..] == ItemsText(a.value) + ([a.quote] + tail);
    ExpandMeans(ValueChars(a.quote), a.value, [a.quote] + tail);
    assert ([a.quote] + tail)[1..] == tail;
  }

  lemma NameNotEmpty(s: Bytes)
    requires Name(s)
    ensures s != [] && In(AttributeName, s[0]) && !IsSpace(s[0])
  {
    NameIsIn(s);
  }

  lemma AfterName(white: Bytes, equals: Bytes)
    requires White(white) && equals != [] && equals[0] == 0x3D
    ensures Stops(AttributeName, white + equals) && Stops(Space, equals)
  {
  }

  lemma AttrFirst(list: seq<Attr>, tail: Bytes)
    requires list != []
    ensures var a := list[0];
            AttrsText(list) + tail
            == a.before + (a.name + (a.beforeEquals + ([0x3D] + (a.afterEquals + ([a.quote] + (ItemsText(a.value)
                 + ([a.quote] + (AttrsText(list[1..]) + tail))))))))
  {
    hide ItemsText;
    var a, more := list[0], AttrsText(list[1..]) + tail;
    assert AttrsText(list) + tail == AttrText(a) + more;
    assert AttrText(a) + more
        == a.before + (a.name + (a.beforeEquals + ([0x3D] + (a.afterEquals + ([a.quote] + (ItemsText(a.value)
             + ([a.quote] + more)))))));
  }

  lemma {:induction false} ReadAttrs(list: seq<Attr>, after: Bytes, tail: Bytes)
    requires (forall i :: 0 <= i < |list| ==> LegalAttr(list[i])) && White(after) && EndsTag(tail)
    ensures AttributesAt(SkipSpace(AttrsText(list) + (after + tail))) == Attributes(AttrsMean(list), tail)
    decreases list
  {
    hide AttributeAt, SkipSpace, AttrsText, AttributesAt, LegalAttr, White, AttrMeans;
    if list == [] {
      NoAttrs(after, tail);
    } else {
      var a, more := list[0], AttrsText(list[1..]) + (after + tail);
      var s := a.name + (a.beforeEquals + ([0x3D] + (a.afterEquals + ([a.quote] + (ItemsText(a.value) + ([a.quote] + more))))));
      AttrFirst(list, after + tail);
      ReadAttr(a, more);
      assert White(a.before) by { AttrParts(a); }
      SpaceThen(a.before, s);
      ReadAttrs(list[1..], after, tail);
      AttributesTurn(s, AttrMeans(a), SkipSpace(more), AttrsMean(list[1..]), tail);
    }
  }

  lemma AttrParts(a: Attr)
    requires LegalAttr(a)
    ensures White(a.before)
  {
  }

  lemma NoAttrs(after: Bytes, tail: Bytes)
    requires White(after) && EndsTag(tail)
    ensures AttributesAt(SkipSpace(AttrsText([]) + (after + tail))) == Attributes([], tail)
  {
    assert AttrsText([]) + (after + tail) == after + tail;
    SpaceThen(after, tail);
  }

  // ---------------------------------------------------------------- tags

  lemma AfterHead(h: Head, tail: Bytes)
    requires LegalHead(h) && EndsTag(tail)
    ensures Stops(NodeName, AttrsText(h.attributes) + (h.after + tail))
  {
    hide ItemsText;
    if h.attributes == [] {
      assert AttrsText(h.attributes) + (h.after + tail) == h.after + tail;
    } else {
      var a := h.attributes[0];
      assert LegalAttr(a);
      AttrFirst(h.attributes, h.after + tail);
    }
  }

  lemma HeadSplit(h: Head, tail: Bytes)
    ensures HeadText(h) + tail == h.name + (AttrsText(h.attributes) + (h.after + tail))
  {
    hide AttrsText;
    assert h.name + (AttrsText(h.attributes) + h.after) + tail == h.name + (AttrsText(h.attributes) + (h.after + tail));
  }

  /** The name and the attributes of a tag. */
  lemma ReadTagHead(h: Head, tail: Bytes)
    requires LegalHead(h) && EndsTag(tail)
    ensures var s := HeadText(h) + tail;
            && s != [] && s[0] != QUERY && s[0] != BANG && s[0] != SLASH
            && Span(NodeName, s) == |h.name| && s[..|h.name|] == h.name && h.name != []
            && AttributesAt(SkipSpace(s[|h.name|..])) == Attributes(AttrsMean(h.attributes), tail)
  {
    hide SkipSpace, Span, AttributesAt, AttrsText, White, LegalAttr, HeadText;
    NameIsIn(h.name);
    HeadSplit(h, tail);
    AfterHead(h, tail);
    SpanOf(NodeName, h.name, AttrsText(h.attributes) + (h.after + tail));
    ReadAttrs(h.attributes, h.after, tail);
    assert (HeadText(h) + tail)[0] == h.name[0];
  }

  lemma ReadEmptyTag(h: Head, after: Bytes)
    requires LegalHead(h)
    ensures NodeAt(HeadText(h) + ([0x2F, 0x3E] + after)) == Made(Element(h.name, [], AttrsMean(h.attributes), []), after)
    ensures HeadText(h) + ([0x2F, 0x3E] + after) != [] && (HeadText(h) + ([0x2F, 0x3E] + after))[0] != SLASH
  {
    hide SkipSpace, Span, AttributesAt, ContentsAt, HeadText, LegalHead, AttrsMean;
    var tail := [0x2F, 0x3E] + after;
    ReadTagHead(h, tail);
    assert Peek(tail) == SLASH && Peek(tail[1..]) == GT && tail[2..] == after;
  }

  lemma ReadOpenTag(h: Head, inside: Bytes, children: seq<Node>, after: Bytes)
    requires LegalHead(h) && ContentsAt(true, inside) == Contents(children, after)
    ensures NodeAt(HeadText(h) + ([0x3E] + inside))
         == Made(Element(h.name, ValueOf([], children), AttrsMean(h.attributes), children), after)
    ensures HeadText(h) + ([0x3E] + inside) != [] && (HeadText(h) + ([0x3E] + inside))[0] != SLASH
  {
    hide SkipSpace, Span, AttributesAt, ContentsAt, HeadText, LegalHead, AttrsMean, ValueOf;
    var tail := [0x3E] + inside;
    ReadTagHead(h, tail);
    assert Peek(tail) == GT && tail[1..] == inside;
  }

  /** "</", a name, white space and ">". */
  function CloseTag(name: Bytes, white: Bytes, after: Bytes): Bytes {
    [0x3C, 0x2F] + (name + (white + ([0x3E] + after)))
  }

  lemma ReadCloseTag(name: Bytes, white: Bytes, after: Bytes)
    requires Name(name) && White(white)
    ensures ContentsAt(true, CloseTag(name, white, after)) == Contents([], after)
    ensures Peek(CloseTag(name, white, after)) == LT
  {
    hide SkipSpace, Span, White, Name;
    var s := CloseTag(name, white, after);
    var end := [0x3E] + after;
    NameIsIn(name);
    NoSpace(s);
    assert s[2..] == name + (white + end);
    WhiteThenEnd(white, end);
    SpanOf(NodeName, name, white + end);
    SpaceThen(white, end);
    assert end[1..] == after;
  }

  lemma WhiteThenEnd(white: Bytes, end: Bytes)
    requires White(white) && end != [] && end[0] == 0x3E
    ensures Stops(NodeName, white + end) && Stops(Space, end)
  {
  }

  // ---------------------------------------------------------------- other markup

  /** The end mark is found where it first occurs. */
  lemma {:induction false} SkipFound(mark: Bytes, text: Bytes, tail: Bytes)
    requires mark != [] && EndsAt(text, mark)
    ensures SkipPast(mark, text + (mark + tail)) == Past(|text|, tail)
    decreases text
  {
    var s := text + (mark + tail);
    if text == [] {
      assert s == mark + tail && s[|mark|..] == tail;
    } else {
      assert (text + mark)[0..] == text + mark && s == (text + mark) + tail;
      assert !(mark <= s) by {
        assert s[..|mark|] == (text + mark)[..|mark|];
      }
      assert s[1..] == text[1..] + (mark + tail);
      forall i | 0 <= i < |text[1..]| ensures !(mark <= (text[1..] + mark)[i..]) {
        assert (text[1..] + mark)[i..] == (text + mark)[i + 1..];
      }
      SkipFound(mark, text[1..], tail);
    }
  }

  lemma ReadSection(text: Bytes, after: Bytes)
    requires EndsAt(text, [0x5D, 0x5D, 0x3E])
    ensures var s := [0x21, 0x5B, 0x43, 0x44, 0x41, 0x54, 0x41, 0x5B] + (text + ([0x5D, 0x5D, 0x3E] + after));
            NodeAt(s) == Made(Cdata(text), after)
  {
    hide SkipPast, EndsAt;
    var s := [0x21, 0x5B, 0x43, 0x44, 0x41, 0x54, 0x41, 0x5B] + (text + ([0x5D, 0x5D, 0x3E] + after));
    SkipFound([0x5D, 0x5D, 0x3E], text, after);
    assert CDATA_OPEN <= s && s[8..] == text + ([0x5D, 0x5D, 0x3E] + after) && s[1] == 0x5B;
    assert s[8..8 + |text|] == text;
  }

  lemma ReadComment(text: Bytes, after: Bytes)
    requires EndsAt(text, [0x2D, 0x2D, 0x3E])
    ensures NodeAt([0x21, 0x2D, 0x2D] + (text + ([0x2D, 0x2D, 0x3E] + after))) == Nothing(after)
  {
    hide SkipPast, EndsAt;
    var s := [0x21, 0x2D, 0x2D] + (text + ([0x2D, 0x2D, 0x3E] + after));
    SkipFound([0x2D, 0x2D, 0x3E], text, after);
    assert COMMENT_OPEN <= s && s[3..] == text + ([0x2D, 0x2D, 0x3E] + after);
  }

  lemma EndsLater(text: Bytes, mark: Bytes, n: nat)
    requires EndsAt(text, mark) && n <= |text|
    ensures EndsAt(text[n..], mark)
  {
    forall i | 0 <= i < |text[n..]| ensures !(mark <= (text[n..] + mark)[i..]) {
      assert (text[n..] + mark)[i..] == (text + mark)[n + i..];
    }
  }

  lemma ReadInstruction(text: Bytes, after: Bytes)
    requires text != [] && NameStart(text[0]) && EndsAt(text, [0x3F, 0x3E])
    ensures NodeAt([0x3F] + (text + ([0x3F, 0x3E] + after))) == Nothing(after)
  {
    hide SkipPast, EndsAt, IsDeclaration, NodeAt;
    var end := [0x3F, 0x3E] + after;
    var s := [0x3F] + (text + end);
    assert s[1..] == text + end;
    if IsDeclaration(s[1..]) {
      DeclarationInside(text, end);
    }
    InstructionAt(s);
    if IsDeclaration(s[1..]) {
      EndsLater(text, [0x3F, 0x3E], 4);
      SkipFound([0x3F, 0x3E], text[4..], after);
      assert s[5..] == text[4..] + end;
    } else {
      SkipFound([0x3F, 0x3E], text, after);
    }
  }

  lemma InstructionAt(s: Bytes)
    requires s != [] && s[0] == 0x3F && (IsDeclaration(s[1..]) ==> |s| >= 5)
    ensures NodeAt(s) == FromSkip(SkipPast([0x3F, 0x3E], if IsDeclaration(s[1..]) then s[5..] else s[1..]))
  {
    hide SkipPast, IsDeclaration;
  }

  /** "xml" and a space do not reach into the end mark. */
  lemma DeclarationInside(text: Bytes, end: Bytes)
    requires IsDeclaration(text + end) && end != [] && end[0] == 0x3F
    ensures |text| >= 4
  {
    var s := text + end;
    assert s[|text|] == 0x3F;
  }

  // ---------------------------------------------------------------- content

  lemma {:induction false} WhiteItemsText(items: seq<Item>)
    requires WhiteItems(items)
    ensures White(ItemsText(items)) && |ItemsText(items)| == |items|
    decreases items
  {
    if items != [] {
      WhiteItemsText(items[1..]);
    }
  }

  /** White space ends at an item that is not a white space character. */
  lemma {:induction false} DataStands(items: seq<Item>, tail: Bytes)
    requires LegalItems(TextChars, items) && !WhiteItems(items)
    ensures var t := SkipSpace(ItemsText(items) + tail); Peek(t) != LT && Peek(t) != 0
    decreases items
  {
    hide SkipSpace, ItemText, LegalItem, WhiteItem;
    var i :| 0 <= i < |items| && !WhiteItem(items[i]);
    var rest := ItemsText(items[1..]) + tail;
    assert ItemsText(items) + tail == ItemText(items[0]) + rest;
    if WhiteItem(items[0]) {
      assert items[1..][i - 1] == items[i];
      DataStands(items[1..], tail);
      OneWhite(items[0], rest);
    } else {
      NotWhiteStart(items[0], rest);
    }
  }

  lemma OneWhite(t: Item, rest: Bytes)
    requires WhiteItem(t)
    ensures SkipSpace(ItemText(t) + rest) == SkipSpace(rest)
  {
    SpaceFirst(t.c, rest);
  }

  lemma NotWhiteStart(t: Item, rest: Bytes)
    requires LegalItem(TextChars, t) && !WhiteItem(t)
    ensures var u := SkipSpace(ItemText(t) + rest); Peek(u) != LT && Peek(u) != 0
  {
    hide Number, IsHex, SkipSpace;
    var s := ItemText(t) + rest;
    FirstByte(t);
    assert s[0] == ItemText(t)[0];
    NoSpace(s);
  }

  lemma FirstByte(t: Item)
    requires LegalItem(TextChars, t) && !WhiteItem(t)
    ensures ItemText(t) != [] && !IsSpace(ItemText(t)[0]) && ItemText(t)[0] != 0x3C && ItemText(t)[0] != 0
  {
    hide Number, IsHex;
  }

  /** Character data in front of a tag. */
  lemma ReadCharData(items: seq<Item>, after: Bytes)
    requires LegalItems(TextChars, items) && Peek(after) == LT
    ensures ContentsAt(true, ItemsText(items) + after)
         == Under(if WhiteItems(items) then [] else [Data(ItemsBytes(TextChars, items))], ContentsAt(true, after))
  {
    hide SkipSpace, Expand, ItemsText, ItemsBytes, Under, ContentsAt, LegalItems, White;
    if WhiteItems(items) {
      WhiteItemsText(items);
      WhiteIsIn(ItemsText(items));
      BlankSkipped(ItemsText(items), after);
      UnderNothing(ContentsAt(true, after));
    } else {
      DataStands(items, after);
      ExpandMeans(TextChars, items, after);
      DataTurn(ItemsText(items) + after, ItemsBytes(TextChars, items), after);
      AtTag(after);
    }
  }

  lemma NothingTag(inner: Bytes, after: Bytes)
    requires inner != [] && inner[0] != SLASH && NodeAt(inner) == Nothing(after)
    ensures ContentsAt(true, [0x3C] + inner) == ContentsAt(true, after)
  {
    hide SkipSpace, NodeAt;
    var s := [0x3C] + inner;
    NoSpace(s);
    assert s[1..] == inner;
  }

  lemma ReadSpecial(m: Markup, more: Bytes) returns (inner: Bytes)
    requires LegalMarkup(m) && (m.Section? || m.Comment? || m.Instruction?)
    ensures MarkupText(m) + more == [0x3C] + inner && inner != [] && inner[0] != SLASH
    ensures NodeAt(inner) == if m.Section? then Made(Cdata(m.text), more) else Nothing(more)
  {
    hide NodeAt, EndsAt;
    match m
    case Section(text) =>
      inner := [0x21, 0x5B, 0x43, 0x44, 0x41, 0x54, 0x41, 0x5B] + (text + ([0x5D, 0x5D, 0x3E] + more));
      ReadSection(text, more);
      assert MarkupText(m) + more == [0x3C] + inner;
    case Comment(text) =>
      inner := [0x21, 0x2D, 0x2D] + (text + ([0x2D, 0x2D, 0x3E] + more));
      ReadComment(text, more);
      assert MarkupText(m) + more == [0x3C] + inner;
    case Instruction(text) =>
      inner := [0x3F] + (text + ([0x3F, 0x3E] + more));
      ReadInstruction(text, more);
      assert MarkupText(m) + more == [0x3C] + inner;
  }

  /** What stands behind the '<' of markup, and what it reads as. */
  lemma {:induction false} ReadMarkup(m: Markup, more: Bytes) returns (inner: Bytes)
    requires LegalMarkup(m) && !m.CharData?
    ensures MarkupText(m) + more == [0x3C] + inner && inner != [] && inner[0] != SLASH
    ensures m.Comment? || m.Instruction? ==> NodeAt(inner) == Nothing(more)
    ensures !m.Comment? && !m.Instruction? ==> |MarkupNodes(m)| == 1 && NodeAt(inner) == Made(MarkupNodes(m)[0], more)
    decreases m, 1
  {
    hide NodeAt, HeadText, ContentText, EndsAt, LegalHead, ContentsAt, ValueOf, White, AttrsMean, LegalContent, MarkupText,
         Name, CloseTag;
    if m.EmptyTag? {
      inner := HeadText(m.head) + ([0x2F, 0x3E] + more);
      ReadEmptyTag(m.head, more);
      EmptyTagText(m.head, more);
    } else if m.Tags? {
      var close := CloseTag(m.head.name, m.closing, more);
      inner := HeadText(m.head) + ([0x3E] + (ContentText(m.content) + close));
      HeadName(m.head);
      ReadContent(m.content, m.head.name, m.closing, more);
      ReadOpenTag(m.head, ContentText(m.content) + close, ContentNodes(m.content), more);
      TagsText(m.head, m.content, m.closing, more);
    } else {
      inner := ReadSpecial(m, more);
    }
  }

  lemma HeadName(h: Head)
    requires LegalHead(h)
    ensures Name(h.name)
  {
  }

  lemma EmptyTagText(head: Head, more: Bytes)
    ensures MarkupText(EmptyTag(head)) + more == [0x3C] + (HeadText(head) + ([0x2F, 0x3E] + more))
  {
    hide HeadText;
    assert (HeadText(head) + [0x2F, 0x3E]) + more == HeadText(head) + ([0x2F, 0x3E] + more);
  }

  lemma TagsText(head: Head, content: seq<Markup>, closing: Bytes, more: Bytes)
    ensures MarkupText(Tags(head, content, closing)) + more
         == [0x3C] + (HeadText(head) + ([0x3E] + (ContentText(content) + CloseTag(head.name, closing, more))))
  {
    hide HeadText, ContentText;
    var h, c := HeadText(head), ContentText(content);
    assert ([0x3C, 0x2F] + (head.name + (closing + [0x3E]))) + more == CloseTag(head.name, closing, more);
    assert c + ([0x3C, 0x2F] + (head.name + (closing + [0x3E]))) + more == c + CloseTag(head.name, closing, more);
  }

  lemma ContentStep(ms: seq<Markup>, tail: Bytes)
    requires ms != []
    ensures ContentText(ms) + tail == MarkupText(ms[0]) + (ContentText(ms[1..]) + tail)
  {
    hide MarkupText;
    assert MarkupText(ms[0]) + ContentText(ms[1..]) + tail == MarkupText(ms[0]) + (ContentText(ms[1..]) + tail);
  }

  /** What follows character data starts with '<'. */
  lemma StartsWithTag(ms: seq<Markup>, tail: Bytes)
    requires (ms != [] ==> !ms[0].CharData?) && Peek(tail) == LT
    ensures Peek(ContentText(ms) + tail) == LT
  {
    hide HeadText;
    if ms == [] {
      assert ContentText(ms) + tail == tail;
    } else {
      ContentStep(ms, tail);
    }
  }

  /** Content reads as its nodes, up to the closing tag. */
  lemma {:induction false} ReadContent(ms: seq<Markup>, name: Bytes, closing: Bytes, after: Bytes)
    requires LegalContent(ms) && Name(name) && White(closing)
    ensures ContentsAt(true, ContentText(ms) + CloseTag(name, closing, after)) == Contents(ContentNodes(ms), after)
    decreases ms, 0
  {
    hide NodeAt, ContentsAt, MarkupText, ContentText, CloseTag, LegalMarkup, MarkupNodes, Name, White;
    var close := CloseTag(name, closing, after);
    ReadCloseTag(name, closing, after);
    if ms == [] {
      NoContent(close);
    } else {
      var m, more := ms[0], ContentText(ms[1..]) + close;
      ContentStep(ms, close);
      ReadContent(ms[1..], name, closing, after);
      if m.CharData? {
        StartsWithTag(ms[1..], close);
        CharDataText(m);
        ReadCharData(m.items, more);
      } else {
        var inner := ReadMarkup(m, more);
        if m.Comment? || m.Instruction? {
          NothingTag(inner, more);
          NoNodes(m);
          assert [] + ContentNodes(ms[1..]) == ContentNodes(ms[1..]);
        } else {
          ReadTag(true, inner, MarkupNodes(m)[0], more);
          assert MarkupNodes(m) == [MarkupNodes(m)[0]];
        }
      }
    }
  }

  lemma NoContent(close: Bytes)
    ensures ContentText([]) + close == close
  {
  }

  lemma NoNodes(m: Markup)
    requires LegalMarkup(m) && (m.Comment? || m.Instruction?)
    ensures MarkupNodes(m) == []
  {
  }

  lemma CharDataText(m: Markup)
    requires m.CharData? && LegalMarkup(m)
    ensures MarkupText(m) == ItemsText(m.items) && LegalItems(TextChars, m.items)
    ensures MarkupNodes(m) == if WhiteItems(m.items) then [] else [Data(ItemsBytes(TextChars, m.items))]
  {
  }

  // ---------------------------------------------------------------- documents

  /** Outside the elements there is white space, and there a document type may stand. */
  datatype Top = Gap(white: Bytes) | Inner(m: Markup) | DocumentType(first: Byte, text: Bytes)

  predicate LegalTop(t: Top) {
    match t
    case Gap(white) => White(white)
    case Inner(m) => LegalMarkup(m) && !m.CharData?
    case DocumentType(white, text) =>
      White([white]) && forall i :: 0 <= i < |text| ==> text[i] != 0 && text[i] != 0x3E && text[i] != 0x5B
  }

  predicate LegalTops(ts: seq<Top>) {
    forall i :: 0 <= i < |ts| ==> LegalTop(ts[i])
  }

  function TopText(t: Top): Bytes {
    match t
    case Gap(white) => white
    case Inner(m) => MarkupText(m)
    case DocumentType(white, text) =>
      [0x3C, 0x21, 0x44, 0x4F, 0x43, 0x54, 0x59, 0x50, 0x45] + ([white] + (text + [0x3E]))
  }

  function TopsText(ts: seq<Top>): Bytes {
    if ts == [] then [] else TopText(ts[0]) + TopsText(ts[1..])
  }

  function TopsNodes(ts: seq<Top>): seq<Node>
    requires LegalTops(ts)
  {
    if ts == [] then []
    else
      assert LegalTop(ts[0]);
      (if ts[0].Inner? then MarkupNodes(ts[0].m) else []) + TopsNodes(ts[1..])
  }

  lemma {:induction false} SkipTypeText(text: Bytes, after: Bytes)
    requires forall i :: 0 <= i < |text| ==> text[i] != 0 && text[i] != 0x3E && text[i] != 0x5B
    ensures SkipDoctype(text + ([0x3E] + after)) == Past(0, after)
    decreases text
  {
    var s := text + ([0x3E] + after);
    if text == [] {
      assert s[0] == 0x3E && s[1..] == after;
    } else {
      assert s[0] == text[0] && s[1..] == text[1..] + ([0x3E] + after);
      SkipTypeText(text[1..], after);
    }
  }

  lemma ReadType(white: Byte, text: Bytes, after: Bytes)
    requires LegalTop(DocumentType(white, text))
    ensures NodeAt([0x21, 0x44, 0x4F, 0x43, 0x54, 0x59, 0x50, 0x45] + ([white] + (text + ([0x3E] + after)))) == Nothing(after)
  {
    hide SkipDoctype;
    var s := [0x21, 0x44, 0x4F, 0x43, 0x54, 0x59, 0x50, 0x45] + ([white] + (text + ([0x3E] + after)));
    SkipTypeText(text, after);
    assert DOCTYPE_OPEN <= s && s[8..] == [white] + (text + ([0x3E] + after)) && s[9..] == text + ([0x3E] + after);
    assert s[1] == 0x44;
    assert [white][0] == white;
  }

  lemma DocumentNothing(inner: Bytes, after: Bytes)
    requires NodeAt(inner) == Nothing(after)
    ensures DocumentAt([0x3C] + inner) == DocumentAt(after)
  {
    hide NodeAt;
    NoSpace([0x3C] + inner);
    assert ([0x3C] + inner)[1..] == inner;
  }

  lemma {:induction false} SpanWhite(s: Bytes, t: Bytes)
    requires White(s)
    ensures SkipSpace(s + t) == SkipSpace(t)
    decreases s
  {
    hide SkipSpace;
    if s == [] {
      assert s + t == t;
    } else {
      assert s + t == [s[0]] + (s[1..] + t);
      SpaceFirst(s[0], s[1..] + t);
      SpanWhite(s[1..], t);
    }
  }

  lemma DocumentGap(white: Bytes, more: Bytes)
    requires White(white)
    ensures DocumentAt(white + more) == DocumentAt(more)
  {
    hide NodeAt, SkipSpace;
    SpanWhite(white, more);
  }

  /** A document by the grammar reads as its nodes. */
  lemma {:induction false} DocumentMeans(ts: seq<Top>)
    requires LegalTops(ts)
    ensures DocumentAt(TopsText(ts)) == Parsed(TopsNodes(ts))
    decreases ts
  {
    hide NodeAt, DocumentAt, MarkupText, LegalMarkup, MarkupNodes, White;
    if ts == [] {
      EmptyDocument();
    } else {
      assert LegalTop(ts[0]);
      var more := TopsText(ts[1..]);
      DocumentMeans(ts[1..]);
      match ts[0]
      case Gap(white) =>
        DocumentGap(white, more);
        assert [] + TopsNodes(ts[1..]) == TopsNodes(ts[1..]);
      case Inner(m) => InnerMeans(m, more);
      case DocumentType(first, text) =>
        TypeMeans(first, text, more);
        assert [] + TopsNodes(ts[1..]) == TopsNodes(ts[1..]);
    }
  }

  lemma InnerMeans(m: Markup, more: Bytes)
    requires LegalMarkup(m) && !m.CharData? && DocumentAt(more).Parsed?
    ensures DocumentAt(MarkupText(m) + more) == Parsed(MarkupNodes(m) + DocumentAt(more).children)
  {
    hide NodeAt, DocumentAt, MarkupText, LegalMarkup, MarkupNodes;
    var inner := ReadMarkup(m, more);
    if m.Comment? || m.Instruction? {
      DocumentNothing(inner, more);
      NoNodes(m);
      assert [] + DocumentAt(more).children == DocumentAt(more).children;
    } else {
      DocumentTurn(inner, MarkupNodes(m)[0], more);
      assert MarkupNodes(m) == [MarkupNodes(m)[0]];
    }
  }

  lemma TypeMeans(first: Byte, text: Bytes, more: Bytes)
    requires LegalTop(DocumentType(first, text))
    ensures DocumentAt(TopText(DocumentType(first, text)) + more) == DocumentAt(more)
  {
    hide NodeAt, DocumentAt;
    var inner := [0x21, 0x44, 0x4F, 0x43, 0x54, 0x59, 0x50, 0x45] + ([first] + (text + ([0x3E] + more)));
    ReadType(first, text, more);
    DocumentNothing(inner, more);
    assert TopText(DocumentType(first, text)) + more == [0x3C] + inner;
  }

  lemma {:induction false} TopsStart(ts: seq<Top>)
    requires LegalTops(ts)
    ensures TopsText(ts) == [] || TopsText(ts)[0] == 0x3C || IsSpace(TopsText(ts)[0])
    decreases ts
  {
    hide HeadText, ContentText;
    if ts != [] {
      assert LegalTop(ts[0]);
      if ts[0] == Gap([]) {
        TopsStart(ts[1..]);
        assert TopsText(ts) == TopsText(ts[1..]);
      }
    }
  }

  /** With or without a byte order mark in front. */
  lemma ParseMeans(mark: bool, ts: seq<Top>)
    requires LegalTops(ts)
    ensures Parse((if mark then [0xEF, 0xBB, 0xBF] else []) + TopsText(ts)) == Parsed(TopsNodes(ts))
  {
    hide DocumentAt, LegalTops, TopsText;
    DocumentMeans(ts);
    TopsStart(ts);
    var s := (if mark then [0xEF, 0xBB, 0xBF] else []) + TopsText(ts);
    if mark {
      assert BOM <= s && s[3..] == TopsText(ts);
    } else {
      assert s == TopsText(ts) && !(BOM <= s);
    }
  }

  /** The value of an element is the text of its first character data. */
  lemma {:induction false} ValueIsFirst(ns: seq<Node>, i: nat)
    requires i < |ns| && ns[i].Data? && ns[i].text != [] && ns[i].text[0] != 0
    requires forall j :: 0 <= j < i ==> !ns[j].Data?
    ensures ValueOf([], ns) == ns[i].text
    decreases i
  {
    if i == 0 {
      ValueStays(ns[0].text, ns[1..]);
    } else {
      assert !ns[0].Data?;
      ValueIsFirst(ns[1..], i - 1);
    }
  }

  lemma {:induction false} NoValueWithout(ns: seq<Node>)
    requires forall i :: 0 <= i < |ns| ==> !ns[i].Data?
    ensures ValueOf([], ns) == []
    decreases ns
  {
    if ns != [] {
      NoValueWithout(ns[1..]);
    }
  }

  lemma {:induction false} ValueStays(value: Bytes, ns: seq<Node>)
    requires value != [] && value[0] != 0
    ensures ValueOf(value, ns) == value
    decreases ns
  {
    if ns != [] {
      ValueStays(value, ns[1..]);
    }
  }

  // ---------------------------------------------------------------- what the printer writes

  /** An attribute behind one space, without further white space, in the quotes that do not occur in its value. */
  function PrintedAttr(a: Attribute): Attr {
    if 0x22 in a.value then Attr([0x20], a.name, [], [], 0x27, SpellingOf(a.value, 0x22))
    else Attr([0x20], a.name, [], [], 0x22, SpellingOf(a.value, 0x27))
  }

  function PrintedAttrs(list: seq<Attribute>): seq<Attr> {
    if list == [] then [] else [PrintedAttr(list[0])] + PrintedAttrs(list[1..])
  }

  /** A node as markup: an element without value and children as one tag, without children around its value. */
  function Printed(n: Node): Markup
    decreases n
  {
    match n
    case Data(text) => CharData(SpellingOf(text, 0))
    case Cdata(text) => Section(text)
    case Element(name, value, attributes, children) =>
      var head := Head(name, PrintedAttrs(attributes), []);
      if children != [] then Tags(head, PrintedAll(children), [])
      else if value != [] then Tags(head, [CharData(SpellingOf(value, 0))], [])
      else EmptyTag(head)
  }

  function PrintedAll(ns: seq<Node>): seq<Markup>
    decreases ns
  {
    if ns == [] then [] else [Printed(ns[0])] + PrintedAll(ns[1..])
  }

  lemma PrintedAttrIs(a: Attribute)
    ensures AttrText(PrintedAttr(a)) == [0x20] + a.name + [0x3D] + QuotedText(a.value)
  {
    hide ItemsText, EscapedText, SpellingOf;
    var p := PrintedAttr(a);
    SpellingText(a.value, if 0x22 in a.value then 0x22 else 0x27);
    var quoted := [p.quote] + (ItemsText(p.value) + [p.quote]);
    assert quoted == QuotedText(a.value);
    assert AttrText(p) == [0x20] + (a.name + ([] + ([0x3D] + ([] + quoted))));
    assert [0x20] + (a.name + ([] + ([0x3D] + ([] + quoted)))) == [0x20] + a.name + [0x3D] + quoted;
  }

  lemma {:induction false} PrintedAttrsAre(list: seq<Attribute>)
    ensures AttrsText(PrintedAttrs(list)) == AttributesText(list)
    decreases list
  {
    hide AttrText, PrintedAttr, QuotedText;
    if list != [] {
      PrintedAttrIs(list[0]);
      PrintedAttrsAre(list[1..]);
      assert PrintedAttrs(list)[1..] == PrintedAttrs(list[1..]);
    }
  }

  lemma OneMarkup(m: Markup)
    ensures ContentText([m]) == MarkupText(m)
  {
    hide MarkupText;
    assert [m][1..] == [] && ContentText([]) == [];
    assert MarkupText(m) + [] == MarkupText(m);
  }

  /** The printer's text of a node is that of its markup. */
  lemma {:induction false} PrintedIs(n: Node)
    ensures NodeText(n) == MarkupText(Printed(n))
    decreases n, 1
  {
    hide ItemsText, EscapedText, SpellingOf, AttributesText, AttrsText, ChildrenText, ContentText, PrintedAttrs, PrintedAll;
    match n
    case Data(text) => SpellingText(text, 0);
    case Cdata(text) => SectionText(text);
    case Element(name, value, attributes, children) =>
      PrintedAttrsAre(attributes);
      var a := AttributesText(attributes);
      if children != [] {
        PrintedAllAre(children);
        ElementText(name, PrintedAttrs(attributes), a, PrintedAll(children));
      } else if value != [] {
        SpellingText(value, 0);
        OneMarkup(CharData(SpellingOf(value, 0)));
        ElementText(name, PrintedAttrs(attributes), a, [CharData(SpellingOf(value, 0))]);
      } else {
        assert HeadText(Head(name, PrintedAttrs(attributes), [])) == name + (a + []);
        assert [0x3C] + ((name + (a + [])) + [0x2F, 0x3E]) == [LT] + name + a + [SLASH, GT];
      }
  }

  lemma SectionText(text: Bytes)
    ensures MarkupText(Section(text)) == [LT] + CDATA_OPEN + text + CDATA_CLOSE
  {
  }

  lemma ElementText(name: Bytes, list: seq<Attr>, a: Bytes, content: seq<Markup>)
    requires AttrsText(list) == a
    ensures MarkupText(Tags(Head(name, list, []), content, []))
         == [LT] + name + a + ([GT] + ContentText(content) + [LT, SLASH] + name + [GT])
  {
    hide AttrsText, ContentText;
    var c := ContentText(content);
    assert HeadText(Head(name, list, [])) == name + (a + []);
    assert [0x3C] + ((name + (a + [])) + ([0x3E] + (c + ([0x3C, 0x2F] + (name + ([] + [0x3E]))))))
        == [LT] + name + a + ([GT] + c + [LT, SLASH] + name + [GT]);
  }

  lemma {:induction false} PrintedAllAre(ns: seq<Node>)
    ensures ChildrenText(ns) == ContentText(PrintedAll(ns))
    decreases ns, 0
  {
    hide NodeText, MarkupText, Printed;
    if ns != [] {
      PrintedIs(ns[0]);
      PrintedAllAre(ns[1..]);
      assert PrintedAll(ns)[1..] == PrintedAll(ns[1..]);
    }
  }
}
