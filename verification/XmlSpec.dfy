/**
  RapidXML: the tree, the printer without indentation, and the parser with default flags, on the bytes left to read.
 */
module XmlSpec {
  import opened Json
  import opened Numbers
  import opened ReaderSpec

  // ---------------------------------------------------------------- trees

  datatype Attribute = Attribute(name: Bytes, value: Bytes)

  /** The nodes the default flags produce. An element's value repeats its first data. */
  datatype Node =
    | Element(name: Bytes, value: Bytes, attributes: seq<Attribute>, children: seq<Node>)
    | Data(text: Bytes)
    | Cdata(text: Bytes)

  // ---------------------------------------------------------------- characters

  const LT: Byte := 0x3C
  const GT: Byte := 0x3E
  const AMP: Byte := 0x26
  const APOS: Byte := 0x27
  const QUOT: Byte := 0x22
  const SLASH: Byte := 0x2F
  const BANG: Byte := 0x21
  const QUERY: Byte := 0x3F
  const EQUALS: Byte := 0x3D
  const SEMICOLON: Byte := 0x3B

  predicate IsSpace(c: int) {
    c == 0x20 || c == 0x0A || c == 0x0D || c == 0x09
  }

  /** The lookup tables of the parser. */
  datatype CharClass = Space | NodeName | AttributeName | TextChars | ValueChars(quote: Byte)

  predicate In(k: CharClass, c: int) {
    match k
    case Space => IsSpace(c)
    case NodeName => c != 0 && !IsSpace(c) && c != SLASH && c != GT && c != QUERY
    case AttributeName =>
      c != 0 && !IsSpace(c) && c != SLASH && c != LT && c != GT && c != EQUALS && c != QUERY && c != BANG
    case TextChars => c != 0 && c != LT
    case ValueChars(quote) => c != 0 && c != quote
  }

  /** `skip`: how many characters of the class come first. */
  function Span(k: CharClass, s: Bytes): (n: nat)
    ensures n <= |s| && forall i :: 0 <= i < n ==> In(k, s[i])
    ensures n < |s| ==> !In(k, s[n])
  {
    if s != [] && In(k, s[0]) then 1 + Span(k, s[1..]) else 0
  }

  function SkipSpace(s: Bytes): (t: Bytes)
    ensures |t| <= |s|
  {
    s[Span(Space, s)..]
  }

  // ---------------------------------------------------------------- errors

  datatype Fault =
    | ExpectedLess
    | ExpectedElementName
    | ExpectedGreater
    | ExpectedEquals
    | ExpectedQuote
    | ExpectedSemicolon
    | InvalidNumericEntity
    | UnexpectedEnd

  // ---------------------------------------------------------------- character references

  /** One character or reference, with what it denotes. */
  datatype Piece = Piece(bytes: Bytes, rest: Bytes) | PieceError(fault: Fault, left: nat)

  const LONG_RANGE := 0x1_0000_0000_0000_0000

  /**
    The code of a numeric reference, in an unsigned 64-bit integer, and what follows its digits. By `lookup_digits`,
    letters count as digits in decimal references too.
   */
  function CodeOf(base: nat, code: nat, s: Bytes): (r: (nat, Bytes))
    requires base == 10 || base == 16
    ensures |r.1| <= |s| && r.1 == s[|s| - |r.1|..]
    decreases |s|
  {
    if s == [] || !IsHex(s[0]) then (code, s)
    else CodeOf(base, NextCode(base, code, s[0]), s[1..])
  }

  function NextCode(base: nat, code: nat, c: int): nat
    requires IsHex(c)
  {
    (code * base + HexValue(c)) % LONG_RANGE
  }

  lemma FirstCode(base: nat, c: int)
    requires IsHex(c)
    ensures NextCode(base, 0, c) < 16
  {
  }

  /** One digit stands for less than sixteen. */
  lemma ShortCode(base: nat, s: Bytes)
    requires base == 10 || base == 16
    ensures var (code, after) := CodeOf(base, 0, s); |s| - |after| <= 1 ==> code < 16
  {
    hide NextCode;
    if s != [] && IsHex(s[0]) {
      FirstCode(base, s[0]);
    }
  }

  /**
    A numeric reference whose "&#" or "&#x" has been read. A code beyond Unicode is reported at the place where its
    character would be written, `left` bytes before the end.
   */
  function NumericAt(base: nat, s: Bytes, left: nat): (p: Piece)
    requires base == 10 || base == 16
    ensures p.Piece? ==> |p.rest| < |s| && |p.bytes| <= 2 + (|s| - |p.rest|)
  {
    ShortCode(base, s);
    var (code, after) := CodeOf(base, 0, s);
    if code >= 0x110000 then PieceError(InvalidNumericEntity, left)
    else if Peek(after) != SEMICOLON then PieceError(ExpectedSemicolon, |after|)
    else Piece(Utf8(code), after[1..])
  }

  const AMP_REF: Bytes := [0x26, 0x61, 0x6D, 0x70, 0x3B]
  const APOS_REF: Bytes := [0x26, 0x61, 0x70, 0x6F, 0x73, 0x3B]
  const QUOT_REF: Bytes := [0x26, 0x71, 0x75, 0x6F, 0x74, 0x3B]
  const GT_REF: Bytes := [0x26, 0x67, 0x74, 0x3B]
  const LT_REF: Bytes := [0x26, 0x6C, 0x74, 0x3B]

  /** One turn of the translation loop; an unknown reference is copied as it stands. */
  function PieceAt(s: Bytes): (p: Piece)
    requires s != []
    ensures p.Piece? ==> |p.rest| < |s| && |p.bytes| <= |s| - |p.rest|
  {
    if AMP_REF <= s then Piece([AMP], s[5..])
    else if APOS_REF <= s then Piece([APOS], s[6..])
    else if QUOT_REF <= s then Piece([QUOT], s[6..])
    else if GT_REF <= s then Piece([GT], s[4..])
    else if LT_REF <= s then Piece([LT], s[4..])
    else if s[0] == AMP && Peek(s[1..]) == 0x23 then
      if Peek(s[2..]) == 0x78 then NumericAt(16, s[3..], |s|) else NumericAt(10, s[2..], |s|)
    else Piece([s[0]], s[1..])
  }

  /**
    What comes after `taken` bytes that were translated to `done`. An invalid code is reported at the write cursor,
    which has fallen behind by the difference.
   */
  function Later(done: Bytes, taken: nat, p: Piece): (r: Piece)
    requires |done| <= taken
    ensures p.Piece? <==> r.Piece?
    ensures p.Piece? ==> r.rest == p.rest && |r.bytes| == |done| + |p.bytes|
  {
    match p
    case Piece(bytes, rest) => Piece(done + bytes, rest)
    case PieceError(fault, left) => PieceError(fault, if fault == InvalidNumericEntity then left + (taken - |done|) else left)
  }

  /** `skip_and_expand_character_refs`. */
  function Expand(k: CharClass, s: Bytes): (p: Piece)
    ensures p.Piece? ==> |p.rest| <= |s| && (p.rest != [] ==> !In(k, p.rest[0]))
    decreases |s|
  {
    if s == [] || !In(k, s[0]) then Piece([], s)
    else
      var first := PieceAt(s);
      if first.PieceError? then first else Later(first.bytes, |s| - |first.rest|, Expand(k, first.rest))
  }

  // ---------------------------------------------------------------- attributes

  datatype Attributes = Attributes(list: seq<Attribute>, rest: Bytes) | AttributesError(fault: Fault, left: nat)

  datatype OneAttribute = OneAttribute(attribute: Attribute, rest: Bytes) | AttributeError(fault: Fault, left: nat)

  /** One attribute, with the whitespace after it. */
  function AttributeAt(s: Bytes): (r: OneAttribute)
    requires s != [] && In(AttributeName, s[0])
    ensures r.OneAttribute? ==> |r.rest| < |s|
  {
    var n := Span(AttributeName, s);
    var t := SkipSpace(s[n..]);
    if Peek(t) != EQUALS then AttributeError(ExpectedEquals, |t|)
    else
      var q := SkipSpace(t[1..]);
      if Peek(q) != APOS && Peek(q) != QUOT then AttributeError(ExpectedQuote, |q|)
      else
        AfterValue(s[..n], q[0], Expand(ValueChars(q[0]), q[1..]))
  }

  /** The closing quote, and whitespace. */
  function AfterValue(name: Bytes, quote: Byte, value: Piece): (r: OneAttribute)
    requires quote != 0
    ensures r.OneAttribute? ==> value.Piece? && |r.rest| < |value.rest|
  {
    if value.PieceError? then AttributeError(value.fault, value.left)
    else if Peek(value.rest) != quote then AttributeError(ExpectedQuote, |value.rest|)
    else OneAttribute(Attribute(name, value.bytes), SkipSpace(value.rest[1..]))
  }

  function AttributesAt(s: Bytes): (r: Attributes)
    ensures r.Attributes? ==> |r.rest| <= |s|
    decreases |s|
  {
    if s == [] || !In(AttributeName, s[0]) then Attributes([], s)
    else
      var first := AttributeAt(s);
      if first.AttributeError? then AttributesError(first.fault, first.left)
      else
        var more := AttributesAt(first.rest);
        if more.AttributesError? then more else Attributes([first.attribute] + more.list, more.rest)
  }

  // ---------------------------------------------------------------- skipped constructs

  datatype Skipping = Past(n: nat, rest: Bytes) | SkipFault(left: nat)

  /** Up to and including the first occurrence of a pattern; a NUL or the end of the text is an error. */
  function SkipPast(pattern: Bytes, s: Bytes): (r: Skipping)
    requires pattern != []
    ensures r.Past? ==> r.n + |pattern| <= |s| && r.rest == s[r.n + |pattern|..] && |r.rest| < |s|
    decreases |s|
  {
    if pattern <= s then Past(0, s[|pattern|..])
    else if s == [] || s[0] == 0 then SkipFault(|s|)
    else
      match SkipPast(pattern, s[1..])
      case Past(n, rest) => Past(n + 1, rest)
      case SkipFault(left) => SkipFault(left)
  }

  /** The bracketed part of a DOCTYPE, `depth` brackets deep. */
  function SkipBrackets(depth: nat, s: Bytes): (r: Skipping)
    ensures r.Past? ==> |r.rest| <= |s|
    decreases |s|
  {
    if depth == 0 then Past(0, s)
    else if s == [] || s[0] == 0 then SkipFault(|s|)
    else SkipBrackets(if s[0] == 0x5B then depth + 1 else if s[0] == 0x5D then depth - 1 else depth, s[1..])
  }

  function SkipDoctype(s: Bytes): (r: Skipping)
    ensures r.Past? ==> |r.rest| < |s|
    decreases |s|
  {
    if s == [] || s[0] == 0 then SkipFault(|s|)
    else if s[0] == GT then Past(0, s[1..])
    else if s[0] == 0x5B then
      match SkipBrackets(1, s[1..])
      case Past(_, rest) => SkipDoctype(rest)
      case SkipFault(left) => SkipFault(left)
    else SkipDoctype(s[1..])
  }

  const COMMENT_OPEN: Bytes := [0x21, 0x2D, 0x2D]
  const COMMENT_CLOSE: Bytes := [0x2D, 0x2D, 0x3E]
  const CDATA_OPEN: Bytes := [0x21, 0x5B, 0x43, 0x44, 0x41, 0x54, 0x41, 0x5B]
  const CDATA_CLOSE: Bytes := [0x5D, 0x5D, 0x3E]
  const DOCTYPE_OPEN: Bytes := [0x21, 0x44, 0x4F, 0x43, 0x54, 0x59, 0x50, 0x45]
  const PI_CLOSE: Bytes := [0x3F, 0x3E]

  /** "xml" in any case, then whitespace: a declaration. */
  predicate IsDeclaration(s: Bytes) {
    |s| >= 4 && (s[0] == 0x78 || s[0] == 0x58) && (s[1] == 0x6D || s[1] == 0x4D) && (s[2] == 0x6C || s[2] == 0x4C)
    && IsSpace(s[3])
  }

  // ---------------------------------------------------------------- nodes

  /** A node, or nothing for what the default flags leave out. */
  datatype NodeResult = Made(node: Node, rest: Bytes) | Nothing(rest: Bytes) | NodeError(fault: Fault, left: nat)

  datatype Contents = Contents(children: seq<Node>, rest: Bytes) | ContentsError(fault: Fault, left: nat)

  function FromSkip(r: Skipping): NodeResult {
    match r
    case Past(_, rest) => Nothing(rest)
    case SkipFault(left) => NodeError(UnexpectedEnd, left)
  }

  /** What starts with '?' or '!' after the '<'. */
  function SpecialAt(s: Bytes): (r: NodeResult)
    requires s != [] && (s[0] == QUERY || s[0] == BANG)
    ensures r.Made? || r.Nothing? ==> |r.rest| < |s|
  {
    if s[0] == QUERY then
      FromSkip(SkipPast(PI_CLOSE, if IsDeclaration(s[1..]) then s[5..] else s[1..]))
    else if COMMENT_OPEN <= s then FromSkip(SkipPast(COMMENT_CLOSE, s[3..]))
    else if CDATA_OPEN <= s then
      match SkipPast(CDATA_CLOSE, s[8..])
      case Past(n, rest) => Made(Cdata(s[8..8 + n]), rest)
      case SkipFault(left) => NodeError(UnexpectedEnd, left)
    else if DOCTYPE_OPEN <= s && IsSpace(Peek(s[8..])) then FromSkip(SkipDoctype(s[9..]))
    else FromSkip(SkipPast([GT], s[1..]))
  }

  /** The value an element takes from its data: the first one, unless that starts with a NUL. */
  function ValueOf(value: Bytes, children: seq<Node>): Bytes
    decreases children
  {
    if children == [] then value
    else
      ValueOf(if children[0].Data? && (value == [] || value[0] == 0) then children[0].text else value, children[1..])
  }

  function NodeAt(s: Bytes): (r: NodeResult)
    ensures r.Made? || r.Nothing? ==> |r.rest| < |s|
    decreases |s|, 2
  {
    if s != [] && (s[0] == QUERY || s[0] == BANG) then SpecialAt(s) else ElementAt(s)
  }

  function ElementAt(s: Bytes): (r: NodeResult)
    ensures !r.Nothing? && (r.Made? ==> |r.rest| < |s|)
    decreases |s|, 1
  {
    var n := Span(NodeName, s);
    if n == 0 then NodeError(ExpectedElementName, |s|)
    else
      var attributes := AttributesAt(SkipSpace(s[n..]));
      if attributes.AttributesError? then NodeError(attributes.fault, attributes.left)
      else
        var t := attributes.rest;
        if Peek(t) == GT then
          var contents := ContentsAt(true, t[1..]);
          if contents.ContentsError? then NodeError(contents.fault, contents.left)
          else Made(Element(s[..n], ValueOf([], contents.children), attributes.list, contents.children), contents.rest)
        else if Peek(t) == SLASH then
          if Peek(t[1..]) != GT then NodeError(ExpectedGreater, |t| - 1)
          else Made(Element(s[..n], [], attributes.list, []), t[2..])
        else NodeError(ExpectedGreater, |t|)
  }

  function Under(first: seq<Node>, c: Contents): Contents {
    match c
    case Contents(children, rest) => Contents(first + children, rest)
    case ContentsError(_, _) => c
  }

  lemma UnderTwice(a: seq<Node>, b: seq<Node>, c: Contents)
    ensures Under(a, Under(b, c)) == Under(a + b, c)
  {
    if c.Contents? {
      assert a + (b + c.children) == a + b + c.children;
    }
  }

  /**
    The contents of an element up to its closing tag. Whitespace before a tag is dropped, except after data,
    which runs up to the next '<' anyway.
   */
  function ContentsAt(afterTag: bool, s: Bytes): (r: Contents)
    ensures r.Contents? ==> |r.rest| < |s|
    decreases |s|, if afterTag then 1 else 0
  {
    var t := if afterTag then SkipSpace(s) else s;
    if Peek(t) == LT then
      if Peek(t[1..]) == SLASH then
        var name := t[2..];
        var u := SkipSpace(name[Span(NodeName, name)..]);
        if Peek(u) != GT then ContentsError(ExpectedGreater, |u|) else Contents([], u[1..])
      else
        match NodeAt(t[1..])
        case Made(node, rest) => Under([node], ContentsAt(true, rest))
        case Nothing(rest) => ContentsAt(true, rest)
        case NodeError(fault, left) => ContentsError(fault, left)
    else if Peek(t) == 0 || !afterTag then ContentsError(UnexpectedEnd, |t|)
    else
      var data := Expand(TextChars, s);
      if data.PieceError? then ContentsError(data.fault, data.left)
      else Under([Data(data.bytes)], ContentsAt(false, data.rest))
  }

  datatype Parsed = Parsed(children: seq<Node>) | ParseError(fault: Fault, left: nat)

  /** The loop of `parse`. */
  function DocumentAt(s: Bytes): Parsed
    decreases |s|
  {
    var t := SkipSpace(s);
    if Peek(t) == 0 then Parsed([])
    else if Peek(t) != LT then ParseError(ExpectedLess, |t|)
    else
      match NodeAt(t[1..])
      case NodeError(fault, left) => ParseError(fault, left)
      case Nothing(rest) => DocumentAt(rest)
      case Made(node, rest) =>
        var more := DocumentAt(rest);
        if more.ParseError? then more else Parsed([node] + more.children)
  }

  const BOM: Bytes := [0xEF, 0xBB, 0xBF]

  function Parse(text: Bytes): Parsed {
    DocumentAt(if BOM <= text then text[3..] else text)
  }

  // ---------------------------------------------------------------- printing

  /** `copy_and_expand_chars`. */
  function Escaped(c: Byte, noexpand: Byte): Bytes {
    if c == noexpand then [c]
    else if c == LT then LT_REF
    else if c == GT then GT_REF
    else if c == APOS then APOS_REF
    else if c == QUOT then QUOT_REF
    else if c == AMP then AMP_REF
    else [c]
  }

  function EscapedText(s: Bytes, noexpand: Byte): Bytes {
    if s == [] then [] else Escaped(s[0], noexpand) + EscapedText(s[1..], noexpand)
  }

  /** The value between the quotes that suit it. */
  function QuotedText(value: Bytes): Bytes {
    if QUOT in value then [APOS] + EscapedText(value, QUOT) + [APOS] else [QUOT] + EscapedText(value, APOS) + [QUOT]
  }

  function AttributesText(list: seq<Attribute>): Bytes {
    if list == [] then []
    else [0x20] + list[0].name + [EQUALS] + QuotedText(list[0].value) + AttributesText(list[1..])
  }

  function NodeText(n: Node): Bytes
    decreases n, 1
  {
    match n
    case Data(text) => EscapedText(text, 0)
    case Cdata(text) => [LT] + CDATA_OPEN + text + CDATA_CLOSE
    case Element(name, value, attributes, children) =>
      [LT] + name + AttributesText(attributes)
      + if value == [] && children == [] then [SLASH, GT]
        else
          [GT] + (if children == [] then EscapedText(value, 0) else ChildrenText(children)) + [LT, SLASH] + name + [GT]
  }

  function ChildrenText(ns: seq<Node>): Bytes
    decreases ns, 0
  {
    if ns == [] then [] else NodeText(ns[0]) + ChildrenText(ns[1..])
  }
}
