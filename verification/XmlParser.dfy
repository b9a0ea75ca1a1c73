/**
  The recursive part of RapidXML's parser, on the text it overwrites: what the finished nodes point to is what
  the text said when parsing began.
 */
module XmlParser {
  import opened Json
  import opened Numbers
  import opened XmlSpec
  import opened XmlInPlace

  // ---------------------------------------------------------------- what a step may change

  /** The text changed between two positions only. */
  predicate Only(b: Bytes, c: Bytes, lo: nat, hi: nat) {
    |b| == |c| && Terminated(c) && forall k :: 0 <= k < |b| && (k < lo || hi <= k) ==> b[k] == c[k]
  }

  lemma OnlyRest(b: Bytes, c: Bytes, lo: nat, hi: nat, j: nat)
    requires Only(b, c, lo, hi) && hi <= j < |b|
    ensures Rest(c, j) == Rest(b, j) && c[j] == b[j] && Terminated(c)
  {
  }

  lemma OnlyThen(b: Bytes, c: Bytes, d: Bytes, lo: nat, mid: nat, lo2: nat, hi: nat)
    requires Only(b, c, lo, mid) && Only(c, d, lo2, hi) && lo <= lo2 && mid <= hi
    ensures Only(b, d, lo, hi)
  {
  }

  lemma OnlyAgree(b: Bytes, c: Bytes, lo: nat, hi: nat, x: nat, y: nat)
    requires Only(b, c, lo, hi) && y <= |b| && (y <= lo || hi <= x)
    ensures AgreeIn(b, c, x, y)
  {
  }

  lemma OnlySlices(b: Bytes, c: Bytes, lo: nat, hi: nat)
    requires |b| == |c| && lo <= hi <= |b| && c[..lo] == b[..lo] && c[hi..] == b[hi..] && Terminated(c)
    ensures Only(b, c, lo, hi)
  {
    forall k | 0 <= k < |b| && (k < lo || hi <= k) ensures b[k] == c[k] {
      if k < lo {
        assert b[..lo][k] == c[..lo][k];
      } else {
        assert b[hi..][k - hi] == c[hi..][k - hi];
      }
    }
  }

  lemma OnlyNothing(b: Bytes, lo: nat)
    requires Terminated(b)
    ensures Only(b, b, lo, lo)
  {
  }

  /** A terminating zero. */
  method Terminate(buf: array<Byte>, at: nat)
    requires Terminated(buf[..]) && at < buf.Length
    modifies buf
    ensures Only(old(buf[..]), buf[..], at, at + 1)
  {
    buf[at] := 0;
  }

  lemma SpaceAt(b: Bytes, i: nat, j: nat)
    requires i <= j < |b| && j - i == Span(Space, Rest(b, i))
    ensures SkipSpace(Rest(b, i)) == Rest(b, j)
  {
    hide Span;
    RestDrop(b, i, j - i);
  }

  // ---------------------------------------------------------------- attributes

  lemma AttributeHead(b: Bytes, i: nat, j1: nat, j2: nat)
    requires Terminated(b) && i < j1 <= j2 < |b| && In(AttributeName, b[i])
    requires j1 - i == Span(AttributeName, Rest(b, i)) && j2 - j1 == Span(Space, Rest(b, j1))
    ensures Rest(b, i) != [] && In(AttributeName, Rest(b, i)[0])
    ensures b[j2] != EQUALS ==> AttributeAt(Rest(b, i)) == AttributeError(ExpectedEquals, |Rest(b, j2)|)
  {
    hide Span, Expand, SkipSpace;
    RestDrop(b, i, j1 - i);
    SpaceAt(b, j1, j2);
    PeekRest(b, j2);
    PeekRest(b, i);
  }

  lemma AttributeTail(b: Bytes, i: nat, j1: nat, j2: nat, j4: nat)
    requires Terminated(b) && i < j1 <= j2 < j4 < |b| && In(AttributeName, b[i]) && b[j2] == EQUALS
    requires j1 - i == Span(AttributeName, Rest(b, i)) && j2 - j1 == Span(Space, Rest(b, j1))
    requires j4 - (j2 + 1) == Span(Space, Rest(b, j2 + 1))
    ensures Rest(b, i) != [] && In(AttributeName, Rest(b, i)[0])
    ensures b[j4] != APOS && b[j4] != QUOT ==> AttributeAt(Rest(b, i)) == AttributeError(ExpectedQuote, |Rest(b, j4)|)
    ensures b[j4] == APOS || b[j4] == QUOT ==>
              j4 + 1 < |b|
              && AttributeAt(Rest(b, i)) == AfterValue(b[i..j1], b[j4], Expand(ValueChars(b[j4]), Rest(b, j4 + 1)))
  {
    hide Span, Expand, SkipSpace, AfterValue;
    RestDrop(b, i, j1 - i);
    SpaceAt(b, j1, j2);
    SpaceAt(b, j2 + 1, j4);
    PeekRest(b, j2);
    PeekRest(b, i);
    PeekRest(b, j4);
    assert Rest(b, i)[..j1 - i] == b[i..j1];
  }

  lemma AfterValueMeans(name: Bytes, quote: Byte, b: Bytes, text: nat, bytes: Bytes, j: nat)
    requires quote != 0 && Terminated(b) && text < |b|
    ensures b[text] != quote ==>
              AfterValue(name, quote, Piece(bytes, Rest(b, text))) == AttributeError(ExpectedQuote, |Rest(b, text)|)
    ensures b[text] == quote && text < j < |b| && j - (text + 1) == Span(Space, Rest(b, text + 1)) ==>
              AfterValue(name, quote, Piece(bytes, Rest(b, text))) == OneAttribute(Attribute(name, bytes), Rest(b, j))
  {
    hide SkipSpace, Span;
    PeekRest(b, text);
    if b[text] == quote && text < j < |b| && j - (text + 1) == Span(Space, Rest(b, text + 1)) {
      SpaceAt(b, text + 1, j);
    }
  }

  /** A value from its opening quote on, and the whitespace after it. */
  method ParseValue(buf: array<Byte>, q: nat, ghost name: Bytes) returns (j: nat, value: Ptr, fault: MaybeFault)
    requires Terminated(buf[..]) && q + 1 < buf.Length && (buf[q] == APOS || buf[q] == QUOT)
    modifies buf
    ensures q < j < buf.Length && Only(old(buf[..]), buf[..], q + 1, j)
    ensures var r := AfterValue(name, old(buf[q]), Expand(ValueChars(old(buf[q])), Rest(old(buf[..]), q + 1)));
            && (fault.Bad? ==> r == AttributeError(fault.fault, |Rest(old(buf[..]), j)|))
            && (fault.Fine? ==>
                  PtrIn(value, q + 1, j) && PtrIn(value, 0, buf.Length)
                  && r == OneAttribute(Attribute(name, Show(buf[..], value)), Rest(old(buf[..]), j)))
  {
    hide Span, Expand, SkipSpace, Rest, Only, Terminated, AfterValue;
    ghost var b := buf[..];
    value := Nil;
    var quote := buf[q];
    var start := q + 1;
    var end;
    j, end, fault := SkipAndExpand(ValueChars(quote), buf, start);
    ghost var d := buf[..];
    OnlySlices(b, d, start, j);
    if fault.Bad? {
      ValueError(name, quote, Expand(ValueChars(quote), Rest(b, start)));
      return;
    }
    OnlyRest(b, d, start, j, j);
    AfterValueMeans(name, quote, b, j, d[start..end], j);
    if buf[j] != quote {
      fault := Bad(ExpectedQuote);
      return;
    }
    NotLast(d, j);
    ghost var text := j;
    j := j + 1;
    Terminate(buf, end);
    ghost var e := buf[..];
    WidenOnly(d, e, end, end + 1, j);
    OnlyThen(b, d, e, start, text, end, j);
    OnlyRest(b, e, start, j, j);
    ghost var after := j;
    j := Skip(Space, buf, j);
    WidenOnly(b, e, start, after, j);
    AfterValueMeans(name, quote, b, text, d[start..end], j);
    value := Ptr(start, end - start);
    OnlyAgree(d, e, end, end + 1, start, end);
    ShowSlice(d, e, start, end);
  }

  lemma ValueError(name: Bytes, quote: Byte, p: Piece)
    requires quote != 0 && p.PieceError?
    ensures AfterValue(name, quote, p) == AttributeError(p.fault, p.left)
  {
  }

  lemma ShowSlice(d: Bytes, e: Bytes, start: nat, end: nat)
    requires |d| == |e| && start <= end <= |e| && AgreeIn(d, e, start, end)
    ensures Show(e, Ptr(start, end - start)) == d[start..end]
  {
  }

  /** One attribute. */
  method ParseAttribute(buf: array<Byte>, i: nat) returns (j: nat, a: PAttribute, fault: MaybeFault)
    requires Terminated(buf[..]) && i < buf.Length && In(AttributeName, buf[i])
    modifies buf
    ensures i <= j < buf.Length && Only(old(buf[..]), buf[..], i, j)
    ensures Rest(old(buf[..]), i) != [] && In(AttributeName, Rest(old(buf[..]), i)[0])
    ensures fault.Bad? ==>
              AttributeAt(Rest(old(buf[..]), i)) == AttributeError(fault.fault, |Rest(old(buf[..]), j)|)
    ensures fault.Fine? ==> i < j && AttributeIn(a, i, j) && AttributeIn(a, 0, buf.Length)
    ensures fault.Fine? ==>
              AttributeAt(Rest(old(buf[..]), i)) == OneAttribute(ShowAttribute(buf[..], a), Rest(old(buf[..]), j))
  {
    hide Span, Expand, SkipSpace, AttributeAt, Rest, Only, Terminated, AfterValue, Show;
    ghost var b := buf[..];
    a, fault := PAttribute(Nil, Nil), Fine;
    var j1 := Skip(AttributeName, buf, i);
    FirstOf(AttributeName, b, i);
    var j2 := Skip(Space, buf, j1);
    AttributeHead(b, i, j1, j2);
    j := j2;
    OnlyNothing(b, i);
    if buf[j] != EQUALS {
      WidenOnly(b, b, i, i, j);
      fault := Bad(ExpectedEquals);
      return;
    }
    NotLast(b, j);
    j := j + 1;
    Terminate(buf, j1);
    ghost var c := buf[..];
    WidenOnly(b, c, j1, j1 + 1, j2 + 1);
    OnlyRest(b, c, j1, j2 + 1, j);
    j := Skip(Space, buf, j);
    OnlyRest(b, c, j1, j2 + 1, j);
    AttributeTail(b, i, j1, j2, j);
    if buf[j] != APOS && buf[j] != QUOT {
      WidenOnly(b, c, j1, j2 + 1, j);
      fault := Bad(ExpectedQuote);
      return;
    }
    OnlyRest(b, c, j1, j2 + 1, j + 1);
    ghost var q := j;
    var value;
    j, value, fault := ParseValue(buf, j, b[i..j1]);
    OnlyRest(b, c, j1, j2 + 1, j);
    OnlyThen(b, c, buf[..], j1, j2 + 1, q + 1, j);
    WidenOnly(b, buf[..], j1, j, j);
    if fault.Fine? {
      a := PAttribute(Ptr(i, j1 - i), value);
      OnlyAgree(b, buf[..], j1, j, i, j1);
      ShowSlice(b, buf[..], i, j1);
    }
  }

  lemma FirstOf(k: CharClass, b: Bytes, i: nat)
    requires Terminated(b) && i < |b| && In(k, b[i]) && b[i] != 0
    ensures Span(k, Rest(b, i)) > 0
  {
    PeekRest(b, i);
  }

  lemma NotLast(b: Bytes, i: nat)
    requires Terminated(b) && i < |b| && b[i] != 0
    ensures i + 1 < |b|
  {
  }

  lemma WidenOnly(b: Bytes, c: Bytes, lo: nat, hi: nat, hi2: nat)
    requires Only(b, c, lo, hi) && hi <= hi2
    ensures Only(b, c, lo, hi2)
    ensures forall lo2: nat :: lo2 <= lo ==> Only(b, c, lo2, hi2)
  {
  }

  function UnderAttributes(list: seq<Attribute>, r: Attributes): Attributes {
    match r
    case Attributes(more, rest) => Attributes(list + more, rest)
    case AttributesError(_, _) => r
  }

  lemma AttributesTurn(b: Bytes, j: nat, a: Attribute, rest: Bytes, list: seq<Attribute>)
    requires Terminated(b) && j < |b| && Rest(b, j) != [] && In(AttributeName, Rest(b, j)[0])
    requires AttributeAt(Rest(b, j)) == OneAttribute(a, rest)
    ensures UnderAttributes(list, AttributesAt(Rest(b, j))) == UnderAttributes(list + [a], AttributesAt(rest))
  {
    hide AttributeAt, In, Rest;
    var more := AttributesAt(rest);
    if more.Attributes? {
      assert list + ([a] + more.list) == list + [a] + more.list;
    }
  }

  lemma AttributesStop(b: Bytes, j: nat, list: seq<Attribute>)
    requires Terminated(b) && j < |b| && !In(AttributeName, b[j])
    ensures UnderAttributes(list, AttributesAt(Rest(b, j))) == Attributes(list, Rest(b, j))
  {
    PeekRest(b, j);
    assert list + [] == list;
  }

  lemma AttributesFail(b: Bytes, j: nat, fault: Fault, left: nat, list: seq<Attribute>)
    requires Terminated(b) && j < |b| && Rest(b, j) != [] && In(AttributeName, Rest(b, j)[0])
    requires AttributeAt(Rest(b, j)) == AttributeError(fault, left)
    ensures UnderAttributes(list, AttributesAt(Rest(b, j))) == AttributesError(fault, left)
  {
    hide AttributeAt, In, Rest;
  }

  lemma ShowOneMore(b: Bytes, list: seq<PAttribute>, a: PAttribute)
    requires AttributesIn(list, 0, |b|) && AttributeIn(a, 0, |b|)
    ensures AttributesIn(list + [a], 0, |b|)
    ensures ShowAttributes(b, list + [a]) == ShowAttributes(b, list) + [ShowAttribute(b, a)]
  {
    hide ShowAttribute, AttributeIn;
  }

  /** `parse_node_attributes`. */
  method ParseAttributes(buf: array<Byte>, i: nat) returns (j: nat, list: seq<PAttribute>, fault: MaybeFault)
    requires Terminated(buf[..]) && i < buf.Length
    modifies buf
    ensures i <= j < buf.Length && Only(old(buf[..]), buf[..], i, j)
    ensures fault.Bad? ==>
              AttributesAt(Rest(old(buf[..]), i)) == AttributesError(fault.fault, |Rest(old(buf[..]), j)|)
    ensures fault.Fine? ==> AttributesIn(list, i, j) && AttributesIn(list, 0, buf.Length)
    ensures !In(AttributeName, old(buf[i])) ==> list == [] && j == i
    ensures fault.Fine? ==>
              AttributesAt(Rest(old(buf[..]), i)) == Attributes(ShowAttributes(buf[..], list), Rest(old(buf[..]), j))
  {
    hide AttributesAt, AttributeAt, Rest, Only, Terminated, ShowAttributes, ShowAttribute, AttributesIn, AttributeIn, In,
         UnderAttributes;
    ghost var b := buf[..];
    j, list, fault := i, [], Fine;
    OnlyNothing(b, i);
    NoAttributesYet(b, i);
    while In(AttributeName, buf[j])
      invariant i <= j < buf.Length && Only(b, buf[..], i, j) && Terminated(buf[..]) && fault.Fine?
      invariant AttributesIn(list, i, j) && AttributesIn(list, 0, buf.Length)
      invariant !In(AttributeName, b[i]) ==> list == [] && j == i
      invariant AttributesAt(Rest(b, i))
             == UnderAttributes(ShowAttributes(buf[..], list), AttributesAt(Rest(b, j)))
      decreases buf.Length - j
    {
      ghost var c, j0 := buf[..], j;
      var a;
      OnlyRest(b, c, i, j, j);
      j, a, fault := ParseAttribute(buf, j);
      OnlyRest(b, c, i, j0, j);
      OnlyThen(b, c, buf[..], i, j0, j0, j);
      if fault.Bad? {
        AttributesFail(b, j0, fault.fault, |Rest(b, j)|, ShowAttributes(c, list));
        return;
      }
      OnlyAgree(c, buf[..], j0, j, i, j0);
      AttributesSame(c, buf[..], list, i, j0);
      AttributesTurn(b, j0, ShowAttribute(buf[..], a), Rest(b, j), ShowAttributes(c, list));
      ShowOneMore(buf[..], list, a);
      MoreAttributesIn(list, a, i, j0, j);
      list := list + [a];
    }
    OnlyRest(b, buf[..], i, j, j);
    AttributesStop(b, j, ShowAttributes(buf[..], list));
  }

  lemma NoAttributesYet(b: Bytes, i: nat)
    requires i < |b|
    ensures AttributesIn([], i, i) && AttributesIn([], 0, |b|)
    ensures UnderAttributes(ShowAttributes(b, []), AttributesAt(Rest(b, i))) == AttributesAt(Rest(b, i))
  {
    var r := AttributesAt(Rest(b, i));
    assert ShowAttributes(b, []) == [];
    if r.Attributes? {
      assert [] + r.list == r.list;
    }
  }

  lemma MoreAttributesIn(list: seq<PAttribute>, a: PAttribute, i: nat, j0: nat, j: nat)
    requires AttributesIn(list, i, j0) && AttributeIn(a, j0, j) && i <= j0 <= j
    ensures AttributesIn(list + [a], i, j)
  {
    AttributesWider(list, i, j0, i, j);
  }

  // ---------------------------------------------------------------- skipping

  lemma SkipPastStep(pattern: Bytes, b: Bytes, i: nat)
    requires pattern != [] && Terminated(b) && i < |b| && !(pattern <= Rest(b, i))
    ensures if b[i] == 0 then SkipPast(pattern, Rest(b, i)) == SkipFault(|Rest(b, i)|)
            else i + 1 < |b|
                 && SkipPast(pattern, Rest(b, i)) == Further(SkipPast(pattern, Rest(b, i + 1)))
  {
    PeekRest(b, i);
  }

  function Further(r: Skipping): Skipping {
    match r
    case Past(n, rest) => Past(n + 1, rest)
    case SkipFault(_) => r
  }

  function FurtherBy(k: nat, r: Skipping): Skipping {
    match r
    case Past(n, rest) => Past(n + k, rest)
    case SkipFault(_) => r
  }

  lemma FurtherAgain(k: nat, r: Skipping)
    ensures FurtherBy(k, Further(r)) == FurtherBy(k + 1, r) && FurtherBy(0, r) == r
  {
  }

  /** Up to and including a pattern. */
  method SkipTo(buf: array<Byte>, i: nat, pattern: Bytes) returns (j: nat, found: bool)
    requires Terminated(buf[..]) && i < buf.Length && pattern != [] && 0 !in pattern
    ensures i <= j < buf.Length
    ensures found ==> i + |pattern| <= j && SkipPast(pattern, Rest(buf[..], i)) == Past(j - |pattern| - i, Rest(buf[..], j))
    ensures !found ==> SkipPast(pattern, Rest(buf[..], i)) == SkipFault(|Rest(buf[..], j)|)
  {
    hide SkipPast, Rest, Terminated, Further;
    ghost var b := buf[..];
    j := i;
    FurtherAgain(0, SkipPast(pattern, Rest(b, i)));
    while true
      invariant i <= j < buf.Length
      invariant SkipPast(pattern, Rest(b, i)) == FurtherBy(j - i, SkipPast(pattern, Rest(b, j)))
      decreases buf.Length - j
    {
      found := Matches(buf, j, pattern);
      if found {
        FoundHere(pattern, b, j);
        j := j + |pattern|;
        return;
      }
      SkipPastStep(pattern, b, j);
      if buf[j] == 0 {
        return;
      }
      FurtherAgain(j - i, SkipPast(pattern, Rest(b, j + 1)));
      j := j + 1;
    }
  }

  lemma FoundHere(pattern: Bytes, b: Bytes, j: nat)
    requires pattern != [] && j < |b| && pattern <= Rest(b, j)
    ensures j + |pattern| < |b| && SkipPast(pattern, Rest(b, j)) == Past(0, Rest(b, j + |pattern|))
  {
    RestDrop(b, j, |pattern|);
  }

  /** The bracketed part of a DOCTYPE. */
  method SkipBracketed(buf: array<Byte>, i: nat) returns (j: nat, found: bool)
    requires Terminated(buf[..]) && i < buf.Length
    ensures i <= j < buf.Length
    ensures found ==> SkipBrackets(1, Rest(buf[..], i)) == Past(0, Rest(buf[..], j))
    ensures !found ==> SkipBrackets(1, Rest(buf[..], i)) == SkipFault(|Rest(buf[..], j)|)
  {
    j := i;
    var depth := 1;
    while depth > 0
      invariant i <= j < buf.Length && depth >= 0
      invariant SkipBrackets(1, Rest(buf[..], i)) == SkipBrackets(depth, Rest(buf[..], j))
      decreases buf.Length - j
    {
      PeekRest(buf[..], j);
      if buf[j] == 0x5B {
        depth := depth + 1;
      } else if buf[j] == 0x5D {
        depth := depth - 1;
      } else if buf[j] == 0 {
        return j, false;
      }
      j := j + 1;
    }
    found := true;
  }

  method SkipDoctypeBody(buf: array<Byte>, i: nat) returns (j: nat, found: bool)
    requires Terminated(buf[..]) && i < buf.Length
    ensures i <= j < buf.Length
    ensures found ==> i < j && SkipDoctype(Rest(buf[..], i)) == Past(0, Rest(buf[..], j))
    ensures !found ==> SkipDoctype(Rest(buf[..], i)) == SkipFault(|Rest(buf[..], j)|)
  {
    hide SkipBrackets;
    j := i;
    while buf[j] != GT
      invariant i <= j < buf.Length
      invariant SkipDoctype(Rest(buf[..], i)) == SkipDoctype(Rest(buf[..], j))
      decreases buf.Length - j
    {
      PeekRest(buf[..], j);
      if buf[j] == 0 {
        return j, false;
      } else if buf[j] == 0x5B {
        j, found := SkipBracketed(buf, j + 1);
        if !found {
          return;
        }
      } else {
        j := j + 1;
      }
    }
    PeekRest(buf[..], j);
    return j + 1, true;
  }

  // ---------------------------------------------------------------- what starts with '?' or '!'

  /** What `parse_node` returns. */
  datatype MaybeNode = NoNode | One(node: PNode)

  /** A result in terms of the text before and after. */
  ghost predicate Yields(r: NodeResult, b: Bytes, c: Bytes, i: nat, j: nat, made: MaybeNode, fault: MaybeFault) {
    && i <= j < |b| == |c|
    && (fault.Bad? ==> r == NodeError(fault.fault, |Rest(b, j)|))
    && (fault.Fine? && made.NoNode? ==> i < j && r == Nothing(Rest(b, j)))
    && (fault.Fine? && made.One? ==>
          i < j && NodeIn(made.node, i, j) && NodeIn(made.node, 0, |c|)
          && r == Made(ShowNode(c, made.node), Rest(b, j)))
  }

  lemma SkippedYields(r: Skipping, b: Bytes, i: nat, j: nat, found: bool)
    requires i <= j < |b| && (found ==> i < j && r.Past? && r.rest == Rest(b, j)) && (!found ==> r == SkipFault(|Rest(b, j)|))
    ensures Yields(FromSkip(r), b, b, i, j, NoNode, if found then Fine else Bad(UnexpectedEnd))
  {
  }

  /** The kinds of constructs, distinguished in the order of the source. */
  datatype Special = Declaration | Instruction | Comment | CdataSection | Doctype | Unknown

  function SpecialOf(s: Bytes): Special
    requires s != []
  {
    if s[0] == QUERY then (if IsDeclaration(s[1..]) then Declaration else Instruction)
    else if COMMENT_OPEN <= s then Comment
    else if CDATA_OPEN <= s then CdataSection
    else if DOCTYPE_OPEN <= s && IsSpace(Peek(s[8..])) then Doctype
    else Unknown
  }

  method Recognise(buf: array<Byte>, i: nat) returns (kind: Special)
    requires Terminated(buf[..]) && i + 1 < buf.Length && (buf[i] == QUERY || buf[i] == BANG)
    ensures Rest(buf[..], i) != [] && kind == SpecialOf(Rest(buf[..], i))
    ensures kind == Declaration ==> i + 5 < buf.Length
    ensures kind == Comment ==> i + 3 < buf.Length
    ensures kind == CdataSection ==> i + 8 < buf.Length
    ensures kind == Doctype ==> i + 9 < buf.Length
  {
    PeekRest(buf[..], i);
    if buf[i] == QUERY {
      var xml := IsXml(buf, i + 1);
      return if xml then Declaration else Instruction;
    }
    var yes := Matches(buf, i, COMMENT_OPEN);
    if yes {
      return Comment;
    }
    yes := Matches(buf, i, CDATA_OPEN);
    if yes {
      return CdataSection;
    }
    yes := Matches(buf, i, DOCTYPE_OPEN);
    if yes {
      RestDrop(buf[..], i, 8);
      PeekRest(buf[..], i + 8);
      if IsSpace(buf[i + 8]) {
        return Doctype;
      }
    }
    return Unknown;
  }

  method IsXml(buf: array<Byte>, i: nat) returns (yes: bool)
    requires Terminated(buf[..]) && i < buf.Length
    ensures yes <==> IsDeclaration(Rest(buf[..], i))
    ensures yes ==> i + 4 < buf.Length
  {
    if buf[i] != 0x78 && buf[i] != 0x58 {
      return false;
    }
    if buf[i + 1] != 0x6D && buf[i + 1] != 0x4D {
      return false;
    }
    if buf[i + 2] != 0x6C && buf[i + 2] != 0x4C {
      return false;
    }
    return IsSpace(buf[i + 3]);
  }

  lemma SpecialMeans(b: Bytes, i: nat)
    requires Terminated(b) && i + 1 < |b| && (b[i] == QUERY || b[i] == BANG)
    ensures var s := Rest(b, i);
            && s != [] && (s[0] == QUERY || s[0] == BANG)
            && var kind := SpecialOf(s);
               && (kind == Declaration && i + 5 < |b| ==> SpecialAt(s) == FromSkip(SkipPast(PI_CLOSE, Rest(b, i + 5))))
               && (kind == Instruction ==> SpecialAt(s) == FromSkip(SkipPast(PI_CLOSE, Rest(b, i + 1))))
               && (kind == Comment && i + 3 < |b| ==> SpecialAt(s) == FromSkip(SkipPast(COMMENT_CLOSE, Rest(b, i + 3))))
               && (kind == Doctype && i + 9 < |b| ==> SpecialAt(s) == FromSkip(SkipDoctype(Rest(b, i + 9))))
               && (kind == Unknown ==> SpecialAt(s) == FromSkip(SkipPast([GT], Rest(b, i + 1))))
               && (kind == CdataSection && i + 8 < |b| ==>
                     SpecialAt(s) == CdataFrom(Rest(b, i + 8), SkipPast(CDATA_CLOSE, Rest(b, i + 8))))
  {
    hide SkipPast, SkipDoctype;
    PeekRest(b, i);
    var s := Rest(b, i);
    assert s[1..] == Rest(b, i + 1);
    if i + 3 < |b| {
      RestDrop(b, i, 3);
    }
    if i + 5 < |b| {
      RestDrop(b, i, 5);
    }
    if i + 8 < |b| {
      RestDrop(b, i, 8);
    }
    if i + 9 < |b| {
      RestDrop(b, i, 9);
    }
    if CDATA_OPEN <= s {
      var r := SkipPast(CDATA_CLOSE, s[8..]);
      if r.Past? {
        assert s[8..8 + r.n] == s[8..][..r.n];
      }
    }
  }

  function CdataFrom(s: Bytes, r: Skipping): NodeResult
    requires r.Past? ==> r.n <= |s|
  {
    match r
    case Past(n, rest) => Made(Cdata(s[..n]), rest)
    case SkipFault(left) => NodeError(UnexpectedEnd, left)
  }

  /** The constructs the default flags leave out, and CDATA, which becomes a node. */
  method ParseSpecial(buf: array<Byte>, i: nat) returns (j: nat, made: MaybeNode, fault: MaybeFault)
    requires Terminated(buf[..]) && i + 1 < buf.Length && (buf[i] == QUERY || buf[i] == BANG)
    modifies buf
    ensures i <= j < buf.Length && Only(old(buf[..]), buf[..], i, j)
    ensures Rest(old(buf[..]), i) != []
            && (Rest(old(buf[..]), i)[0] == QUERY || Rest(old(buf[..]), i)[0] == BANG)
    ensures Yields(SpecialAt(Rest(old(buf[..]), i)), old(buf[..]), buf[..], i, j, made, fault)
  {
    hide SpecialAt, SpecialOf, SkipPast, SkipDoctype, FromSkip, Yields, Only, Terminated, CdataFrom;
    ghost var b := buf[..];
    made, fault := NoNode, Fine;
    SpecialMeans(b, i);
    var kind := Recognise(buf, i);
    if kind == CdataSection {
      j, made, fault := ParseCdata(buf, i);
      return;
    }
    var found;
    if kind == Doctype {
      j, found := SkipDoctypeBody(buf, i + 9);
      SkippedYields(SkipDoctype(Rest(b, i + 9)), b, i, j, found);
    } else {
      var start := if kind == Declaration then i + 5 else if kind == Comment then i + 3 else i + 1;
      var close := if kind == Comment then COMMENT_CLOSE else if kind == Unknown then [GT] else PI_CLOSE;
      j, found := SkipTo(buf, start, close);
      SkippedYields(SkipPast(close, Rest(b, start)), b, i, j, found);
    }
    if !found {
      fault := Bad(UnexpectedEnd);
    }
    OnlyNothing(b, i);
    WidenOnly(b, b, i, i, j);
  }

  /** `parse_cdata`. */
  method ParseCdata(buf: array<Byte>, i: nat) returns (j: nat, made: MaybeNode, fault: MaybeFault)
    requires Terminated(buf[..]) && i + 8 < buf.Length
    modifies buf
    ensures i <= j < buf.Length && Only(old(buf[..]), buf[..], i, j)
    ensures var s := Rest(old(buf[..]), i + 8);
            Yields(CdataFrom(s, SkipPast(CDATA_CLOSE, s)), old(buf[..]), buf[..], i, j, made, fault)
  {
    hide SkipPast, Only, Terminated;
    ghost var b := buf[..];
    made, fault := NoNode, Fine;
    var found;
    j, found := SkipTo(buf, i + 8, CDATA_CLOSE);
    OnlyNothing(b, i);
    WidenOnly(b, b, i, i, j);
    if !found {
      fault := Bad(UnexpectedEnd);
      return;
    }
    var end := j - 3;
    Terminate(buf, end);
    WidenOnly(b, buf[..], end, end + 1, j);
    made := One(PCdata(Ptr(i + 8, end - (i + 8))));
    OnlyAgree(b, buf[..], end, end + 1, i + 8, end);
    ShowSlice(b, buf[..], i + 8, end);
    assert Rest(b, i + 8)[..end - (i + 8)] == b[i + 8..end];
  }

  // ---------------------------------------------------------------- elements

  lemma ElementHead(b: Bytes, i: nat, j1: nat, j2: nat)
    requires Terminated(b) && i <= j1 <= j2 < |b|
    requires j1 - i == Span(NodeName, Rest(b, i)) && j2 - j1 == Span(Space, Rest(b, j1))
    ensures i == j1 ==> ElementAt(Rest(b, i)) == NodeError(ExpectedElementName, |Rest(b, i)|)
    ensures i < j1 && AttributesAt(Rest(b, j2)).AttributesError? ==>
              var e := AttributesAt(Rest(b, j2)); ElementAt(Rest(b, i)) == NodeError(e.fault, e.left)
  {
    hide Span, AttributesAt, SkipSpace;
    RestDrop(b, i, j1 - i);
    SpaceAt(b, j1, j2);
  }

  function Opened(name: Bytes, list: seq<Attribute>, contents: Contents): NodeResult {
    match contents
    case ContentsError(fault, left) => NodeError(fault, left)
    case Contents(children, rest) => Made(Element(name, ValueOf([], children), list, children), rest)
  }

  /** How an element ends, from what follows its attributes. */
  function EndOf(name: Bytes, list: seq<Attribute>, t: Bytes): NodeResult {
    if Peek(t) == GT then Opened(name, list, ContentsAt(true, t[1..]))
    else if Peek(t) == SLASH then
      if Peek(t[1..]) != GT then NodeError(ExpectedGreater, |t| - 1) else Made(Element(name, [], list, []), t[2..])
    else NodeError(ExpectedGreater, |t|)
  }

  lemma ElementTail(b: Bytes, i: nat, j1: nat, j2: nat, list: seq<Attribute>, j: nat)
    requires Terminated(b) && i < j1 <= j2 <= j < |b|
    requires j1 - i == Span(NodeName, Rest(b, i)) && j2 - j1 == Span(Space, Rest(b, j1))
    requires AttributesAt(Rest(b, j2)) == Attributes(list, Rest(b, j))
    ensures ElementAt(Rest(b, i)) == EndOf(b[i..j1], list, Rest(b, j))
  {
    hide Span, AttributesAt, SkipSpace, ContentsAt, ValueOf;
    RestDrop(b, i, j1 - i);
    SpaceAt(b, j1, j2);
    assert Rest(b, i)[..j1 - i] == b[i..j1];
  }

  lemma EndMeans(name: Bytes, list: seq<Attribute>, b: Bytes, j: nat)
    requires Terminated(b) && j < |b|
    ensures b[j] == GT ==> j + 1 < |b| && EndOf(name, list, Rest(b, j)) == Opened(name, list, ContentsAt(true, Rest(b, j + 1)))
    ensures b[j] == SLASH ==>
              j + 1 < |b|
              && (b[j + 1] != GT ==> EndOf(name, list, Rest(b, j)) == NodeError(ExpectedGreater, |Rest(b, j + 1)|))
              && (b[j + 1] == GT ==>
                    j + 2 < |b| && EndOf(name, list, Rest(b, j)) == Made(Element(name, [], list, []), Rest(b, j + 2)))
    ensures b[j] != GT && b[j] != SLASH ==> EndOf(name, list, Rest(b, j)) == NodeError(ExpectedGreater, |Rest(b, j)|)
  {
    hide ContentsAt, Opened;
    PeekRest(b, j);
    if b[j] == SLASH {
      PeekRest(b, j + 1);
      if b[j + 1] == GT {
        RestDrop(b, j, 2);
      }
    }
  }

  /** The name ended at a character no attribute starts with, unless whitespace follows. */
  lemma NameEnd(b: Bytes, j1: nat)
    requires j1 < |b| && !In(NodeName, b[j1]) && !IsSpace(b[j1])
    ensures !In(AttributeName, b[j1])
  {
  }

  /** The zero after an element's name, in a place no pointer reaches, and the finished node. */
  method FinishElement(buf: array<Byte>, i: nat, j1: nat, j: nat, value: Ptr, list: seq<PAttribute>, children: seq<PNode>)
      returns (n: PNode)
    requires Terminated(buf[..]) && i < j1 < j < buf.Length
    requires AttributesIn(list, j1 + 1, j) && NodesIn(children, j1 + 1, j) && PtrIn(value, j1 + 1, j)
    requires AttributesIn(list, 0, buf.Length) && NodesIn(children, 0, buf.Length) && PtrIn(value, 0, buf.Length)
    modifies buf
    ensures Only(old(buf[..]), buf[..], j1, j1 + 1) && NodeIn(n, i, j) && NodeIn(n, 0, buf.Length)
    ensures ShowNode(buf[..], n) == Element(old(buf[i..j1]), Show(old(buf[..]), value), ShowAttributes(old(buf[..]), list),
                                            ShowNodes(old(buf[..]), children))
  {
    hide ShowAttributes, AttributesIn, Show, Only, Terminated;
    ghost var b := buf[..];
    Terminate(buf, j1);
    ghost var c := buf[..];
    n := PElement(Ptr(i, j1 - i), value, list, children);
    OnlyAgree(b, c, j1, j1 + 1, i, j1);
    ShowSlice(b, c, i, j1);
    assert b[i..j1] == old(buf[i..j1]);
    OnlyAgree(b, c, j1, j1 + 1, j1 + 1, j);
    AttributesSame(b, c, list, j1 + 1, j);
    NodesSame(b, c, children, j1 + 1, j);
    ShowSame(b, c, value, j1 + 1, j);
    AttributesWider(list, j1 + 1, j, i, j);
    NodesWider(children, j1 + 1, j, i, j);
    AttributesWider(list, j1 + 1, j, 0, buf.Length);
    assert NodeIn(n, 0, buf.Length);
    assert ShowNode(c, n).children == ShowNodes(c, children);
  }

  /** `parse_node`, from the character after '<'. */
  method ParseNode(buf: array<Byte>, i: nat) returns (j: nat, made: MaybeNode, fault: MaybeFault)
    requires Terminated(buf[..]) && i < buf.Length
    modifies buf
    ensures i <= j < buf.Length && (fault.Fine? ==> Only(old(buf[..]), buf[..], i, j))
    ensures Yields(NodeAt(Rest(old(buf[..]), i)), old(buf[..]), buf[..], i, j, made, fault)
    decreases buf.Length - i, 1
  {
    hide SpecialAt, ElementAt, Yields, Only, Terminated;
    PeekRest(buf[..], i);
    if buf[i] == QUERY || buf[i] == BANG {
      NotLast(buf[..], i);
      j, made, fault := ParseSpecial(buf, i);
    } else {
      j, made, fault := ParseElement(buf, i);
    }
  }

  /** The end of a tag, and the contents of an element that has any. */
  method ParseEnd(buf: array<Byte>, i: nat, ghost name: Bytes, ghost list: seq<Attribute>)
      returns (j: nat, children: seq<PNode>, value: Ptr, fault: MaybeFault)
    requires Terminated(buf[..]) && i < buf.Length
    modifies buf
    ensures i <= j < buf.Length && (fault.Fine? ==> i < j && Only(old(buf[..]), buf[..], i + 1, j))
    ensures fault.Bad? ==> EndOf(name, list, Rest(old(buf[..]), i)) == NodeError(fault.fault, |Rest(old(buf[..]), j)|)
    ensures fault.Fine? ==>
              NodesIn(children, i + 1, j) && NodesIn(children, 0, buf.Length) && PtrIn(value, i + 1, j) && PtrIn(value, 0, buf.Length)
    ensures fault.Fine? ==>
              var nodes := ShowNodes(buf[..], children);
              EndOf(name, list, Rest(old(buf[..]), i))
              == Made(Element(name, Show(buf[..], value), list, nodes), Rest(old(buf[..]), j))
    decreases buf.Length - i, 0
  {
    hide ContentsAt, EndOf, Only, Terminated, Rest, ShowNodes, NodesIn, Show;
    ghost var b := buf[..];
    j, children, value, fault := i, [], Nil, Fine;
    EndMeans(name, list, b, i);
    ShowNothing(b);
    if buf[j] == GT {
      j, children, value, fault := ParseContents(buf, j + 1);
    } else if buf[j] == SLASH {
      j := j + 1;
      if buf[j] != GT {
        fault := Bad(ExpectedGreater);
        return;
      }
      j := j + 1;
      OnlyNothing(b, i + 1);
      WidenOnly(b, b, i + 1, i + 1, j);
      NothingIn(buf.Length, i + 1, j);
    } else {
      fault := Bad(ExpectedGreater);
    }
  }

  /** `parse_element`. */
  method ParseElement(buf: array<Byte>, i: nat) returns (j: nat, made: MaybeNode, fault: MaybeFault)
    requires Terminated(buf[..]) && i < buf.Length
    modifies buf
    ensures i <= j < buf.Length && (fault.Fine? ==> Only(old(buf[..]), buf[..], i, j))
    ensures Yields(ElementAt(Rest(old(buf[..]), i)), old(buf[..]), buf[..], i, j, made, fault)
    decreases buf.Length - i, 0
  {
    hide ElementAt, AttributesAt, EndOf, Only, Terminated, Span, Rest, ShowAttributes, ShowNodes, ShowNode, NodesIn,
         AttributesIn, NodeIn, Show, AgreeIn, In, PtrIn;
    ghost var b := buf[..];
    made, fault := NoNode, Fine;
    var j1 := Skip(NodeName, buf, i);
    var j2 := Skip(Space, buf, j1);
    ElementHead(b, i, j1, j2);
    if i == j1 {
      return i, NoNode, Bad(ExpectedElementName);
    }
    var list;
    j, list, fault := ParseAttributes(buf, j2);
    if fault.Bad? {
      return;
    }
    ghost var c, j3, shown := buf[..], j, ShowAttributes(buf[..], list);
    ListBehindName(b, j1, j2, j, list);
    ElementTail(b, i, j1, j2, shown, j);
    OnlyRest(b, c, j2, j, j);
    var children, value;
    j, children, value, fault := ParseEnd(buf, j, b[i..j1], shown);
    OnlyRest(b, c, j2, j3, j);
    if fault.Bad? {
      return;
    }
    ghost var d := buf[..];
    NodesWider(children, j3 + 1, j, j1 + 1, j);
    PtrWider(value, j3 + 1, j, j1 + 1, j);
    OnlyAgree(c, d, j3 + 1, j, j1 + 1, j3);
    AttributesSame(c, d, list, j1 + 1, j3);
    AttributesWider(list, j1 + 1, j3, j1 + 1, j);
    OnlyThen(b, c, d, j2, j3, j3 + 1, j);
    OnlyAgree(b, d, j2, j, i, j1);
    ShowSlice(b, d, i, j1);
    ShowSlice(d, d, i, j1);
    var n := FinishElement(buf, i, j1, j, value, list, children);
    WidenOnly(d, buf[..], j1, j1 + 1, j);
    WidenOnly(b, d, j2, j, j);
    OnlyThen(b, d, buf[..], j1, j, j1, j);
    WidenOnly(b, buf[..], j1, j, j);
    made := One(n);
  }

  /** Attributes only start past the place of the name's zero. */
  lemma ListBehindName(b: Bytes, j1: nat, j2: nat, j: nat, list: seq<PAttribute>)
    requires j1 <= j2 <= j && j2 < |b| && !In(NodeName, b[j1]) && !In(Space, b[j2])
    requires AttributesIn(list, j2, j) && (!In(AttributeName, b[j2]) ==> list == [])
    ensures AttributesIn(list, j1 + 1, j)
  {
    if j1 == j2 {
      NameEnd(b, j1);
    } else {
      AttributesWider(list, j2, j, j1 + 1, j);
    }
  }

  lemma NothingIn(n: nat, lo: nat, hi: nat)
    ensures NodesIn([], lo, hi) && NodesIn([], 0, n) && PtrIn(Nil, lo, hi)
  {
  }

  lemma ShowNothing(c: Bytes)
    ensures NodesIn([], 0, |c|) && ShowNodes(c, []) == [] && Show(c, Nil) == [] && ValueOf([], []) == []
  {
  }

  // ---------------------------------------------------------------- contents

  function ClosingFrom(s: Bytes): Contents {
    var u := SkipSpace(s[Span(NodeName, s)..]);
    if Peek(u) != GT then ContentsError(ExpectedGreater, |u|) else Contents([], u[1..])
  }

  function AfterNode(r: NodeResult): Contents {
    match r
    case Made(node, rest) => Under([node], ContentsAt(true, rest))
    case Nothing(rest) => ContentsAt(true, rest)
    case NodeError(fault, left) => ContentsError(fault, left)
  }

  function AfterData(p: Piece): Contents {
    match p
    case Piece(bytes, rest) => Under([Data(bytes)], ContentsAt(false, rest))
    case PieceError(fault, left) => ContentsError(fault, left)
  }

  /** The switch on the next character. */
  lemma ContentsMeans(b: Bytes, afterTag: bool, i: nat, t: nat)
    requires Terminated(b) && i <= t < |b|
    requires if afterTag then t - i == Span(Space, Rest(b, i)) else t == i
    ensures b[t] == LT ==>
              t + 1 < |b|
              && (b[t + 1] == SLASH ==> t + 2 < |b| && ContentsAt(afterTag, Rest(b, i)) == ClosingFrom(Rest(b, t + 2)))
              && (b[t + 1] != SLASH ==> ContentsAt(afterTag, Rest(b, i)) == AfterNode(NodeAt(Rest(b, t + 1))))
    ensures b[t] == 0 ==> ContentsAt(afterTag, Rest(b, i)) == ContentsError(UnexpectedEnd, |Rest(b, t)|)
    ensures b[t] != LT && b[t] != 0 && afterTag ==>
              ContentsAt(afterTag, Rest(b, i)) == AfterData(Expand(TextChars, Rest(b, i)))
  {
    hide Span, SkipSpace, NodeAt, Expand, Under;
    if afterTag {
      SpaceAt(b, i, t);
    }
    PeekRest(b, t);
    if b[t] == LT {
      PeekRest(b, t + 1);
      if b[t + 1] == SLASH {
        RestDrop(b, t, 2);
      }
    }
  }

  lemma ClosingMeans(b: Bytes, i: nat, j1: nat, j2: nat)
    requires Terminated(b) && i <= j1 <= j2 < |b|
    requires j1 - i == Span(NodeName, Rest(b, i)) && j2 - j1 == Span(Space, Rest(b, j1))
    ensures b[j2] != GT ==> ClosingFrom(Rest(b, i)) == ContentsError(ExpectedGreater, |Rest(b, j2)|)
    ensures b[j2] == GT ==> j2 + 1 < |b| && ClosingFrom(Rest(b, i)) == Contents([], Rest(b, j2 + 1))
  {
    hide Span, SkipSpace;
    RestDrop(b, i, j1 - i);
    SpaceAt(b, j1, j2);
    PeekRest(b, j2);
  }

  lemma {:induction false} ValueOfMore(value: Bytes, ns: seq<Node>, n: Node)
    ensures ValueOf(value, ns + [n])
         == var v := ValueOf(value, ns); if n.Data? && (v == [] || v[0] == 0) then n.text else v
    decreases ns
  {
    if ns == [] {
      assert (ns + [n])[1..] == [];
    } else {
      var next := if ns[0].Data? && (value == [] || value[0] == 0) then ns[0].text else value;
      assert (ns + [n])[1..] == ns[1..] + [n];
      ValueOfMore(next, ns[1..], n);
    }
  }

  lemma ShowNodesMore(b: Bytes, ns: seq<PNode>, n: PNode)
    requires NodesIn(ns, 0, |b|) && NodeIn(n, 0, |b|)
    ensures NodesIn(ns + [n], 0, |b|) && ShowNodes(b, ns + [n]) == ShowNodes(b, ns) + [ShowNode(b, n)]
  {
    hide NodeIn, ShowNode;
  }

  lemma NodesInMore(ns: seq<PNode>, n: PNode, i: nat, j0: nat, j: nat)
    requires NodesIn(ns, i, j0) && NodeIn(n, i, j) && j0 <= j
    ensures NodesIn(ns + [n], i, j)
  {
    hide NodeIn;
    NodesWider(ns, i, j0, i, j);
  }

  /**
    The state of the contents loop at position `text`: the children so far still show what was read, and what
    is left decides the rest. After data, the character at `text` may have been overwritten by a zero.
   */
  ghost predicate Inside(b: Bytes, c: Bytes, i: nat, text: nat, afterTag: bool, children: seq<PNode>, value: Ptr) {
    && i <= text < |b| == |c| && Terminated(b)
    && Only(b, c, i, if afterTag then text else text + 1)
    && NodesIn(children, i, text) && NodesIn(children, 0, |c|) && PtrIn(value, i, text) && PtrIn(value, 0, |c|)
    && Show(c, value) == ValueOf([], ShowNodes(c, children))
    && ContentsAt(true, Rest(b, i)) == Under(ShowNodes(c, children), ContentsAt(afterTag, Rest(b, text)))
  }

  lemma InsideStart(b: Bytes, i: nat)
    requires Terminated(b) && i < |b|
    ensures Inside(b, b, i, i, true, [], Nil)
  {
    hide ContentsAt, ValueOf;
    ShowNothing(b);
    var r := ContentsAt(true, Rest(b, i));
    if r.Contents? {
      assert [] + r.children == r.children;
    }
  }

  /** A child node was read from `t`, where its '<' stands, up to `j`. */
  lemma InsideNode(b: Bytes, c: Bytes, d: Bytes, i: nat, text: nat, t: nat, j: nat, afterTag: bool, children: seq<PNode>,
                   value: Ptr, n: PNode)
    requires Inside(b, c, i, text, afterTag, children, value) && text <= t < j < |b| && Only(c, d, t + 1, j)
    requires NodeIn(n, t + 1, j) && NodeIn(n, 0, |d|) && !n.PData?
    requires ContentsAt(afterTag, Rest(b, text)) == Under([ShowNode(d, n)], ContentsAt(true, Rest(b, j)))
    ensures Inside(b, d, i, j, true, children + [n], value)
  {
    hide ContentsAt, ValueOf, Only, Terminated, ShowNodes, ShowNode, NodesIn, NodeIn, Show, PtrIn, Rest, Under;
    OnlyThen(b, c, d, i, if afterTag then text else text + 1, t + 1, j);
    OnlyAgree(c, d, t + 1, j, i, text);
    NodesSame(c, d, children, i, text);
    ShowSame(c, d, value, i, text);
    PtrWider(value, i, text, i, j);
    NodeWider(n, t + 1, j, i, j);
    NodesInMore(children, n, i, text, j);
    ShowNodesMore(d, children, n);
    ValueOfMore([], ShowNodes(d, children), ShowNode(d, n));
    NotData(d, n);
    UnderTwice(ShowNodes(d, children), [ShowNode(d, n)], ContentsAt(true, Rest(b, j)));
  }

  lemma NotData(b: Bytes, n: PNode)
    requires NodeIn(n, 0, |b|)
    ensures ShowNode(b, n).Data? == n.PData?
  {
  }

  /** Something was read that leaves no node. */
  lemma InsideNothing(b: Bytes, c: Bytes, d: Bytes, i: nat, text: nat, t: nat, j: nat, afterTag: bool, children: seq<PNode>,
                      value: Ptr)
    requires Inside(b, c, i, text, afterTag, children, value) && text <= t < j < |b| && Only(c, d, t + 1, j)
    requires ContentsAt(afterTag, Rest(b, text)) == ContentsAt(true, Rest(b, j))
    ensures Inside(b, d, i, j, true, children, value)
  {
    hide ContentsAt, ValueOf, Only, Terminated, ShowNodes, NodesIn, Show, PtrIn, Rest, Under;
    OnlyThen(b, c, d, i, if afterTag then text else text + 1, t + 1, j);
    OnlyAgree(c, d, t + 1, j, i, text);
    NodesSame(c, d, children, i, text);
    ShowSame(c, d, value, i, text);
    PtrWider(value, i, text, i, j);
    NodesWider(children, i, text, i, j);
  }

  /** Data was read from `text`, translated into `text` to `end`, and ended with a zero there. */
  lemma InsideData(b: Bytes, c: Bytes, d: Bytes, i: nat, text: nat, end: nat, j: nat, children: seq<PNode>, value: Ptr)
    requires Inside(b, c, i, text, true, children, value) && text <= end <= j < |b| && Only(c, d, text, j + 1)
    requires ContentsAt(true, Rest(b, text)) == Under([Data(d[text..end])], ContentsAt(false, Rest(b, j)))
    ensures |d| == |b|
    ensures var p := Ptr(text, end - text);
            var v := Show(c, value);
            Inside(b, d, i, j, false, children + [PData(p)], if v == [] || v[0] == 0 then p else value)
  {
    hide ContentsAt, ValueOf, Only, Terminated, ShowNodes, NodesIn, Show, PtrIn, Rest, Under;
    var p := Ptr(text, end - text);
    var n := PData(p);
    OnlyThen(b, c, d, i, text, text, j + 1);
    OnlyAgree(c, d, text, j + 1, i, text);
    NodesSame(c, d, children, i, text);
    ShowSame(c, d, value, i, text);
    PtrWider(value, i, text, i, j);
    DataPtr(d, text, end, i, j);
    NodesInMore(children, n, i, text, j);
    ShowNodesMore(d, children, n);
    ValueOfMore([], ShowNodes(d, children), ShowNode(d, n));
    UnderTwice(ShowNodes(d, children), [ShowNode(d, n)], ContentsAt(false, Rest(b, j)));
  }

  lemma DataPtr(d: Bytes, text: nat, end: nat, i: nat, j: nat)
    requires i <= text <= end <= j <= |d|
    ensures var p := Ptr(text, end - text);
            && PtrIn(p, i, j) && PtrIn(p, 0, |d|) && NodeIn(PData(p), i, j) && NodeIn(PData(p), 0, |d|)
            && ShowNode(d, PData(p)) == Data(d[text..end]) && Show(d, p) == d[text..end]
  {
  }

  /** The closing tag. */
  method ParseClosing(buf: array<Byte>, i: nat) returns (j: nat, fault: MaybeFault)
    requires Terminated(buf[..]) && i < buf.Length
    ensures i <= j < buf.Length
    ensures fault.Bad? ==> ClosingFrom(Rest(buf[..], i)) == ContentsError(fault.fault, |Rest(buf[..], j)|)
    ensures fault.Fine? ==> ClosingFrom(Rest(buf[..], i)) == Contents([], Rest(buf[..], j))
  {
    hide Span, ClosingFrom;
    var j1 := Skip(NodeName, buf, i);
    j := Skip(Space, buf, j1);
    ClosingMeans(buf[..], i, j1, j);
    if buf[j] != GT {
      return j, Bad(ExpectedGreater);
    }
    return j + 1, Fine;
  }

  /** `parse_and_append_data`: returns the character that ends the data, which may be overwritten. */
  method ParseData(buf: array<Byte>, start: nat) returns (j: nat, end: nat, next: Byte, fault: MaybeFault)
    requires Terminated(buf[..]) && start < buf.Length
    modifies buf
    ensures start <= end <= j < buf.Length
    ensures fault.Bad? ==> Expand(TextChars, Rest(old(buf[..]), start)) == PieceError(fault.fault, |Rest(old(buf[..]), j)|)
    ensures fault.Fine? ==> Only(old(buf[..]), buf[..], start, j + 1) && next == old(buf[j]) && !In(TextChars, next)
    ensures fault.Fine? ==> Expand(TextChars, Rest(old(buf[..]), start)) == Piece(buf[start..end], Rest(old(buf[..]), j))
  {
    hide Expand, Only, Terminated, Rest;
    ghost var b := buf[..];
    next := 0;
    j, end, fault := SkipAndExpand(TextChars, buf, start);
    if fault.Bad? {
      return;
    }
    ghost var c := buf[..];
    OnlySlices(b, c, start, j);
    OnlyRest(b, c, start, j, j);
    next := buf[j];
    Terminate(buf, end);
    ghost var d := buf[..];
    WidenOnly(c, d, end, end + 1, j + 1);
    WidenOnly(b, c, start, j, j + 1);
    OnlyThen(b, c, d, start, j + 1, end, j + 1);
    OnlyAgree(c, d, end, end + 1, start, end);
    ShowSlice(c, d, start, end);
    assert d[start..end] == Show(d, Ptr(start, end - start));
  }

  lemma InsideRest(b: Bytes, c: Bytes, i: nat, text: nat, j: nat, afterTag: bool, children: seq<PNode>, value: Ptr)
    requires Inside(b, c, i, text, afterTag, children, value) && (if afterTag then text else text + 1) <= j < |b|
    ensures |c| == |b| && Rest(c, j) == Rest(b, j) && c[j] == b[j] && Terminated(c) && Terminated(b)
  {
    OnlyRest(b, c, i, if afterTag then text else text + 1, j);
  }

  lemma InsideFacts(b: Bytes, c: Bytes, i: nat, text: nat, afterTag: bool, children: seq<PNode>, value: Ptr)
    requires Inside(b, c, i, text, afterTag, children, value)
    ensures |c| == |b| && Terminated(c) && Terminated(b) && PtrIn(value, i, text) && PtrIn(value, 0, |c|)
    ensures ContentsAt(true, Rest(b, i)).ContentsError? <==> ContentsAt(afterTag, Rest(b, text)).ContentsError?
  {
    hide ContentsAt, ValueOf, ShowNodes, NodesIn, Show, Rest;
  }

  lemma InsideFails(b: Bytes, c: Bytes, i: nat, text: nat, afterTag: bool, children: seq<PNode>, value: Ptr, fault: Fault,
                    left: nat)
    requires Inside(b, c, i, text, afterTag, children, value)
    requires ContentsAt(afterTag, Rest(b, text)) == ContentsError(fault, left)
    ensures ContentsAt(true, Rest(b, i)) == ContentsError(fault, left)
  {
    hide ContentsAt, ValueOf, ShowNodes, NodesIn, Show, Rest, Only;
  }

  /** The closing tag ends the contents with the children so far. */
  lemma InsideEnds(b: Bytes, c: Bytes, i: nat, text: nat, j: nat, afterTag: bool, children: seq<PNode>, value: Ptr)
    requires Inside(b, c, i, text, afterTag, children, value) && text < j < |b|
    requires ContentsAt(afterTag, Rest(b, text)) == Contents([], Rest(b, j))
    ensures |c| == |b| && Only(b, c, i, j)
    ensures NodesIn(children, i, j) && NodesIn(children, 0, |c|) && PtrIn(value, i, j) && PtrIn(value, 0, |c|)
    ensures Show(c, value) == ValueOf([], ShowNodes(c, children))
    ensures ContentsAt(true, Rest(b, i)) == Contents(ShowNodes(c, children), Rest(b, j))
  {
    hide ContentsAt, ValueOf, ShowNodes, NodesIn, Show, Rest, Only;
    WidenOnly(b, c, i, if afterTag then text else text + 1, j);
    NodesWider(children, i, text, i, j);
    assert ShowNodes(c, children) + [] == ShowNodes(c, children);
  }

  lemma NodesAreTags(s: Bytes)
    ensures NodeAt(s).Made? ==> !NodeAt(s).node.Data?
  {
    hide SkipPast, SkipDoctype, AttributesAt, ContentsAt, Span, SkipSpace;
  }

  /** What a child's result means for the contents around it. */
  lemma YieldFacts(s: Bytes, c: Bytes, d: Bytes, i: nat, j: nat, made: MaybeNode, fault: MaybeFault)
    requires Yields(NodeAt(s), c, d, i, j, made, fault)
    ensures i <= j < |c| == |d|
    ensures fault.Bad? ==> AfterNode(NodeAt(s)) == ContentsError(fault.fault, |Rest(c, j)|)
    ensures fault.Fine? ==> i < j
    ensures fault.Fine? && made.NoNode? ==> AfterNode(NodeAt(s)) == ContentsAt(true, Rest(c, j))
    ensures fault.Fine? && made.One? ==>
              NodeIn(made.node, i, j) && NodeIn(made.node, 0, |d|) && !made.node.PData?
              && AfterNode(NodeAt(s)) == Under([ShowNode(d, made.node)], ContentsAt(true, Rest(c, j)))
  {
    hide NodeAt, ContentsAt, ShowNode, NodeIn, Rest, Under;
    NodesAreTags(s);
    if fault.Fine? && made.One? {
      NotData(d, made.node);
    }
  }

  lemma StopsText(next: Byte)
    ensures !In(TextChars, next) <==> next == 0 || next == LT
  {
  }

  /** Whether the element has no value yet, judged by the first character its value points to. */
  method HasNoValue(buf: array<Byte>, value: Ptr, ghost c: Bytes, ghost lo: nat, ghost hi: nat) returns (none: bool)
    requires AgreeIn(c, buf[..], lo, hi) && PtrIn(value, lo, hi) && PtrIn(value, 0, |c|)
    ensures none <==> Show(c, value) == [] || Show(c, value)[0] == 0
  {
    if value.Nil? || value.length == 0 {
      return true;
    }
    return buf[value.start] == 0;
  }

  /** `parse_node_contents`: children, data and the closing tag. */
  method ParseContents(buf: array<Byte>, i: nat) returns (j: nat, children: seq<PNode>, value: Ptr, fault: MaybeFault)
    requires Terminated(buf[..]) && i < buf.Length
    modifies buf
    ensures i <= j < buf.Length && (fault.Fine? ==> i < j && Only(old(buf[..]), buf[..], i, j))
    ensures fault.Bad? ==> ContentsAt(true, Rest(old(buf[..]), i)) == ContentsError(fault.fault, |Rest(old(buf[..]), j)|)
    ensures fault.Fine? ==>
              NodesIn(children, i, j) && NodesIn(children, 0, buf.Length) && PtrIn(value, i, j) && PtrIn(value, 0, buf.Length)
    ensures fault.Fine? ==>
              Show(buf[..], value) == ValueOf([], ShowNodes(buf[..], children))
              && ContentsAt(true, Rest(old(buf[..]), i)) == Contents(ShowNodes(buf[..], children), Rest(old(buf[..]), j))
    decreases buf.Length - i, 0
  {
    hide ContentsAt, ValueOf, Only, Terminated, ShowNodes, ShowNode, NodesIn, NodeIn, Show, PtrIn, Rest, Under, Inside,
         Span, In, ClosingFrom, Expand, NodeAt, Yields, AfterNode, AgreeIn;
    ghost var b := buf[..];
    j, children, value, fault := i, [], Nil, Fine;
    var afterTag := true;
    var next: Byte := 0;
    InsideStart(b, i);
    while true
      invariant i <= j < buf.Length && Inside(b, buf[..], i, j, afterTag, children, value) && fault.Fine?
      invariant !afterTag ==> next == b[j] && !In(TextChars, next)
      decreases buf.Length - j, if afterTag then 1 else 0
    {
      ghost var c := buf[..];
      InsideFacts(b, c, i, j, afterTag, children, value);
      var start := j;
      if afterTag {
        InsideRest(b, c, i, start, start, afterTag, children, value);
        j := Skip(Space, buf, j);
        InsideRest(b, c, i, start, j, afterTag, children, value);
        next := buf[j];
      }
      ContentsMeans(b, afterTag, start, j);
      if next == LT {
        InsideRest(b, c, i, start, j + 1, afterTag, children, value);
        if buf[j + 1] == SLASH {
          InsideRest(b, c, i, start, j + 2, afterTag, children, value);
          j, fault := ParseClosing(buf, j + 2);
          InsideRest(b, c, i, start, j, afterTag, children, value);
          if fault.Bad? {
            InsideFails(b, c, i, start, afterTag, children, value, fault.fault, |Rest(b, j)|);
          } else {
            InsideEnds(b, c, i, start, j, afterTag, children, value);
          }
          return;
        }
        ghost var t := j;
        var made;
        j, made, fault := ParseNode(buf, j + 1);
        InsideRest(b, c, i, start, j, afterTag, children, value);
        YieldFacts(Rest(b, t + 1), c, buf[..], t + 1, j, made, fault);
        if fault.Bad? {
          InsideFails(b, c, i, start, afterTag, children, value, fault.fault, |Rest(b, j)|);
          return;
        }
        if made.One? {
          InsideNode(b, c, buf[..], i, start, t, j, afterTag, children, value, made.node);
          children := children + [made.node];
        } else {
          InsideNothing(b, c, buf[..], i, start, t, j, afterTag, children, value);
        }
        afterTag := true;
      } else if next == 0 {
        InsideFails(b, c, i, start, afterTag, children, value, UnexpectedEnd, |Rest(b, j)|);
        fault := Bad(UnexpectedEnd);
        return;
      } else {
        StopsText(next);
        assert afterTag;
        var end;
        InsideRest(b, c, i, start, start, afterTag, children, value);
        j, end, next, fault := ParseData(buf, start);
        InsideRest(b, c, i, start, j, afterTag, children, value);
        if fault.Bad? {
          InsideFails(b, c, i, start, afterTag, children, value, fault.fault, |Rest(b, j)|);
          return;
        }
        InsideData(b, c, buf[..], i, start, end, j, children, value);
        OnlyAgree(c, buf[..], start, j + 1, i, start);
        var none := HasNoValue(buf, value, c, i, start);
        children := children + [PData(Ptr(start, end - start))];
        if none {
          value := Ptr(start, end - start);
        }
        afterTag := false;
      }
    }
  }

  // ---------------------------------------------------------------- documents

  function UnderParsed(first: seq<Node>, r: Parsed): Parsed {
    match r
    case Parsed(children) => Parsed(first + children)
    case ParseError(_, _) => r
  }

  function AfterTopNode(r: NodeResult): Parsed {
    match r
    case NodeError(fault, left) => ParseError(fault, left)
    case Nothing(rest) => DocumentAt(rest)
    case Made(node, rest) => UnderParsed([node], DocumentAt(rest))
  }

  lemma DocumentMeans(b: Bytes, i: nat, t: nat)
    requires Terminated(b) && i <= t < |b| && t - i == Span(Space, Rest(b, i))
    ensures b[t] == 0 ==> DocumentAt(Rest(b, i)) == Parsed([])
    ensures b[t] != 0 && b[t] != LT ==> DocumentAt(Rest(b, i)) == ParseError(ExpectedLess, |Rest(b, t)|)
    ensures b[t] == LT ==> t + 1 < |b| && DocumentAt(Rest(b, i)) == AfterTopNode(NodeAt(Rest(b, t + 1)))
  {
    hide Span, SkipSpace, NodeAt;
    SpaceAt(b, i, t);
    PeekRest(b, t);
  }

  lemma UnderParsedTwice(a: seq<Node>, n: Node, r: Parsed)
    ensures UnderParsed(a, UnderParsed([n], r)) == UnderParsed(a + [n], r)
  {
    if r.Parsed? {
      assert a + ([n] + r.children) == a + [n] + r.children;
    }
  }

  /** The nodes so far still show what was read. */
  ghost predicate TopLevel(b: Bytes, c: Bytes, i: nat, text: nat, children: seq<PNode>) {
    && i <= text < |b| == |c| && Terminated(b) && Only(b, c, i, text)
    && NodesIn(children, i, text) && NodesIn(children, 0, |c|)
    && DocumentAt(Rest(b, i)) == UnderParsed(ShowNodes(c, children), DocumentAt(Rest(b, text)))
  }

  lemma TopStart(b: Bytes, i: nat)
    requires Terminated(b) && i < |b|
    ensures TopLevel(b, b, i, i, [])
  {
    hide DocumentAt;
    ShowNothing(b);
    var r := DocumentAt(Rest(b, i));
    if r.Parsed? {
      assert [] + r.children == r.children;
    }
  }

  lemma TopNode(b: Bytes, c: Bytes, d: Bytes, i: nat, text: nat, t: nat, j: nat, children: seq<PNode>, made: MaybeNode)
    requires TopLevel(b, c, i, text, children) && text <= t && t + 1 < |b| && Only(c, d, t + 1, j)
    requires Yields(NodeAt(Rest(b, t + 1)), c, d, t + 1, j, made, Fine)
    requires DocumentAt(Rest(b, text)) == AfterTopNode(NodeAt(Rest(b, t + 1)))
    ensures TopLevel(b, d, i, j, if made.One? then children + [made.node] else children)
  {
    hide DocumentAt, NodeAt, Only, Terminated, ShowNodes, ShowNode, NodesIn, NodeIn, UnderParsed;
    OnlyRest(b, c, i, text, j);
    OnlyThen(b, c, d, i, text, t + 1, j);
    OnlyAgree(c, d, t + 1, j, i, text);
    NodesSame(c, d, children, i, text);
    NodesWider(children, i, text, i, j);
    if made.One? {
      NodeWider(made.node, t + 1, j, i, j);
      NodesInMore(children, made.node, i, text, j);
      ShowNodesMore(d, children, made.node);
      UnderParsedTwice(ShowNodes(d, children), ShowNode(d, made.node), DocumentAt(Rest(b, j)));
    }
  }

  lemma TopDone(b: Bytes, c: Bytes, i: nat, text: nat, children: seq<PNode>)
    requires TopLevel(b, c, i, text, children)
    ensures |c| == |b| && NodesIn(children, 0, |c|)
    ensures DocumentAt(Rest(b, text)) == Parsed([]) ==> DocumentAt(Rest(b, i)) == Parsed(ShowNodes(c, children))
    ensures DocumentAt(Rest(b, text)).ParseError? ==> DocumentAt(Rest(b, i)) == DocumentAt(Rest(b, text))
  {
    hide DocumentAt, ShowNodes, NodesIn, Rest;
    assert ShowNodes(c, children) + [] == ShowNodes(c, children);
  }

  lemma TopRest(b: Bytes, c: Bytes, i: nat, text: nat, j: nat, children: seq<PNode>)
    requires TopLevel(b, c, i, text, children) && text <= j < |b|
    ensures |c| == |b| && Rest(c, j) == Rest(b, j) && c[j] == b[j] && Terminated(c) && Terminated(b)
  {
    OnlyRest(b, c, i, text, j);
  }

  /** The loop of `parse`. */
  method ParseNodes(buf: array<Byte>, i: nat) returns (children: seq<PNode>, where: nat, fault: MaybeFault)
    requires Terminated(buf[..]) && i < buf.Length
    modifies buf
    ensures where < buf.Length
    ensures fault.Fine? ==> NodesIn(children, 0, buf.Length)
                            && DocumentAt(Rest(old(buf[..]), i)) == Parsed(ShowNodes(buf[..], children))
    ensures fault.Bad? ==> DocumentAt(Rest(old(buf[..]), i)) == ParseError(fault.fault, |Rest(old(buf[..]), where)|)
  {
    hide DocumentAt, NodeAt, Only, Terminated, ShowNodes, ShowNode, NodesIn, NodeIn, UnderParsed, TopLevel, Yields, Span,
         AfterTopNode, Rest;
    ghost var b := buf[..];
    children, where, fault := [], i, Fine;
    TopStart(b, i);
    while true
      invariant i <= where < buf.Length && TopLevel(b, buf[..], i, where, children) && fault.Fine?
      decreases buf.Length - where
    {
      ghost var c, start := buf[..], where;
      TopRest(b, c, i, where, where, children);
      where := Skip(Space, buf, where);
      TopRest(b, c, i, start, where, children);
      DocumentMeans(b, start, where);
      TopDone(b, c, i, start, children);
      if buf[where] == 0 {
        return;
      }
      if buf[where] != LT {
        fault := Bad(ExpectedLess);
        return;
      }
      TopRest(b, c, i, start, where + 1, children);
      ghost var t := where;
      var made;
      where, made, fault := ParseNode(buf, where + 1);
      TopRest(b, c, i, start, where, children);
      if fault.Bad? {
        TopFails(NodeAt(Rest(b, t + 1)), c, buf[..], t + 1, where, made, fault);
        return;
      }
      YieldMoves(NodeAt(Rest(b, t + 1)), c, buf[..], t + 1, where, made);
      TopNode(b, c, buf[..], i, start, t, where, children, made);
      if made.One? {
        children := children + [made.node];
      }
    }
  }

  /**
    `parse` with default flags, in place. When parsing ends, the nodes point into the overwritten text, and show
    the tree that the text described before.
   */
  method ParseDocument(buf: array<Byte>) returns (children: seq<PNode>, where: nat, fault: MaybeFault)
    requires Terminated(buf[..])
    modifies buf
    ensures where < buf.Length
    ensures fault.Fine? ==> NodesIn(children, 0, buf.Length)
                            && Parse(old(buf[..buf.Length - 1])) == Parsed(ShowNodes(buf[..], children))
    ensures fault.Bad? ==> Parse(old(buf[..buf.Length - 1])) == ParseError(fault.fault, buf.Length - 1 - where)
  {
    hide DocumentAt, ShowNodes, NodesIn;
    ghost var b := buf[..];
    assert Rest(b, 0) == b[..|b| - 1];
    var bom := Matches(buf, 0, BOM);
    if bom {
      RestDrop(b, 0, 3);
    }
    children, where, fault := ParseNodes(buf, if bom then 3 else 0);
  }

  lemma YieldMoves(r: NodeResult, c: Bytes, d: Bytes, i: nat, j: nat, made: MaybeNode)
    requires Yields(r, c, d, i, j, made, Fine)
    ensures i < j
  {
  }

  lemma TopFails(r: NodeResult, c: Bytes, d: Bytes, i: nat, j: nat, made: MaybeNode, fault: MaybeFault)
    requires Yields(r, c, d, i, j, made, fault) && fault.Bad?
    ensures j < |c| && AfterTopNode(r) == ParseError(fault.fault, |Rest(c, j)|)
  {
  }
}
