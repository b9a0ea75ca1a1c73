/**
  Parser and printer are inverse: reading what either writer wrote rebuilds the tree that was written.
 */
module RoundTrip {
  import opened Json
  import opened Numbers
  import opened ReaderSpec
  import opened Writer
  import D = Document

  // ---------------------------------------------------------------- strings

  lemma ReadEscapedByte(c: Byte, rest: Bytes)
    ensures UnitAt(EscapedByte(c) + rest) == Chunk([c], rest)
  {
    var text := EscapedByte(c) + rest;
    if EscapeOf(c) == 0 {
      assert text[1..] == rest;
    } else if EscapeOf(c) == 0x75 {
      assert text[2..] == [0x30, 0x30, HexDigit(c / 16), HexDigit(c % 16)] + rest;
      assert HasHex4(text[2..]) && Hex4(text[2..]) == c;
      assert text[6..] == rest;
    } else {
      assert text[1..] == [EscapeOf(c)] + rest;
      assert text[2..] == rest;
    }
  }

  /** Any bytes at all, NUL included, come back unchanged. */
  lemma {:induction false} ReadEscaped(s: Bytes, tail: Bytes)
    ensures StringAt(Escaped(s) + [0x22] + tail) == StringText(s, tail)
    decreases |s|
  {
    hide UnitAt, EscapedByte;
    if s == [] {
      assert Escaped(s) + [0x22] + tail == [0x22] + tail;
      ReadQuote(tail);
    } else {
      var rest := Escaped(s[1..]) + [0x22] + tail;
      assert Escaped(s) + [0x22] + tail == EscapedByte(s[0]) + rest;
      ReadEscapedByte(s[0], rest);
      ReadEscaped(s[1..], tail);
      assert [s[0]] + s[1..] == s;
    }
  }

  lemma ReadQuote(tail: Bytes)
    ensures UnitAt([0x22] + tail) == Close(tail)
  {
    assert ([0x22] + tail)[1..] == tail;
  }

  lemma ReadQuoted(s: Bytes, isKey: bool, tail: Bytes)
    ensures Peek(Quoted(s) + tail) == 0x22
    ensures StringEventAt(Quoted(s) + tail, isKey) == Good([if isKey then Key(s) else StringE(s)], tail)
  {
    hide StringAt;
    assert (Quoted(s) + tail)[1..] == Escaped(s) + [0x22] + tail;
    ReadEscaped(s, tail);
  }

  // ---------------------------------------------------------------- integers

  /** Bytes that would continue a number. */
  predicate EndsNumber(tail: Bytes) {
    !IsDigit(Peek(tail)) && Peek(tail) != 0x2E && Peek(tail) != 0x65 && Peek(tail) != 0x45
  }

  lemma {:induction false} DecimalValue(n: nat)
    ensures AllDigits(Decimal(n)) && DecValue(Decimal(n)) == n
    ensures n > 0 ==> Decimal(n)[0] != 0x30
    ensures n == 0 ==> Decimal(n) == [0x30]
  {
    if n < 10 {
      NoValue();
      assert Decimal(n)[..0] == [];
    } else {
      DecimalValue(n / 10);
      assert Decimal(n)[..|Decimal(n)| - 1] == Decimal(n / 10);
    }
  }

  lemma {:induction false} RunOf(d: Bytes, tail: Bytes)
    requires AllDigits(d) && !IsDigit(Peek(tail))
    ensures DigitRun(d + tail) == |d|
  {
    if d == [] {
      assert d + tail == tail;
    } else {
      RunOf(d[1..], tail);
      assert (d + tail)[1..] == d[1..] + tail;
    }
  }

  lemma ReadDecimal(n: nat, tail: Bytes)
    requires EndsNumber(tail)
    ensures IsDigit(Peek(Decimal(n) + tail))
    ensures IntDigits(Decimal(n) + tail) == |Decimal(n)|
    ensures DecValue((Decimal(n) + tail)[..|Decimal(n)|]) == n
    ensures (Decimal(n) + tail)[|Decimal(n)|..] == tail
  {
    DecimalValue(n);
    RunOf(Decimal(n), tail);
    assert (Decimal(n) + tail)[..|Decimal(n)|] == Decimal(n);
  }

  /** Every 64-bit integer is read back exactly, as the callback its sign and range call for. */
  lemma ReadInteger(n: JsonInt, tail: Bytes)
    requires EndsNumber(tail)
    ensures NumberAt(IntegerText(n) + tail) == Scalar(NumE(KindFor(TextReader, n), n), tail)
  {
    hide DecValue, DigitRun, IntDigits, Decimal, DoubleGuard;
    var text := IntegerText(n) + tail;
    var magnitude: nat := if n < 0 then -n else n;
    ReadDecimal(magnitude, tail);
    var body := Decimal(magnitude) + tail;
    assert n < 0 ==> text == [0x2D] + body && text[1..] == body;
    assert body[|Decimal(magnitude)|..] == tail;
  }

  // ---------------------------------------------------------------- white space

  predicate AllBlank(s: Bytes) {
    forall i :: 0 <= i < |s| ==> IsBlank(s[i])
  }

  lemma {:induction false} SkipBlankRun(s: Bytes, rest: Bytes)
    requires AllBlank(s) && !IsBlank(Peek(rest))
    ensures SkipBlanks(s + rest) == rest
  {
    if s == [] {
      assert s + rest == rest;
    } else {
      SkipBlankRun(s[1..], rest);
      assert (s + rest)[1..] == s[1..] + rest;
    }
  }

  /** Generated white space is skipped under every flag, as long as no comment follows. */
  lemma SkipSpacing(f: Flags, s: Bytes, rest: Bytes)
    requires AllBlank(s) && !IsBlank(Peek(rest)) && Peek(rest) != 0x2F
    ensures Skip(f, s + rest) == Skipped(rest)
  {
    SkipBlankRun(s, rest);
  }

  lemma SkipNothing(f: Flags, rest: Bytes)
    requires !IsBlank(Peek(rest)) && Peek(rest) != 0x2F
    ensures Skip(f, rest) == Skipped(rest)
  {
  }

  lemma SpacingIsBlank(layout: Layout, depth: nat, level: Level)
    requires ValidLayout(layout)
    ensures AllBlank(Spacing(layout, depth, level))
    ensures AllBlank(Closing(layout, depth, level))
  {
  }

  // ---------------------------------------------------------------- values

  /** The bytes a value's text can start with. */
  predicate StartsValue(b: int) {
    b == 0x6E || b == 0x74 || b == 0x66 || b == 0x22 || b == 0x2D || IsDigit(b) || b == 0x5B || b == 0x7B
  }

  lemma TextStarts(layout: Layout, depth: nat, v: Value)
    requires NoDoubles(v)
    ensures Text(layout, depth, v) != [] && StartsValue(Text(layout, depth, v)[0])
  {
    if v.Integer? {
      var magnitude: nat := if v.n < 0 then -v.n else v.n;
      DecimalValue(magnitude);
    }
  }

  lemma ReadKeyword(f: Flags, word: Bytes, event: Event, tail: Bytes)
    requires (word == NULL_TEXT && event == NullE) || (word == TRUE_TEXT && event == BoolE(true))
             || (word == FALSE_TEXT && event == BoolE(false))
    ensures ValueAt(f, word + tail) == Good([event], tail)
  {
    hide NumberAt, StringEventAt;
    MatchedWord(word, tail);
    assert (word + tail)[|word|..] == tail;
  }

  lemma ReadIntegerValue(f: Flags, n: JsonInt, tail: Bytes)
    requires EndsNumber(tail)
    ensures ValueAt(f, IntegerText(n) + tail) == Good([NumE(KindFor(TextReader, n), n)], tail)
  {
    hide NumberAt, StringEventAt, KeywordAt, IntegerText, KindFor, Skip;
    ReadInteger(n, tail);
    IntegerStarts(n);
  }

  lemma IntegerStarts(n: int)
    ensures IntegerText(n) != [] && (IsDigit(IntegerText(n)[0]) || IntegerText(n)[0] == 0x2D)
  {
    var magnitude: nat := if n < 0 then -n else n;
    DecimalValue(magnitude);
  }

  lemma ReadStringValue(f: Flags, s: Bytes, tail: Bytes)
    ensures ValueAt(f, Quoted(s) + tail) == Good([StringE(s)], tail)
  {
    hide NumberAt, StringEventAt, KeywordAt, Quoted;
    ReadQuoted(s, false, tail);
  }

  lemma ReadScalar(f: Flags, layout: Layout, depth: nat, v: Value, tail: Bytes)
    requires !v.Array? && !v.Object? && !v.Double? && EndsNumber(tail)
    ensures ValueAt(f, Text(layout, depth, v) + tail) == Good(Events(TextReader, v), tail)
  {
    hide ValueAt, Quoted, IntegerText;
    match v
    case Null => ReadKeyword(f, NULL_TEXT, NullE, tail);
    case Bool(b) => ReadKeyword(f, if b then TRUE_TEXT else FALSE_TEXT, BoolE(b), tail);
    case Integer(n) => ReadIntegerValue(f, n, tail);
    case String(s) => ReadStringValue(f, s, tail);
  }

  lemma {:induction false} MatchedWord(word: Bytes, tail: Bytes)
    ensures Matched(word + tail, word) == |word|
  {
    if word != [] {
      assert (word + tail)[1..] == word[1..] + tail;
      MatchedWord(word[1..], tail);
    }
  }

  // ---------------------------------------------------------------- arrays and objects

  /** What follows the first element of an array being written. */
  function ElementsTail(layout: Layout, depth: nat, vs: seq<Value>, count: nat, tail: Bytes): Bytes
    requires 0 < depth
  {
    ElementsText(layout, depth, vs, count) + (Closing(layout, depth - 1, Level(count + |vs|, true)) + ([0x5D] + tail))
  }

  function MembersTail(layout: Layout, depth: nat, ms: seq<Member>, count: nat, tail: Bytes): Bytes
    requires 0 < depth
  {
    MembersText(layout, depth, ms, count) + (Closing(layout, depth - 1, Level(count + 2 * |ms|, false)) + ([0x7D] + tail))
  }

  /** After an element comes a comma, white space or the closing bracket. */
  lemma TailEndsNumber(first: Bytes, rest: Bytes, close: Byte)
    requires first == [] || IsBlank(first[0])
    requires close == 0x5D || close == 0x7D
    ensures EndsNumber(first + ([close] + rest))
  {
    if first == [] {
      assert first + ([close] + rest) == [close] + rest;
    }
  }

  /** A non-empty tail of elements starts with its comma, then white space, then the next element. */
  lemma ElementsTailStarts(layout: Layout, depth: nat, vs: seq<Value>, count: nat, tail: Bytes)
    requires 0 < depth && 0 < count && vs != []
    ensures ElementsTail(layout, depth, vs, count, tail)
            == [0x2C] + (Spacing(layout, depth, Level(count, true))
                         + (Text(layout, depth, vs[0]) + ElementsTail(layout, depth, vs[1..], count + 1, tail)))
  {
    hide Text, Spacing, Closing;
  }

  lemma ElementThen(f: Flags, s: Bytes, count: nat, es: seq<Event>, r: Bytes, t: Bytes)
    requires ValueAt(f, s) == Good(es, r) && Skip(f, r) == Skipped(t)
    ensures AtElement(f, s, count) == Prepend(es, AtElementEnd(f, t, count))
  {
  }

  lemma {:induction false} ReadElements(f: Flags, layout: Layout, depth: nat, vs: seq<Value>, count: nat, tail: Bytes)
    requires ValidLayout(layout) && 0 < depth && vs != []
    requires forall i :: 0 <= i < |vs| ==> NoDoubles(vs[i])
    ensures AtElement(f, Text(layout, depth, vs[0]) + ElementsTail(layout, depth, vs[1..], count + 1, tail), count)
            == Good(ElementEvents(TextReader, vs) + [EndArray(count + |vs|)], tail)
    decreases vs, 0
  {
    hide ValueAt, AtElement, AtElementEnd, Skip, Text, ElementsTail, Events, NoDoubles;
    var rest := vs[1..];
    var after := ElementsTail(layout, depth, rest, count + 1, tail);
    var text := Text(layout, depth, vs[0]) + after;
    var es := Events(TextReader, vs[0]);
    if rest == [] {
      LastElement(f, layout, depth, count, tail);
      ReadValue(f, layout, depth, vs[0], after);
      ElementThen(f, text, count, es, after, [0x5D] + tail);
      assert ElementEvents(TextReader, vs) == es + [] == es;
    } else {
      ReadElements(f, layout, depth, rest, count + 1, tail);
      NextElement(f, layout, depth, rest, count, tail);
      ReadValue(f, layout, depth, vs[0], after);
      ElementThen(f, text, count, es, after, after);
      assert es + (ElementEvents(TextReader, rest) + [EndArray(count + |vs|)])
             == es + ElementEvents(TextReader, rest) + [EndArray(count + |vs|)];
    }
  }

  /** Behind the last element the bracket closes. */
  lemma LastElement(f: Flags, layout: Layout, depth: nat, count: nat, tail: Bytes)
    requires ValidLayout(layout) && 0 < depth
    ensures var after := ElementsTail(layout, depth, [], count + 1, tail);
            && EndsNumber(after)
            && Skip(f, after) == Skipped([0x5D] + tail)
            && AtElementEnd(f, [0x5D] + tail, count) == Good([EndArray(count + 1)], tail)
  {
    var closing := Closing(layout, depth - 1, Level(count + 1, true));
    SpacingIsBlank(layout, depth - 1, Level(count + 1, true));
    hide Closing, Skip;
    var after := ElementsTail(layout, depth, [], count + 1, tail);
    assert after == closing + ([0x5D] + tail);
    TailEndsNumber(closing, tail, 0x5D);
    SkipSpacing(f, closing, [0x5D] + tail);
    assert ([0x5D] + tail)[1..] == tail;
  }

  /** Behind any other element come the comma and the next element. */
  lemma NextElement(f: Flags, layout: Layout, depth: nat, rest: seq<Value>, count: nat, tail: Bytes)
    requires ValidLayout(layout) && 0 < depth && rest != [] && NoDoubles(rest[0])
    ensures var after := ElementsTail(layout, depth, rest, count + 1, tail);
            var next := Text(layout, depth, rest[0]) + ElementsTail(layout, depth, rest[1..], count + 2, tail);
            && EndsNumber(after)
            && Skip(f, after) == Skipped(after)
            && AtElementEnd(f, after, count) == AtElement(f, next, count + 1)
  {
    var after := ElementsTail(layout, depth, rest, count + 1, tail);
    var next := Text(layout, depth, rest[0]) + ElementsTail(layout, depth, rest[1..], count + 2, tail);
    var spacing := Spacing(layout, depth, Level(count + 1, true));
    ElementsTailStarts(layout, depth, rest, count + 1, tail);
    SpacingIsBlank(layout, depth, Level(count + 1, true));
    TextStarts(layout, depth, rest[0]);
    hide ElementsTail, Text, Spacing, Skip, AtElement;
    assert after[1..] == spacing + next && Peek(after) == 0x2C;
    SkipNothing(f, after);
    SkipSpacing(f, spacing, next);
  }

  /** Reading a tree's text, in either layout and under any flags, yields the tree's events and stops behind it. */
  lemma {:induction false} ReadValue(f: Flags, layout: Layout, depth: nat, v: Value, tail: Bytes)
    requires ValidLayout(layout) && NoDoubles(v) && EndsNumber(tail)
    ensures ValueAt(f, Text(layout, depth, v) + tail) == Good(Events(TextReader, v), tail)
    decreases v
  {
    if v.Array? {
      ReadArray(f, layout, depth, v.elements, tail);
    } else if v.Object? {
      ReadObject(f, layout, depth, v.members, tail);
    } else {
      ReadScalar(f, layout, depth, v, tail);
    }
  }

  lemma BracketThen(f: Flags, inside: Bytes, t: Bytes)
    requires Skip(f, inside) == Skipped(t)
    ensures ValueAt(f, [0x5B] + inside) == Prepend([StartArray], AtArrayInitial(f, t))
    ensures ValueAt(f, [0x7B] + inside) == Prepend([StartObject], AtObjectInitial(f, t))
  {
    assert ([0x5B] + inside)[1..] == inside && ([0x7B] + inside)[1..] == inside;
  }

  lemma {:induction false} ReadArray(f: Flags, layout: Layout, depth: nat, vs: seq<Value>, tail: Bytes)
    requires ValidLayout(layout) && forall i :: 0 <= i < |vs| ==> NoDoubles(vs[i])
    ensures ValueAt(f, Text(layout, depth, Array(vs)) + tail) == Good(Events(TextReader, Array(vs)), tail)
    decreases vs, 1
  {
    hide Skip, Text, ValueAt, AtElement, NoDoubles, ElementsTail, AtArrayInitial;
    var inside := ElementsTail(layout, depth + 1, vs, 0, tail);
    ArrayText(layout, depth, vs, tail);
    if vs == [] {
      EmptyTail(f, layout, depth + 1, tail);
      SkipNothing(f, inside);
      BracketThen(f, inside, inside);
    } else {
      var next := Text(layout, depth + 1, vs[0]) + ElementsTail(layout, depth + 1, vs[1..], 1, tail);
      FirstElement(f, layout, depth + 1, vs, tail);
      ReadElements(f, layout, depth + 1, vs, 0, tail);
      BracketThen(f, inside, next);
      var es := ElementEvents(TextReader, vs);
      assert [StartArray] + (es + [EndArray(|vs|)]) == [StartArray] + es + [EndArray(|vs|)];
    }
  }

  lemma EmptyTail(f: Flags, layout: Layout, depth: nat, tail: Bytes)
    requires 0 < depth
    ensures ElementsTail(layout, depth, [], 0, tail) == [0x5D] + tail
    ensures AtArrayInitial(f, [0x5D] + tail) == Good([EndArray(0)], tail)
  {
    assert ([0x5D] + tail)[1..] == tail;
  }

  lemma ArrayText(layout: Layout, depth: nat, vs: seq<Value>, tail: Bytes)
    ensures Text(layout, depth, Array(vs)) + tail == [0x5B] + ElementsTail(layout, depth + 1, vs, 0, tail)
  {
    hide Closing, ElementsText;
  }

  lemma FirstSpacing(layout: Layout, depth: nat, vs: seq<Value>, tail: Bytes)
    requires 0 < depth && vs != []
    ensures ElementsTail(layout, depth, vs, 0, tail)
         == Spacing(layout, depth, Level(0, true))
            + (Text(layout, depth, vs[0]) + ElementsTail(layout, depth, vs[1..], 1, tail))
  {
    hide Text, Spacing, Closing;
    assert [] + Spacing(layout, depth, Level(0, true)) == Spacing(layout, depth, Level(0, true));
  }

  lemma FirstElement(f: Flags, layout: Layout, depth: nat, vs: seq<Value>, tail: Bytes)
    requires ValidLayout(layout) && 0 < depth && vs != [] && NoDoubles(vs[0])
    ensures var next := Text(layout, depth, vs[0]) + ElementsTail(layout, depth, vs[1..], 1, tail);
            && Skip(f, ElementsTail(layout, depth, vs, 0, tail)) == Skipped(next)
            && AtArrayInitial(f, next) == AtElement(f, next, 0)
  {
    hide ElementsTail, Text, Spacing, Skip, AtElement, NoDoubles;
    var next := Text(layout, depth, vs[0]) + ElementsTail(layout, depth, vs[1..], 1, tail);
    var spacing := Spacing(layout, depth, Level(0, true));
    SpacingIsBlank(layout, depth, Level(0, true));
    TextStarts(layout, depth, vs[0]);
    FirstSpacing(layout, depth, vs, tail);
    SkipSpacing(f, spacing, next);
  }

  // Objects. A level counts names and values, so `2 * k` entries precede the member after `k` others.

  /** What follows the name of a member. */
  function MemberRest(layout: Layout, depth: nat, m: Member, rest: seq<Member>, k: nat, tail: Bytes): Bytes
    requires 0 < depth
  {
    [0x3A] + (Spacing(layout, depth, Level(2 * k + 1, false))
              + (Text(layout, depth, m.value) + MembersTail(layout, depth, rest, 2 * k + 2, tail)))
  }

  /** A non-empty tail of members: comma unless it is the first, white space, name, and the rest of the member. */
  lemma MembersTailStarts(layout: Layout, depth: nat, ms: seq<Member>, k: nat, tail: Bytes)
    requires 0 < depth && ms != []
    ensures MembersTail(layout, depth, ms, 2 * k, tail)
            == (if k == 0 then [] else [0x2C])
               + (Spacing(layout, depth, Level(2 * k, false))
                  + (Quoted(ms[0].name) + MemberRest(layout, depth, ms[0], ms[1..], k, tail)))
  {
    hide Text, Spacing, Closing, Quoted;
    var lead := if k == 0 then [] else [0x2C];
    var a, b := Spacing(layout, depth, Level(2 * k, false)), Spacing(layout, depth, Level(2 * k + 1, false));
    var name, value := Quoted(ms[0].name), Text(layout, depth, ms[0].value);
    var more := MembersText(layout, depth, ms[1..], 2 * k + 2);
    var close := Closing(layout, depth - 1, Level(2 * k + 2 * |ms|, false)) + ([0x7D] + tail);
    assert MembersText(layout, depth, ms, 2 * k) == lead + a + name + ([0x3A] + b) + value + more;
    Regroup(lead, a, name, [0x3A], b, value, more, close);
  }

  lemma Regroup(lead: Bytes, a: Bytes, name: Bytes, colon: Bytes, b: Bytes, value: Bytes, more: Bytes, close: Bytes)
    ensures lead + a + name + (colon + b) + value + more + close
            == lead + (a + (name + (colon + (b + (value + (more + close))))))
  {
  }

  /** The name and the colon. */
  lemma ReadName(f: Flags, layout: Layout, depth: nat, m: Member, rest: seq<Member>, k: nat, tail: Bytes)
    requires ValidLayout(layout) && 0 < depth && NoDoubles(m.value)
    ensures AtKey(f, Quoted(m.name) + MemberRest(layout, depth, m, rest, k, tail), k)
            == Prepend([Key(m.name)],
                       AtMemberValue(f, Text(layout, depth, m.value) + MembersTail(layout, depth, rest, 2 * k + 2, tail), k))
  {
    var after := MemberRest(layout, depth, m, rest, k, tail);
    var spacing := Spacing(layout, depth, Level(2 * k + 1, false));
    var value := Text(layout, depth, m.value) + MembersTail(layout, depth, rest, 2 * k + 2, tail);
    assert after[1..] == spacing + value;
    ReadQuoted(m.name, true, after);
    SpacingIsBlank(layout, depth, Level(2 * k + 1, false));
    TextStarts(layout, depth, m.value);
    hide StringEventAt, Quoted, Text, MembersTail, Spacing, Skip, AtMemberValue;
    SkipNothing(f, after);
    SkipSpacing(f, spacing, value);
    assert AtKeyEnd(f, after, k) == AtMemberValue(f, value, k);
  }

  lemma MemberThen(f: Flags, s: Bytes, count: nat, es: seq<Event>, r: Bytes, t: Bytes)
    requires ValueAt(f, s) == Good(es, r) && Skip(f, r) == Skipped(t)
    ensures AtMemberValue(f, s, count) == Prepend(es, AtMemberEnd(f, t, count))
  {
  }

  lemma {:induction false} ReadMembers(f: Flags, layout: Layout, depth: nat, ms: seq<Member>, k: nat, tail: Bytes)
    requires ValidLayout(layout) && 0 < depth && ms != []
    requires forall i :: 0 <= i < |ms| ==> NoDoubles(ms[i].value)
    ensures AtKey(f, Quoted(ms[0].name) + MemberRest(layout, depth, ms[0], ms[1..], k, tail), k)
            == Good(MemberEvents(TextReader, ms) + [EndObject(k + |ms|)], tail)
    decreases ms, 0
  {
    hide ValueAt, AtKey, AtMemberValue, AtMemberEnd, Skip, Text, MembersTail, Quoted, MemberRest, Events, NoDoubles;
    var rest := ms[1..];
    var after := MembersTail(layout, depth, rest, 2 * k + 2, tail);
    var text := Text(layout, depth, ms[0].value) + after;
    var key, value, close := [Key(ms[0].name)], Events(TextReader, ms[0].value), [EndObject(k + |ms|)];
    ReadName(f, layout, depth, ms[0], rest, k, tail);
    if rest == [] {
      LastMember(f, layout, depth, k, tail);
      ReadValue(f, layout, depth, ms[0].value, after);
      MemberThen(f, text, k, value, after, [0x7D] + tail);
      assert MemberEvents(TextReader, ms) == key + value + [] == key + value;
      assert key + (value + close) == key + value + close;
    } else {
      ReadMembers(f, layout, depth, rest, k + 1, tail);
      NextMember(f, layout, depth, rest, k, tail);
      ReadValue(f, layout, depth, ms[0].value, after);
      MemberThen(f, text, k, value, after, after);
      var more := MemberEvents(TextReader, rest);
      assert key + (value + (more + close)) == key + value + more + close;
    }
  }

  lemma LastMember(f: Flags, layout: Layout, depth: nat, k: nat, tail: Bytes)
    requires ValidLayout(layout) && 0 < depth
    ensures var after := MembersTail(layout, depth, [], 2 * k + 2, tail);
            && EndsNumber(after)
            && Skip(f, after) == Skipped([0x7D] + tail)
            && AtMemberEnd(f, [0x7D] + tail, k) == Good([EndObject(k + 1)], tail)
  {
    var closing := Closing(layout, depth - 1, Level(2 * k + 2, false));
    SpacingIsBlank(layout, depth - 1, Level(2 * k + 2, false));
    hide Closing, Skip;
    var after := MembersTail(layout, depth, [], 2 * k + 2, tail);
    assert after == closing + ([0x7D] + tail);
    TailEndsNumber(closing, tail, 0x7D);
    SkipSpacing(f, closing, [0x7D] + tail);
    assert ([0x7D] + tail)[1..] == tail;
  }

  lemma NextMember(f: Flags, layout: Layout, depth: nat, rest: seq<Member>, k: nat, tail: Bytes)
    requires ValidLayout(layout) && 0 < depth && rest != []
    ensures var after := MembersTail(layout, depth, rest, 2 * k + 2, tail);
            var next := Quoted(rest[0].name) + MemberRest(layout, depth, rest[0], rest[1..], k + 1, tail);
            && EndsNumber(after)
            && Skip(f, after) == Skipped(after)
            && AtMemberEnd(f, after, k) == AtKey(f, next, k + 1)
  {
    var after := MembersTail(layout, depth, rest, 2 * k + 2, tail);
    var next := Quoted(rest[0].name) + MemberRest(layout, depth, rest[0], rest[1..], k + 1, tail);
    var spacing := Spacing(layout, depth, Level(2 * k + 2, false));
    SpacingIsBlank(layout, depth, Level(2 * k + 2, false));
    CommaFirst(layout, depth, rest, k, tail);
    hide MembersTail, MemberRest, Quoted, Spacing, Skip, AtKey;
    SkipNothing(f, after);
    SkipSpacing(f, spacing, next);
  }

  lemma CommaFirst(layout: Layout, depth: nat, rest: seq<Member>, k: nat, tail: Bytes)
    requires 0 < depth && rest != []
    ensures var after := MembersTail(layout, depth, rest, 2 * k + 2, tail);
            var next := Quoted(rest[0].name) + MemberRest(layout, depth, rest[0], rest[1..], k + 1, tail);
            && Peek(next) == 0x22 && Peek(after) == 0x2C
            && after[1..] == Spacing(layout, depth, Level(2 * k + 2, false)) + next
  {
    hide Spacing, MemberRest, MembersTail, Escaped;
    MembersTailStarts(layout, depth, rest, k + 1, tail);
    var next := Quoted(rest[0].name) + MemberRest(layout, depth, rest[0], rest[1..], k + 1, tail);
    AfterComma(Spacing(layout, depth, Level(2 * k + 2, false)) + next);
  }

  lemma AfterComma(s: Bytes)
    ensures Peek([0x2C] + s) == 0x2C && ([0x2C] + s)[1..] == s
  {
  }

  lemma {:induction false} ReadObject(f: Flags, layout: Layout, depth: nat, ms: seq<Member>, tail: Bytes)
    requires ValidLayout(layout) && forall i :: 0 <= i < |ms| ==> NoDoubles(ms[i].value)
    ensures ValueAt(f, Text(layout, depth, Object(ms)) + tail) == Good(Events(TextReader, Object(ms)), tail)
    decreases ms, 1
  {
    hide Skip, Text, ValueAt, AtKey, NoDoubles;
    var inside := MembersTail(layout, depth + 1, ms, 0, tail);
    ObjectText(layout, depth, ms, tail);
    if ms == [] {
      assert inside == [0x7D] + tail;
      SkipNothing(f, inside);
      BracketThen(f, inside, inside);
      assert inside[1..] == tail;
      assert AtObjectInitial(f, inside) == Good([EndObject(0)], tail);
    } else {
      hide MembersTail, AtObjectInitial, MemberRest, Quoted;
      var next := Quoted(ms[0].name) + MemberRest(layout, depth + 1, ms[0], ms[1..], 0, tail);
      FirstMember(f, layout, depth + 1, ms, tail);
      ReadMembers(f, layout, depth + 1, ms, 0, tail);
      BracketThen(f, inside, next);
      var es := MemberEvents(TextReader, ms);
      assert [StartObject] + (es + [EndObject(|ms|)]) == [StartObject] + es + [EndObject(|ms|)];
    }
  }

  lemma ObjectText(layout: Layout, depth: nat, ms: seq<Member>, tail: Bytes)
    ensures Text(layout, depth, Object(ms)) + tail == [0x7B] + MembersTail(layout, depth + 1, ms, 0, tail)
  {
    hide Closing, MembersText;
  }

  lemma FirstMember(f: Flags, layout: Layout, depth: nat, ms: seq<Member>, tail: Bytes)
    requires ValidLayout(layout) && 0 < depth && ms != []
    ensures var next := Quoted(ms[0].name) + MemberRest(layout, depth, ms[0], ms[1..], 0, tail);
            && Skip(f, MembersTail(layout, depth, ms, 0, tail)) == Skipped(next)
            && AtObjectInitial(f, next) == AtKey(f, next, 0)
  {
    var next := Quoted(ms[0].name) + MemberRest(layout, depth, ms[0], ms[1..], 0, tail);
    var spacing := Spacing(layout, depth, Level(0, false));
    SpacingIsBlank(layout, depth, Level(0, false));
    MembersTailStarts(layout, depth, ms, 0, tail);
    assert Peek(next) == 0x22;
    hide MembersTail, MemberRest, Quoted, Spacing, Skip, AtKey;
    assert [] + (spacing + next) == spacing + next;
    SkipSpacing(f, spacing, next);
  }

  // ---------------------------------------------------------------- documents

  /** A complete document, as either writer leaves it. */
  lemma WrittenDocument(layout: Layout, v: Value)
    ensures WriteAll(layout, State([], [], false), Events(Visitor, v)) == Some(State(Text(layout, 0, v), [], true))
  {
    WriteValue(layout, v, State([], [], false));
    assert [] + Text(layout, 0, v) == Text(layout, 0, v);
  }

  lemma ReadDocument(f: Flags, layout: Layout, v: Value)
    requires ValidLayout(layout) && NoDoubles(v)
    ensures DocumentAt(f, Text(layout, 0, v)) == Good(Events(TextReader, v), [])
    ensures !StartsStray(f, Text(layout, 0, v))
  {
    hide Skip, Text, ValueAt, Events, NoDoubles;
    var text := Text(layout, 0, v);
    assert text + [] == text;
    TextStarts(layout, 0, v);
    SkipNothing(f, text);
    ReadValue(f, layout, 0, v, []);
    SkipNothing(f, []);
    assert Events(TextReader, v) + [] == Events(TextReader, v);
  }

  /**
    The JSON round trip: writing any tree without doubles, compactly or prettily, and parsing the text with
    either parser under any flags builds the same tree.
   */
  lemma JsonRoundTrip(f: Flags, layout: Layout, v: Value)
    requires ValidLayout(layout) && NoDoubles(v)
    ensures var written := WriteAll(layout, State([], [], false), Events(Visitor, v));
            && written.Some? && written.value.levels == [] && written.value.hasRoot
            && DocumentAt(f, written.value.out).Good?
            && IterativeAt(f, written.value.out) == DocumentAt(f, written.value.out)
            && D.Build([], DocumentAt(f, written.value.out).events) == Some([v])
  {
    hide WriteAll, Text, DocumentAt, StartsStray, D.Build;
    WrittenDocument(layout, v);
    ReadDocument(f, layout, v);
    D.BuildValue(TextReader, v, []);
    assert [] + [v] == [v];
  }
}
