/**
  What the writers' texts look like: the compact text without any white space, the pretty text line by line, and the
  escapes of a string byte by byte.
 */
module WriterLayout {
  import opened Json
  import opened Writer

  // ---------------------------------------------------------------- the compact text

  /** The elements or members one after the other, with commas between them and nothing else. */
  function Listed(parts: seq<Bytes>): Bytes {
    if parts == [] then []
    else if |parts| == 1 then parts[0]
    else parts[0] + [0x2C] + Listed(parts[1..])
  }

  function CompactText(v: Value): Bytes
    decreases v
  {
    match v
    case Null => [0x6E, 0x75, 0x6C, 0x6C]
    case Bool(b) => if b then [0x74, 0x72, 0x75, 0x65] else [0x66, 0x61, 0x6C, 0x73, 0x65]
    case Integer(n) => if n < 0 then [0x2D] + Decimal(-n) else Decimal(n)
    case Double(lexeme) => lexeme
    case String(s) => [0x22] + Escaped(s) + [0x22]
    case Array(elements) =>
      [0x5B] + Listed(seq(|elements|, i requires 0 <= i < |elements| => CompactText(elements[i]))) + [0x5D]
    case Object(members) =>
      [0x7B] + Listed(seq(|members|, i requires 0 <= i < |members| =>
                        [0x22] + Escaped(members[i].name) + [0x22, 0x3A] + CompactText(members[i].value))) + [0x7D]
  }

  lemma ListedStep(parts: seq<Bytes>)
    requires |parts| > 1
    ensures Listed(parts) == parts[0] + ([0x2C] + Listed(parts[1..]))
  {
  }

  lemma {:induction false} CompactElements(depth: nat, vs: seq<Value>, count: nat)
    ensures ElementsText(Compact, depth, vs, count)
         == (if vs != [] && count > 0 then [0x2C] else [])
            + Listed(seq(|vs|, i requires 0 <= i < |vs| => CompactText(vs[i])))
    decreases vs, 1
  {
    hide Text, CompactText, ElementsText, Listed;
    var parts := seq(|vs|, i requires 0 <= i < |vs| => CompactText(vs[i]));
    ElementsStep(Compact, depth, vs, count);
    NothingListed();
    if vs == [] {
      assert parts == [];
    } else {
      var rest := vs[1..];
      var others := seq(|rest|, i requires 0 <= i < |rest| => CompactText(rest[i]));
      assert parts[1..] == others;
      CompactIs(depth, vs[0]);
      CompactElements(depth, rest, count + 1);
      CompactGap(depth, count);
      ListedText(parts);
      Listing(if count > 0 then [0x2C] else [], parts[0], others);
    }
  }

  lemma NothingListed()
    ensures Listed([]) == []
  {
  }

  lemma ListedText(parts: seq<Bytes>)
    requires parts != []
    ensures Listed(parts) == parts[0] + if |parts| == 1 then [] else [0x2C] + Listed(parts[1..])
  {
    if |parts| > 1 {
      ListedStep(parts);
    } else {
      assert parts[0] + [] == parts[0];
    }
  }

  lemma Listing(separator: Bytes, first: Bytes, others: seq<Bytes>)
    ensures separator + first + ((if others != [] then [0x2C] else []) + Listed(others))
         == separator + (first + if others == [] then [] else [0x2C] + Listed(others))
  {
    if others == [] {
      assert separator + first + ([] + []) == separator + (first + []);
    }
  }

  lemma CompactGap(depth: nat, count: nat)
    ensures Gap(Compact, depth, Level(count, true)) == if count > 0 then [0x2C] else []
  {
  }

  lemma ElementsStep(layout: Layout, depth: nat, vs: seq<Value>, count: nat)
    ensures ElementsText(layout, depth, vs, count)
         == if vs == [] then []
            else Gap(layout, depth, Level(count, true)) + Text(layout, depth, vs[0])
                 + ElementsText(layout, depth, vs[1..], count + 1)
  {
    hide Text, Gap;
  }

  lemma MembersStep(layout: Layout, depth: nat, ms: seq<Member>, count: nat)
    ensures MembersText(layout, depth, ms, count)
         == if ms == [] then [] else MemberText(layout, depth, ms[0], count) + MembersText(layout, depth, ms[1..], count + 2)
  {
    hide MemberText;
  }

  lemma Grouped(a: Bytes, b: Bytes, c: Bytes, d: Bytes)
    ensures (a + b) + c + d == a + (b + c + d)
  {
  }

  lemma CompactGaps(depth: nat, count: nat)
    ensures Gap(Compact, depth, Level(2 * count, false)) == if count > 0 then [0x2C] else []
    ensures Gap(Compact, depth, Level(2 * count + 1, false)) == [0x3A]
  {
  }

  lemma OneMember(depth: nat, m: Member, count: nat)
    requires Text(Compact, depth, m.value) == CompactText(m.value)
    ensures MemberText(Compact, depth, m, 2 * count)
         == (if count > 0 then [0x2C] else []) + ([0x22] + Escaped(m.name) + [0x22, 0x3A] + CompactText(m.value))
  {
    hide Text, CompactText, Escaped, Gap;
    CompactGaps(depth, count);
  }

  lemma {:induction false} CompactMembers(depth: nat, ms: seq<Member>, count: nat)
    ensures MembersText(Compact, depth, ms, 2 * count)
         == (if ms != [] && count > 0 then [0x2C] else [])
            + Listed(seq(|ms|, i requires 0 <= i < |ms| =>
                       [0x22] + Escaped(ms[i].name) + [0x22, 0x3A] + CompactText(ms[i].value)))
    decreases ms, 1
  {
    hide Text, CompactText, Escaped, Gap, MemberText, MembersText, Listed;
    var parts := seq(|ms|, i requires 0 <= i < |ms| =>
                       [0x22] + Escaped(ms[i].name) + [0x22, 0x3A] + CompactText(ms[i].value));
    MembersStep(Compact, depth, ms, 2 * count);
    NothingListed();
    if ms == [] {
      assert parts == [];
    } else {
      var rest := ms[1..];
      var others := seq(|rest|, i requires 0 <= i < |rest| =>
                          [0x22] + Escaped(rest[i].name) + [0x22, 0x3A] + CompactText(rest[i].value));
      assert parts[1..] == others;
      CompactIs(depth, ms[0].value);
      CompactMembers(depth, rest, count + 1);
      OneMember(depth, ms[0], count);
      ListedText(parts);
      Listing(if count > 0 then [0x2C] else [], parts[0], others);
    }
  }

  /** The compact writer's text, at whatever depth. */
  lemma {:induction false} CompactIs(depth: nat, v: Value)
    ensures Text(Compact, depth, v) == CompactText(v)
    decreases v, 2
  {
    hide ElementsText, MembersText, Escaped, Decimal;
    match v
    case Array(elements) =>
      CompactElements(depth + 1, elements, 0);
      var body := Listed(seq(|elements|, i requires 0 <= i < |elements| => CompactText(elements[i])));
      assert [] + body == body && [0x5B] + body + [] + [0x5D] == [0x5B] + body + [0x5D];
    case Object(members) =>
      CompactMembers(depth + 1, members, 0);
      var body := Listed(seq(|members|, i requires 0 <= i < |members| =>
                               [0x22] + Escaped(members[i].name) + [0x22, 0x3A] + CompactText(members[i].value)));
      assert [] + body == body && [0x7B] + body + [] + [0x7D] == [0x7B] + body + [0x7D];
    case _ =>
  }

  // ---------------------------------------------------------------- the pretty text, line by line

  /** A line, by how many units it is indented. */
  datatype Line = Line(depth: nat, text: Bytes)

  type Lines = ls: seq<Line> | ls != [] witness [Line(0, [])]

  /** More text at the end of the last line. */
  function Ended(a: Lines, more: Bytes): Lines {
    a[|a| - 1 := a[|a| - 1].(text := a[|a| - 1].text + more)]
  }

  /** More text in front of the first line. */
  function Headed(more: Bytes, a: Lines): Lines {
    a[0 := a[0].(text := more + a[0].text)]
  }

  /** The first line of `b` goes on where the last of `a` ends. */
  function Glued(a: Lines, b: Lines): Lines {
    Ended(a, b[0].text) + b[1..]
  }

  /** Each part starts a line of its own, all but the last ended by a comma. */
  function Stacked(parts: seq<Lines>): seq<Line> {
    if parts == [] then []
    else if |parts| == 1 then parts[0]
    else Ended(parts[0], [0x2C]) + Stacked(parts[1..])
  }

  /** The parts follow each other on the same line, with a comma and a space between them. */
  function Strung(parts: seq<Lines>): Lines
    requires parts != []
  {
    if |parts| == 1 then parts[0] else Glued(Ended(parts[0], [0x2C, 0x20]), Strung(parts[1..]))
  }

  /**
    The lines of a value at some depth: elements and members one unit deeper, each on lines of its own, the closing
    bracket back at the depth of the value; in single-line mode the elements of an array stay on its line.
   */
  function LinesOf(single: bool, depth: nat, v: Value): Lines
    decreases v
  {
    match v
    case Array(elements) =>
      var parts := seq(|elements|, i requires 0 <= i < |elements| => LinesOf(single, depth + 1, elements[i]));
      if elements == [] then [Line(depth, [0x5B, 0x5D])]
      else if single then Ended(Glued([Line(depth, [0x5B])], Strung(parts)), [0x5D])
      else [Line(depth, [0x5B])] + Stacked(parts) + [Line(depth, [0x5D])]
    case Object(members) =>
      var parts := seq(|members|, i requires 0 <= i < |members| =>
                         Headed([0x22] + Escaped(members[i].name) + [0x22, 0x3A, 0x20],
                                LinesOf(single, depth + 1, members[i].value)));
      if members == [] then [Line(depth, [0x7B, 0x7D])]
      else [Line(depth, [0x7B])] + Stacked(parts) + [Line(depth, [0x7D])]
    case _ => [Line(depth, CompactText(v))]
  }

  function Indentation(ch: Byte, count: nat): Bytes {
    if count == 0 then [] else [ch] + Indentation(ch, count - 1)
  }

  /** Lines that follow others: a line feed, `unit` times the depth of indentation, and the text. */
  function Following(ch: Byte, unit: nat, ls: seq<Line>): Bytes {
    if ls == [] then []
    else [0x0A] + Indentation(ch, ls[0].depth * unit) + ls[0].text + Following(ch, unit, ls[1..])
  }

  /** The first line starts where the writer stands. */
  function Page(ch: Byte, unit: nat, ls: Lines): Bytes {
    ls[0].text + Following(ch, unit, ls[1..])
  }

  // ---------------------------------------------------------------- lines and text

  lemma {:induction false} FollowingJoin(ch: Byte, unit: nat, a: seq<Line>, b: seq<Line>)
    ensures Following(ch, unit, a + b) == Following(ch, unit, a) + Following(ch, unit, b)
    decreases a
  {
    if a == [] {
      assert a + b == b;
    } else {
      assert (a + b)[1..] == a[1..] + b && (a + b)[0] == a[0];
      FollowingJoin(ch, unit, a[1..], b);
    }
  }

  /** A whole value that follows on a line of its own. */
  lemma FollowingPage(ch: Byte, unit: nat, a: Lines)
    ensures Following(ch, unit, a) == [0x0A] + Indentation(ch, a[0].depth * unit) + Page(ch, unit, a)
  {
  }

  lemma {:induction false} FollowingEnded(ch: Byte, unit: nat, a: Lines, more: Bytes)
    ensures Following(ch, unit, Ended(a, more)) == Following(ch, unit, a) + more
    decreases |a|
  {
    var last := a[|a| - 1];
    assert a == a[..|a| - 1] + [last] && Ended(a, more) == a[..|a| - 1] + [last.(text := last.text + more)];
    FollowingJoin(ch, unit, a[..|a| - 1], [last]);
    FollowingJoin(ch, unit, a[..|a| - 1], [last.(text := last.text + more)]);
    OneLine(ch, unit, last);
    OneLine(ch, unit, last.(text := last.text + more));
  }

  lemma OneLine(ch: Byte, unit: nat, l: Line)
    ensures Following(ch, unit, [l]) == [0x0A] + Indentation(ch, l.depth * unit) + l.text
  {
    assert [l][1..] == [];
    assert Following(ch, unit, []) == [];
  }

  lemma PageEnded(ch: Byte, unit: nat, a: Lines, more: Bytes)
    ensures Page(ch, unit, Ended(a, more)) == Page(ch, unit, a) + more
  {
    if |a| > 1 {
      assert Ended(a, more)[1..] == Ended(a[1..], more);
      FollowingEnded(ch, unit, a[1..], more);
    } else {
      assert Ended(a, more)[1..] == a[1..] == [];
    }
  }

  lemma PageHeaded(ch: Byte, unit: nat, more: Bytes, a: Lines)
    ensures Page(ch, unit, Headed(more, a)) == more + Page(ch, unit, a)
  {
    assert Headed(more, a)[1..] == a[1..];
  }

  lemma GluedSplit(a: Lines, b: Lines)
    ensures var e := Ended(a, b[0].text); Glued(a, b)[0] == e[0] && Glued(a, b)[1..] == e[1..] + b[1..]
  {
  }

  lemma PageGlued(ch: Byte, unit: nat, a: Lines, b: Lines)
    ensures Page(ch, unit, Glued(a, b)) == Page(ch, unit, a) + Page(ch, unit, b)
  {
    hide Following, Glued, Ended;
    var e := Ended(a, b[0].text);
    GluedSplit(a, b);
    FollowingJoin(ch, unit, e[1..], b[1..]);
    PageEnded(ch, unit, a, b[0].text);
    Assoc(e[0].text, Following(ch, unit, e[1..]), Following(ch, unit, b[1..]));
    Assoc(Page(ch, unit, a), b[0].text, Following(ch, unit, b[1..]));
  }

  lemma Assoc(a: Bytes, b: Bytes, c: Bytes)
    ensures a + b + c == a + (b + c)
  {
  }

  lemma {:induction false} IndentationIs(ch: Byte, count: nat)
    ensures Indentation(ch, count) == seq(count, _ => ch)
    decreases count
  {
    if count > 0 {
      IndentationIs(ch, count - 1);
    }
  }

  lemma FirstDepth(single: bool, depth: nat, v: Value)
    ensures LinesOf(single, depth, v)[0].depth == depth
  {
    hide CompactText, Stacked, Strung, Escaped;
  }

  lemma StackedStep(parts: seq<Lines>)
    requires |parts| > 1
    ensures Stacked(parts) == Ended(parts[0], [0x2C]) + Stacked(parts[1..])
  {
  }

  lemma {:induction false} StackedText(ch: Byte, unit: nat, parts: seq<Lines>)
    requires parts != []
    ensures Following(ch, unit, Stacked(parts))
         == [0x0A] + Indentation(ch, parts[0][0].depth * unit) + Page(ch, unit, parts[0])
            + if |parts| == 1 then [] else [0x2C] + Following(ch, unit, Stacked(parts[1..]))
  {
    hide Page, Following, Indentation, Ended;
    FollowingPage(ch, unit, parts[0]);
    if |parts| == 1 {
      assert Stacked(parts) == parts[0];
    } else {
      StackedStep(parts);
      FollowingJoin(ch, unit, Ended(parts[0], [0x2C]), Stacked(parts[1..]));
      FollowingEnded(ch, unit, parts[0], [0x2C]);
    }
  }

  lemma StrungText(ch: Byte, unit: nat, parts: seq<Lines>)
    requires parts != []
    ensures Page(ch, unit, Strung(parts))
         == Page(ch, unit, parts[0])
            + if |parts| == 1 then [] else [0x2C, 0x20] + Page(ch, unit, Strung(parts[1..]))
  {
    hide Page, Glued, Ended;
    if |parts| > 1 {
      PageGlued(ch, unit, Ended(parts[0], [0x2C, 0x20]), Strung(parts[1..]));
      PageEnded(ch, unit, parts[0], [0x2C, 0x20]);
    }
  }

  lemma Separators(count: nat)
    ensures Separator(Level(count, true)) == if count > 0 then [0x2C] else []
    ensures Separator(Level(2 * count, false)) == if count > 0 then [0x2C] else []
    ensures Separator(Level(2 * count + 1, false)) == [0x3A]
  {
  }

  lemma Spacings(ch: Byte, unit: nat, single: bool, depth: nat, count: nat)
    ensures var layout := Pretty(ch, unit, single);
            && Spacing(layout, depth, Level(count, true))
               == (if single then (if count > 0 then [0x20] else []) else [0x0A] + Indentation(ch, depth * unit))
            && Spacing(layout, depth, Level(2 * count, false)) == [0x0A] + Indentation(ch, depth * unit)
            && Spacing(layout, depth, Level(2 * count + 1, false)) == [0x20]
  {
    IndentationIs(ch, depth * unit);
    hide Indentation;
  }

  lemma Closings(ch: Byte, unit: nat, single: bool, depth: nat, count: nat)
    ensures var layout := Pretty(ch, unit, single);
            && Closing(layout, depth, Level(count, true))
               == (if count == 0 || single then [] else [0x0A] + Indentation(ch, depth * unit))
            && Closing(layout, depth, Level(2 * count, false))
               == if count == 0 then [] else [0x0A] + Indentation(ch, depth * unit)
  {
    IndentationIs(ch, depth * unit);
    hide Indentation;
  }

  lemma PrettyGaps(ch: Byte, unit: nat, single: bool, depth: nat, count: nat)
    ensures var layout := Pretty(ch, unit, single);
            var separator := if count > 0 then [0x2C] else [];
            && Gap(layout, depth, Level(count, true))
               == separator + (if single then (if count > 0 then [0x20] else [])
                               else [0x0A] + Indentation(ch, depth * unit))
            && Gap(layout, depth, Level(2 * count, false)) == separator + ([0x0A] + Indentation(ch, depth * unit))
            && Gap(layout, depth, Level(2 * count + 1, false)) == [0x3A, 0x20]
            && Closing(layout, depth, Level(count, true))
               == (if count == 0 || single then [] else [0x0A] + Indentation(ch, depth * unit))
            && Closing(layout, depth, Level(2 * count, false))
               == if count == 0 then [] else [0x0A] + Indentation(ch, depth * unit)
  {
    hide Indentation, Separator, Spacing, Closing;
    Separators(count);
    Spacings(ch, unit, single, depth, count);
    Closings(ch, unit, single, depth, count);
  }

  lemma {:induction false} PrettyElements(ch: Byte, unit: nat, depth: nat, vs: seq<Value>, count: nat)
    ensures ElementsText(Pretty(ch, unit, false), depth, vs, count)
         == (if vs != [] && count > 0 then [0x2C] else [])
            + Following(ch, unit, Stacked(seq(|vs|, i requires 0 <= i < |vs| => LinesOf(false, depth, vs[i]))))
    decreases vs, 1
  {
    hide Text, LinesOf, Page, Following, Indentation, Gap, Stacked, ElementsText;
    var layout := Pretty(ch, unit, false);
    var parts := seq(|vs|, i requires 0 <= i < |vs| => LinesOf(false, depth, vs[i]));
    ElementsStep(layout, depth, vs, count);
    if vs == [] {
      NoLines(ch, unit);
      assert parts == [];
    } else {
      var rest := vs[1..];
      var others := seq(|rest|, i requires 0 <= i < |rest| => LinesOf(false, depth, rest[i]));
      assert parts[1..] == others;
      PrettyIs(ch, unit, false, depth, vs[0]);
      PrettyElements(ch, unit, depth, rest, count + 1);
      PrettyGaps(ch, unit, false, depth, count);
      FirstDepth(false, depth, vs[0]);
      StackedText(ch, unit, parts);
      if rest == [] {
        NoLines(ch, unit);
        assert others == [];
      }
      var separator := if count > 0 then [0x2C] else [];
      Grouped(separator, [0x0A] + Indentation(ch, depth * unit), Page(ch, unit, parts[0]),
              if rest == [] then [] else [0x2C] + Following(ch, unit, Stacked(others)));
    }
  }

  lemma NoLines(ch: Byte, unit: nat)
    ensures Stacked([]) == [] && Following(ch, unit, []) == []
  {
  }

  lemma {:induction false} SingleElements(ch: Byte, unit: nat, depth: nat, vs: seq<Value>, count: nat)
    requires vs != []
    ensures ElementsText(Pretty(ch, unit, true), depth, vs, count)
         == (if count > 0 then [0x2C, 0x20] else [])
            + Page(ch, unit, Strung(seq(|vs|, i requires 0 <= i < |vs| => LinesOf(true, depth, vs[i]))))
    decreases vs, 1
  {
    hide Text, LinesOf, Page, Gap, Strung, ElementsText;
    ElementsStep(Pretty(ch, unit, true), depth, vs, count);
    var parts := seq(|vs|, i requires 0 <= i < |vs| => LinesOf(true, depth, vs[i]));
    var rest := vs[1..];
    var others := seq(|rest|, i requires 0 <= i < |rest| => LinesOf(true, depth, rest[i]));
    assert parts[1..] == others;
    PrettyIs(ch, unit, true, depth, vs[0]);
    PrettyGaps(ch, unit, true, depth, count);
    StrungText(ch, unit, parts);
    var separator := if count > 0 then [0x2C, 0x20] else [];
    assert Gap(Pretty(ch, unit, true), depth, Level(count, true)) == separator;
    var first := Page(ch, unit, parts[0]);
    if rest == [] {
      ElementsStep(Pretty(ch, unit, true), depth, rest, count + 1);
      assert separator + first + [] == separator + (first + []);
    } else {
      SingleElements(ch, unit, depth, rest, count + 1);
      var more := [0x2C, 0x20] + Page(ch, unit, Strung(others));
      assert separator + first + more == separator + (first + more);
    }
  }

  lemma {:induction false} PrettyMembers(ch: Byte, unit: nat, single: bool, depth: nat, ms: seq<Member>, count: nat)
    ensures MembersText(Pretty(ch, unit, single), depth, ms, 2 * count)
         == (if ms != [] && count > 0 then [0x2C] else [])
            + Following(ch, unit, Stacked(seq(|ms|, i requires 0 <= i < |ms| =>
                                            Headed([0x22] + Escaped(ms[i].name) + [0x22, 0x3A, 0x20],
                                                   LinesOf(single, depth, ms[i].value)))))
    decreases ms, 1
  {
    hide Text, LinesOf, Page, Following, Indentation, Gap, Stacked, Escaped, Headed;
    var parts := seq(|ms|, i requires 0 <= i < |ms| =>
                       Headed([0x22] + Escaped(ms[i].name) + [0x22, 0x3A, 0x20], LinesOf(single, depth, ms[i].value)));
    if ms == [] {
      NoLines(ch, unit);
    } else {
      var rest := ms[1..];
      var others := seq(|rest|, i requires 0 <= i < |rest| =>
                          Headed([0x22] + Escaped(rest[i].name) + [0x22, 0x3A, 0x20],
                                 LinesOf(single, depth, rest[i].value)));
      assert parts[1..] == others;
      PrettyIs(ch, unit, single, depth, ms[0].value);
      PrettyMembers(ch, unit, single, depth, rest, count + 1);
      PrettyMember(ch, unit, single, depth, ms[0], count);
      FirstDepth(single, depth, ms[0].value);
      HeadedDepth([0x22] + Escaped(ms[0].name) + [0x22, 0x3A, 0x20], LinesOf(single, depth, ms[0].value));
      hide MemberText;
      StackedText(ch, unit, parts);
      if rest == [] {
        NoLines(ch, unit);
        assert others == [];
      }
    }
  }

  lemma HeadedDepth(more: Bytes, a: Lines)
    ensures Headed(more, a)[0].depth == a[0].depth
  {
  }

  lemma MemberParts(a: Bytes, b: Bytes, name: Bytes, value: Bytes)
    ensures (a + b) + ([0x22] + name + [0x22]) + [0x3A, 0x20] + value
         == a + (b + (([0x22] + name + [0x22, 0x3A, 0x20]) + value))
  {
    assert [0x22] + name + [0x22, 0x3A, 0x20] == [0x22] + name + [0x22] + [0x3A, 0x20];
  }

  lemma PrettyMember(ch: Byte, unit: nat, single: bool, depth: nat, m: Member, count: nat)
    requires Text(Pretty(ch, unit, single), depth, m.value) == Page(ch, unit, LinesOf(single, depth, m.value))
    ensures MemberText(Pretty(ch, unit, single), depth, m, 2 * count)
         == (if count > 0 then [0x2C] else [])
            + ([0x0A] + Indentation(ch, depth * unit)
               + Page(ch, unit, Headed([0x22] + Escaped(m.name) + [0x22, 0x3A, 0x20], LinesOf(single, depth, m.value))))
  {
    hide Text, LinesOf, Page, Indentation, Gap, Escaped, Headed;
    PrettyGaps(ch, unit, single, depth, count);
    MemberParts(if count > 0 then [0x2C] else [], [0x0A] + Indentation(ch, depth * unit), Escaped(m.name),
                Page(ch, unit, LinesOf(single, depth, m.value)));
    PageHeaded(ch, unit, [0x22] + Escaped(m.name) + [0x22, 0x3A, 0x20], LinesOf(single, depth, m.value));
  }

  lemma {:induction false} PrettyArray(ch: Byte, unit: nat, single: bool, depth: nat, vs: seq<Value>)
    ensures Text(Pretty(ch, unit, single), depth, Array(vs)) == Page(ch, unit, LinesOf(single, depth, Array(vs)))
    decreases vs, 2
  {
    hide Page, Following, Indentation, Gap, Stacked, Escaped, Closing, ElementsText, MembersText, Strung, Glued, Ended,
         Headed;
    PrettyGaps(ch, unit, single, depth, |vs|);
    if vs == [] {
      NoElements(ch, unit, Pretty(ch, unit, single), depth);
    } else {
      var parts := seq(|vs|, i requires 0 <= i < |vs| => LinesOf(single, depth + 1, vs[i]));
      if single {
        SingleElements(ch, unit, depth + 1, vs, 0);
        OnOneLine(ch, unit, depth, Strung(parts));
      } else {
        PrettyElements(ch, unit, depth + 1, vs, 0);
        Bracketed(ch, unit, depth, [0x5B], Stacked(parts), [0x5D]);
      }
    }
  }

  lemma {:induction false} PrettyObject(ch: Byte, unit: nat, single: bool, depth: nat, ms: seq<Member>)
    ensures Text(Pretty(ch, unit, single), depth, Object(ms)) == Page(ch, unit, LinesOf(single, depth, Object(ms)))
    decreases ms, 2
  {
    hide Page, Following, Indentation, Gap, Stacked, Escaped, Closing, ElementsText, MembersText, Strung, Glued, Ended,
         Headed;
    PrettyGaps(ch, unit, single, depth, |ms|);
    if ms == [] {
      NoElements(ch, unit, Pretty(ch, unit, single), depth);
    } else {
      PrettyMembers(ch, unit, single, depth + 1, ms, 0);
      var parts := seq(|ms|, i requires 0 <= i < |ms| =>
                         Headed([0x22] + Escaped(ms[i].name) + [0x22, 0x3A, 0x20], LinesOf(single, depth + 1, ms[i].value)));
      Bracketed(ch, unit, depth, [0x7B], Stacked(parts), [0x7D]);
    }
  }

  /** The pretty writer's text is its lines: each starts with `unit` characters of indentation for each open level. */
  lemma {:induction false} PrettyIs(ch: Byte, unit: nat, single: bool, depth: nat, v: Value)
    ensures Text(Pretty(ch, unit, single), depth, v) == Page(ch, unit, LinesOf(single, depth, v))
    decreases v, 3
  {
    match v
    case Array(vs) => PrettyArray(ch, unit, single, depth, vs);
    case Object(ms) => PrettyObject(ch, unit, single, depth, ms);
    case _ =>
      hide Page, CompactText;
      CompactIs(depth, v);
      BareLine(ch, unit, Line(depth, CompactText(v)));
      ScalarAlike(Pretty(ch, unit, single), depth, v);
  }

  lemma ScalarAlike(layout: Layout, depth: nat, v: Value)
    requires !v.Array? && !v.Object?
    ensures Text(layout, depth, v) == Text(Compact, depth, v)
  {
  }

  lemma OnOneLine(ch: Byte, unit: nat, depth: nat, inner: Lines)
    ensures Page(ch, unit, Ended(Glued([Line(depth, [0x5B])], inner), [0x5D]))
         == [0x5B] + ([] + Page(ch, unit, inner)) + [] + [0x5D]
  {
    hide Page, Following, Glued, Ended;
    PageEnded(ch, unit, Glued([Line(depth, [0x5B])], inner), [0x5D]);
    PageGlued(ch, unit, [Line(depth, [0x5B])], inner);
    BareLine(ch, unit, Line(depth, [0x5B]));
    assert [] + Page(ch, unit, inner) == Page(ch, unit, inner);
  }

  lemma NoElements(ch: Byte, unit: nat, layout: Layout, depth: nat)
    ensures ElementsText(layout, depth + 1, [], 0) == [] && MembersText(layout, depth + 1, [], 0) == []
    ensures Page(ch, unit, [Line(depth, [0x5B, 0x5D])]) == [0x5B] + [] + [] + [0x5D]
    ensures Page(ch, unit, [Line(depth, [0x7B, 0x7D])]) == [0x7B] + [] + [] + [0x7D]
  {
  }

  lemma BareLine(ch: Byte, unit: nat, l: Line)
    ensures Page(ch, unit, [l]) == l.text
  {
    assert [l][1..] == [];
    assert Following(ch, unit, []) == [];
  }

  lemma Bracketed(ch: Byte, unit: nat, depth: nat, open: Bytes, inner: seq<Line>, close: Bytes)
    ensures Page(ch, unit, [Line(depth, open)] + inner + [Line(depth, close)])
         == open + Following(ch, unit, inner) + ([0x0A] + Indentation(ch, depth * unit)) + close
  {
    hide Following, Indentation;
    var ls := [Line(depth, open)] + inner + [Line(depth, close)];
    assert ls[0] == Line(depth, open) && ls[1..] == inner + [Line(depth, close)];
    FollowingJoin(ch, unit, inner, [Line(depth, close)]);
    OneLine(ch, unit, Line(depth, close));
  }

  // ---------------------------------------------------------------- strings

  /** The sixteen hexadecimal digits, in upper case. */
  const HEX: Bytes := [0x30, 0x31, 0x32, 0x33, 0x34, 0x35, 0x36, 0x37, 0x38, 0x39, 0x41, 0x42, 0x43, 0x44, 0x45, 0x46]

  lemma HexDigits(d: nat)
    requires d < 16
    ensures HexDigit(d) == HEX[d] && IsHex(HEX[d]) && HexValue(HEX[d]) == d
    ensures 10 <= d ==> IsHex(HEX[d] + 0x20) && HexValue(HEX[d] + 0x20) == d
  {
  }

  /** How each byte of a string is written: short escapes for \b \t \n \f \r \" and \\, \u00XX below 0x20, or itself. */
  lemma EscapedBytes(c: Byte)
    ensures EscapedByte(c)
         == if c == 0x08 then [0x5C, 0x62]
            else if c == 0x09 then [0x5C, 0x74]
            else if c == 0x0A then [0x5C, 0x6E]
            else if c == 0x0C then [0x5C, 0x66]
            else if c == 0x0D then [0x5C, 0x72]
            else if c == 0x22 then [0x5C, 0x22]
            else if c == 0x5C then [0x5C, 0x5C]
            else if c < 0x20 then [0x5C, 0x75, 0x30, 0x30, HEX[c / 16], HEX[c % 16]]
            else [c]
  {
    HexDigits(c / 16);
    HexDigits(c % 16);
  }
}
