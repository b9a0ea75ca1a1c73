/**
  `Writer` and `PrettyWriter`: events in, text out, with commas and colons placed by the parity of a counter.
 */
module Writer {
  import opened Json
  import opened ReaderSpec

  /** The two writers; `PrettyWriter` carries its indentation and its single-line-array option. */
  datatype Layout = Compact | Pretty(indentChar: Byte, indentCharCount: nat, singleLineArray: bool)

  /** `SetIndent` asserts that the indentation is white space. */
  predicate ValidLayout(layout: Layout) {
    layout.Pretty? ==> IsBlank(layout.indentChar)
  }

  /** A nested array or object being written. */
  datatype Level = Level(valueCount: nat, inArray: bool)

  datatype State = State(out: Bytes, levels: seq<Level>, hasRoot: bool)

  // ---------------------------------------------------------------- scalars

  /** The writer's escape table: 0 for bytes written as they are. */
  function EscapeOf(c: Byte): Byte {
    if c == 0x08 then 0x62
    else if c == 0x09 then 0x74
    else if c == 0x0A then 0x6E
    else if c == 0x0C then 0x66
    else if c == 0x0D then 0x72
    else if c < 0x20 then 0x75
    else if c == 0x22 then 0x22
    else if c == 0x5C then 0x5C
    else 0
  }

  function EscapedByte(c: Byte): Bytes {
    if EscapeOf(c) == 0 then [c]
    else if EscapeOf(c) == 0x75 then [0x5C, 0x75, 0x30, 0x30, HexDigit(c / 16), HexDigit(c % 16)]
    else [0x5C, EscapeOf(c)]
  }

  function Escaped(s: Bytes): Bytes {
    if s == [] then [] else EscapedByte(s[0]) + Escaped(s[1..])
  }

  function Quoted(s: Bytes): Bytes {
    [0x22] + Escaped(s) + [0x22]
  }

  /** Canonical decimal, as u32toa, i32toa, u64toa and i64toa write it. */
  function Decimal(n: nat): (d: Bytes)
    ensures d != []
  {
    if n < 10 then [0x30 + n] else Decimal(n / 10) + [0x30 + n % 10]
  }

  function IntegerText(n: int): Bytes {
    if n < 0 then [0x2D] + Decimal(-n) else Decimal(n)
  }

  function ScalarText(e: Event): Bytes {
    match e
    case NullE => NULL_TEXT
    case BoolE(b) => if b then TRUE_TEXT else FALSE_TEXT
    case NumE(_, n) => IntegerText(n)
    case StringE(s) => Quoted(s)
    case Key(s) => Quoted(s)
    case DoubleE(lexeme) => lexeme
    case StartObject => [0x7B]
    case StartArray => [0x5B]
    case EndObject(_) => [0x7D]
    case EndArray(_) => [0x5D]
  }

  // ---------------------------------------------------------------- separators

  function Separator(level: Level): Bytes {
    if level.valueCount == 0 then []
    else if level.inArray || level.valueCount % 2 == 0 then [0x2C]
    else [0x3A]
  }

  function Indent(layout: Layout, depth: nat): Bytes
    requires layout.Pretty?
  {
    seq(depth * layout.indentCharCount, _ => layout.indentChar)
  }

  /** The white space between a separator and the value it introduces. */
  function Spacing(layout: Layout, depth: nat, level: Level): Bytes {
    match layout
    case Compact => []
    case Pretty(_, _, singleLineArray) =>
      if level.inArray then
        if singleLineArray then (if level.valueCount > 0 then [0x20] else [])
        else [0x0A] + Indent(layout, depth)
      else if level.valueCount % 2 == 0 then [0x0A] + Indent(layout, depth)
      else [0x20]
  }

  lemma NoSpacing(depth: nat, level: Level)
    ensures Spacing(Compact, depth, level) == []
  {
  }

  function Gap(layout: Layout, depth: nat, level: Level): Bytes {
    Separator(level) + Spacing(layout, depth, level)
  }

  /** The white space before a closing bracket; `depth` no longer counts the closed level. */
  function Closing(layout: Layout, depth: nat, level: Level): Bytes {
    if layout.Compact? || level.valueCount == 0 || (level.inArray && layout.singleLineArray) then []
    else [0x0A] + Indent(layout, depth)
  }

  // ---------------------------------------------------------------- one event

  predicate IsName(e: Event) {
    e.StringE? || e.Key?
  }

  /** `Prefix` and `PrettyPrefix`; None is a failed assertion of the source. */
  function Prefixed(layout: Layout, w: State, e: Event): Option<State> {
    if w.levels == [] then
      if w.hasRoot then None else Some(w.(hasRoot := true))
    else
      var top := w.levels[|w.levels| - 1];
      if !top.inArray && top.valueCount % 2 == 0 && !IsName(e) then None
      else
        Some(w.(out := w.out + Gap(layout, |w.levels|, top),
                levels := w.levels[|w.levels| - 1 := top.(valueCount := top.valueCount + 1)]))
  }

  function Written(layout: Layout, w: State, e: Event): Option<State> {
    if e.EndObject? || e.EndArray? then
      if w.levels == [] || w.levels[|w.levels| - 1].inArray != e.EndArray? then None
      else
        var outer := w.levels[..|w.levels| - 1];
        Some(State(w.out + Closing(layout, |outer|, w.levels[|w.levels| - 1]) + ScalarText(e), outer, w.hasRoot))
    else
      match Prefixed(layout, w, e)
      case None => None
      case Some(p) =>
        var levels := if e.StartObject? then p.levels + [Level(0, false)]
                      else if e.StartArray? then p.levels + [Level(0, true)]
                      else p.levels;
        Some(p.(out := p.out + ScalarText(e), levels := levels))
  }

  function WriteAll(layout: Layout, w: State, es: seq<Event>): Option<State>
    decreases es
  {
    if es == [] then Some(w)
    else
      match Written(layout, w, es[0])
      case None => None
      case Some(next) => WriteAll(layout, next, es[1..])
  }

  // ---------------------------------------------------------------- the text of a tree

  function Text(layout: Layout, depth: nat, v: Value): Bytes
    decreases v
  {
    match v
    case Array(elements) =>
      [0x5B] + ElementsText(layout, depth + 1, elements, 0)
      + Closing(layout, depth, Level(|elements|, true)) + [0x5D]
    case Object(members) =>
      [0x7B] + MembersText(layout, depth + 1, members, 0)
      + Closing(layout, depth, Level(2 * |members|, false)) + [0x7D]
    case _ => ScalarText(Events(Visitor, v)[0])
  }

  function ElementsText(layout: Layout, depth: nat, vs: seq<Value>, count: nat): Bytes
    decreases vs
  {
    if vs == [] then []
    else
      Gap(layout, depth, Level(count, true)) + Text(layout, depth, vs[0])
      + ElementsText(layout, depth, vs[1..], count + 1)
  }

  function MembersText(layout: Layout, depth: nat, ms: seq<Member>, count: nat): Bytes
    decreases ms
  {
    if ms == [] then []
    else MemberText(layout, depth, ms[0], count) + MembersText(layout, depth, ms[1..], count + 2)
  }

  function MemberText(layout: Layout, depth: nat, m: Member, count: nat): Bytes
    decreases m
  {
    Gap(layout, depth, Level(count, false)) + Quoted(m.name)
    + Gap(layout, depth, Level(count + 1, false)) + Text(layout, depth, m.value)
  }

  // ---------------------------------------------------------------- the writer writes the text

  function WriteOn(layout: Layout, o: Option<State>, es: seq<Event>): Option<State> {
    if o.None? then None else WriteAll(layout, o.value, es)
  }

  lemma {:induction false} WriteConcat(layout: Layout, w: State, a: seq<Event>, b: seq<Event>)
    ensures WriteAll(layout, w, a + b) == WriteOn(layout, WriteAll(layout, w, a), b)
    decreases |a|
  {
    if a == [] {
      assert a + b == b;
    } else {
      assert (a + b)[0] == a[0] && (a + b)[1..] == a[1..] + b;
      match Written(layout, w, a[0])
      case None =>
      case Some(next) => WriteConcat(layout, next, a[1..], b);
    }
  }

  lemma WriteOne(layout: Layout, w: State, e: Event)
    ensures WriteAll(layout, w, [e]) == Written(layout, w, e)
  {
    assert [e][1..] == [];
    if Written(layout, w, e).Some? {
      assert WriteAll(layout, Written(layout, w, e).value, []) == Written(layout, w, e);
    }
  }

  lemma WriteBracket(layout: Layout, w: State, open: Event, es: seq<Event>, close: Event, inside: State, filled: State)
    requires Written(layout, w, open) == Some(inside)
    requires WriteAll(layout, inside, es) == Some(filled)
    ensures WriteAll(layout, w, [open] + es + [close]) == Written(layout, filled, close)
  {
    WriteOne(layout, w, open);
    WriteConcat(layout, w, [open], es);
    WriteConcat(layout, w, [open] + es, [close]);
    WriteOne(layout, filled, close);
  }

  /** The next value may be written here. */
  predicate Expects(w: State) {
    if w.levels == [] then !w.hasRoot
    else var top := w.levels[|w.levels| - 1]; top.inArray || top.valueCount % 2 == 1
  }

  /** The state once one more value, with text `text`, has been written. */
  function Grown(layout: Layout, w: State, text: Bytes): (g: State)
    ensures |g.levels| == |w.levels|
  {
    if w.levels == [] then State(w.out + text, [], true)
    else
      var top := w.levels[|w.levels| - 1];
      State(w.out + Gap(layout, |w.levels|, top) + text,
            w.levels[|w.levels| - 1 := top.(valueCount := top.valueCount + 1)],
            w.hasRoot)
  }

  function OpenEvent(inArray: bool): Event {
    if inArray then StartArray else StartObject
  }

  function CloseEvent(inArray: bool, entries: nat): Event {
    if inArray then EndArray(entries) else EndObject(entries)
  }

  /** The state inside a bracket just opened. */
  function Inside(layout: Layout, w: State, inArray: bool): State {
    var g := Grown(layout, w, ScalarText(OpenEvent(inArray)));
    g.(levels := g.levels + [Level(0, inArray)])
  }

  /** The state inside a bracket whose body has been written. */
  function Filled(layout: Layout, w: State, inArray: bool, body: Bytes, count: nat): State {
    var g := Grown(layout, w, ScalarText(OpenEvent(inArray)));
    State(g.out + body, g.levels + [Level(count, inArray)], g.hasRoot)
  }

  function CompoundText(layout: Layout, depth: nat, inArray: bool, body: Bytes, count: nat, entries: nat): Bytes {
    ScalarText(OpenEvent(inArray)) + body + Closing(layout, depth, Level(count, inArray))
    + ScalarText(CloseEvent(inArray, entries))
  }

  lemma OpenWritten(layout: Layout, w: State, inArray: bool)
    requires Expects(w)
    ensures Written(layout, w, OpenEvent(inArray)) == Some(Inside(layout, w, inArray))
  {
    hide Gap;
  }

  lemma CloseWritten(layout: Layout, w: State, inArray: bool, body: Bytes, count: nat, entries: nat)
    ensures Written(layout, Filled(layout, w, inArray, body, count), CloseEvent(inArray, entries))
            == Some(Grown(layout, w, CompoundText(layout, |w.levels|, inArray, body, count, entries)))
  {
    hide Gap, Closing;
    var g := Grown(layout, w, ScalarText(OpenEvent(inArray)));
    var filled := Filled(layout, w, inArray, body, count);
    assert filled.levels[..|filled.levels| - 1] == g.levels;
    var before := if w.levels == [] then w.out else w.out + Gap(layout, |w.levels|, w.levels[|w.levels| - 1]);
    Bracketed(before, ScalarText(OpenEvent(inArray)), body, Closing(layout, |w.levels|, Level(count, inArray)),
              ScalarText(CloseEvent(inArray, entries)));
  }

  lemma Bracketed(before: Bytes, open: Bytes, body: Bytes, closing: Bytes, close: Bytes)
    ensures before + open + body + closing + close == before + (open + body + closing + close)
  {
  }

  /** A bracket opened, filled and closed is one more value. */
  lemma WriteCompound(layout: Layout, w: State, inArray: bool, es: seq<Event>, body: Bytes, count: nat, entries: nat)
    requires Expects(w)
    requires WriteAll(layout, Inside(layout, w, inArray), es) == Some(Filled(layout, w, inArray, body, count))
    ensures WriteAll(layout, w, [OpenEvent(inArray)] + es + [CloseEvent(inArray, entries)])
            == Some(Grown(layout, w, CompoundText(layout, |w.levels|, inArray, body, count, entries)))
  {
    hide WriteAll, Written, Inside, Filled, Grown, CompoundText;
    OpenWritten(layout, w, inArray);
    CloseWritten(layout, w, inArray, body, count, entries);
    WriteBracket(layout, w, OpenEvent(inArray), es, CloseEvent(inArray, entries),
                 Inside(layout, w, inArray), Filled(layout, w, inArray, body, count));
  }

  /**
    Replaying a tree into either writer violates none of its assertions and appends exactly the tree's text;
    at the root it leaves the writer complete.
   */
  lemma {:induction false} WriteValue(layout: Layout, v: Value, w: State)
    requires Expects(w)
    ensures WriteAll(layout, w, Events(Visitor, v)) == Some(Grown(layout, w, Text(layout, |w.levels|, v)))
    decreases v
  {
    if v.Array? {
      WriteArray(layout, v.elements, w);
    } else if v.Object? {
      WriteObject(layout, v.members, w);
    } else {
      WriteOne(layout, w, Events(Visitor, v)[0]);
    }
  }

  lemma {:induction false} WriteArray(layout: Layout, elements: seq<Value>, w: State)
    requires Expects(w)
    ensures WriteAll(layout, w, Events(Visitor, Array(elements)))
            == Some(Grown(layout, w, Text(layout, |w.levels|, Array(elements))))
    decreases elements, 1
  {
    hide WriteAll, Events, ElementEvents, Text, ElementsText, CompoundText, Grown;
    ArrayShape(layout, |w.levels|, elements);
    var body := ElementsText(layout, |w.levels| + 1, elements, 0);
    var es := ElementEvents(Visitor, elements);
    var inside := Inside(layout, w, true);
    WriteElements(layout, elements, inside, 0);
    assert inside.levels[..|inside.levels| - 1] + [Level(|elements|, true)]
           == Filled(layout, w, true, body, |elements|).levels;
    WriteCompound(layout, w, true, es, body, |elements|, |elements|);
  }

  lemma ArrayShape(layout: Layout, depth: nat, elements: seq<Value>)
    ensures Events(Visitor, Array(elements))
            == [OpenEvent(true)] + ElementEvents(Visitor, elements) + [CloseEvent(true, |elements|)]
    ensures Text(layout, depth, Array(elements))
            == CompoundText(layout, depth, true, ElementsText(layout, depth + 1, elements, 0), |elements|, |elements|)
  {
  }

  lemma ObjectShape(layout: Layout, depth: nat, members: seq<Member>)
    ensures Events(Visitor, Object(members))
            == [OpenEvent(false)] + MemberEvents(Visitor, members) + [CloseEvent(false, |members|)]
    ensures Text(layout, depth, Object(members))
            == CompoundText(layout, depth, false, MembersText(layout, depth + 1, members, 0), 2 * |members|, |members|)
  {
  }

  lemma {:induction false} WriteObject(layout: Layout, members: seq<Member>, w: State)
    requires Expects(w)
    ensures WriteAll(layout, w, Events(Visitor, Object(members)))
            == Some(Grown(layout, w, Text(layout, |w.levels|, Object(members))))
    decreases members, 1
  {
    hide WriteAll, Events, MemberEvents, Text, MembersText, CompoundText, Grown;
    ObjectShape(layout, |w.levels|, members);
    var body := MembersText(layout, |w.levels| + 1, members, 0);
    var inside := Inside(layout, w, false);
    WriteMembers(layout, members, inside, 0);
    assert inside.levels[..|inside.levels| - 1] + [Level(2 * |members|, false)]
           == Filled(layout, w, false, body, 2 * |members|).levels;
    WriteCompound(layout, w, false, MemberEvents(Visitor, members), body, 2 * |members|, |members|);
  }

  lemma {:induction false} WriteElements(layout: Layout, vs: seq<Value>, w: State, count: nat)
    requires w.levels != [] && w.levels[|w.levels| - 1] == Level(count, true)
    ensures WriteAll(layout, w, ElementEvents(Visitor, vs))
            == Some(Advanced(w, ElementsText(layout, |w.levels|, vs, count), |vs|))
    decreases vs, 0
  {
    if vs == [] {
      hide WriteAll;
      WriteNothing(layout, w);
    } else {
      hide WriteAll, Gap, Text, Events;
      var depth := |w.levels|;
      WriteValue(layout, vs[0], w);
      GrownAdvances(layout, w, Text(layout, depth, vs[0]));
      var one := Gap(layout, depth, Level(count, true)) + Text(layout, depth, vs[0]);
      var next := Advanced(w, one, 1);
      assert |next.levels| == depth && next.levels[depth - 1] == Level(count + 1, true);
      hide Advanced, Written;
      WriteElements(layout, vs[1..], next, count + 1);
      WriteConcat(layout, w, Events(Visitor, vs[0]), ElementEvents(Visitor, vs[1..]));
      AdvancedTwice(w, one, 1, ElementsText(layout, depth, vs[1..], count + 1), |vs[1..]|);
    }
  }

  /** The state once `text` and `more` values have been written into the innermost level. */
  function Advanced(w: State, text: Bytes, more: nat): State
    requires w.levels != []
  {
    var top := w.levels[|w.levels| - 1];
    State(w.out + text, w.levels[..|w.levels| - 1] + [top.(valueCount := top.valueCount + more)], w.hasRoot)
  }

  lemma WriteNothing(layout: Layout, w: State)
    requires w.levels != []
    ensures WriteAll(layout, w, []) == Some(Advanced(w, [], 0))
  {
    assert w.levels[..|w.levels| - 1] + [w.levels[|w.levels| - 1]] == w.levels;
    assert w.out + [] == w.out;
  }

  lemma AdvancedTwice(w: State, a: Bytes, m: nat, b: Bytes, n: nat)
    requires w.levels != []
    ensures Advanced(Advanced(w, a, m), b, n) == Advanced(w, a + b, m + n)
  {
    var next := Advanced(w, a, m);
    assert next.levels[..|w.levels| - 1] == w.levels[..|w.levels| - 1];
    assert w.out + a + b == w.out + (a + b);
  }

  lemma GrownAdvances(layout: Layout, w: State, text: Bytes)
    requires w.levels != []
    ensures Grown(layout, w, text) == Advanced(w, Gap(layout, |w.levels|, w.levels[|w.levels| - 1]) + text, 1)
  {
    hide Gap;
    var gap := Gap(layout, |w.levels|, w.levels[|w.levels| - 1]);
    assert w.out + gap + text == w.out + (gap + text);
  }

  lemma {:induction false} WriteMember(layout: Layout, m: Member, w: State, count: nat)
    requires w.levels != [] && w.levels[|w.levels| - 1] == Level(count, false) && count % 2 == 0
    ensures WriteAll(layout, w, [Key(m.name)] + Events(Visitor, m.value))
            == Some(Advanced(w, MemberText(layout, |w.levels|, m, count), 2))
    decreases m
  {
    hide WriteAll, Gap, Quoted, Text, Events, Grown, Advanced;
    var depth := |w.levels|;
    var named := Grown(layout, w, Quoted(m.name));
    assert named.levels != [] && named.levels[|named.levels| - 1] == Level(count + 1, false)
           && Written(layout, w, Key(m.name)) == Some(named) by {
      KeyWritten(layout, w, m.name, count);
    }
    hide Written;
    WriteOne(layout, w, Key(m.name));
    WriteValue(layout, m.value, named);
    WriteConcat(layout, w, [Key(m.name)], Events(Visitor, m.value));
    GrownAdvances(layout, w, Quoted(m.name));
    GrownAdvances(layout, named, Text(layout, depth, m.value));
    var first, second := Gap(layout, depth, Level(count, false)), Gap(layout, depth, Level(count + 1, false));
    AdvancedTwice(w, first + Quoted(m.name), 1, second + Text(layout, depth, m.value), 1);
    assert first + Quoted(m.name) + (second + Text(layout, depth, m.value)) == MemberText(layout, depth, m, count);
  }

  lemma KeyWritten(layout: Layout, w: State, name: Bytes, count: nat)
    requires w.levels != [] && w.levels[|w.levels| - 1] == Level(count, false) && count % 2 == 0
    ensures var named := Grown(layout, w, Quoted(name));
            && Written(layout, w, Key(name)) == Some(named)
            && named.levels != [] && named.levels[|named.levels| - 1] == Level(count + 1, false)
  {
    hide Gap, Quoted;
  }

  lemma ThenRest(layout: Layout, w: State, head: seq<Event>, tail: seq<Event>, one: Bytes, m: nat, rest: Bytes, n: nat)
    requires w.levels != []
    requires WriteAll(layout, w, head) == Some(Advanced(w, one, m))
    requires WriteAll(layout, Advanced(w, one, m), tail) == Some(Advanced(Advanced(w, one, m), rest, n))
    ensures WriteAll(layout, w, head + tail) == Some(Advanced(w, one + rest, m + n))
  {
    hide WriteAll, Advanced;
    WriteConcat(layout, w, head, tail);
    AdvancedTwice(w, one, m, rest, n);
  }

  lemma {:induction false} WriteMembers(layout: Layout, ms: seq<Member>, w: State, count: nat)
    requires w.levels != [] && w.levels[|w.levels| - 1] == Level(count, false) && count % 2 == 0
    ensures WriteAll(layout, w, MemberEvents(Visitor, ms))
            == Some(Advanced(w, MembersText(layout, |w.levels|, ms, count), 2 * |ms|))
    decreases ms, 0
  {
    hide WriteAll, MemberText, Events;
    if ms == [] {
      WriteNothing(layout, w);
    } else {
      WriteMember(layout, ms[0], w, count);
      var one, rest := MemberText(layout, |w.levels|, ms[0], count), MembersText(layout, |w.levels|, ms[1..], count + 2);
      WriteMembers(layout, ms[1..], Advanced(w, one, 2), count + 2);
      ThenRest(layout, w, [Key(ms[0].name)] + Events(Visitor, ms[0].value), MemberEvents(Visitor, ms[1..]),
               one, 2, rest, 2 * |ms[1..]|);
    }
  }

  // ---------------------------------------------------------------- the writer object

  /** `Writer`, and `PrettyWriter` when the layout is pretty. */
  class JsonWriter {
    const layout: Layout
    var out: Bytes
    var levels: seq<Level>
    var hasRoot: bool

    ghost function Now(): State
      reads this
    {
      State(out, levels, hasRoot)
    }

    constructor (layout: Layout)
      ensures this.layout == layout && Now() == State([], [], false)
    {
      this.layout := layout;
      out, levels, hasRoot := [], [], false;
    }

    predicate IsComplete()
      reads this
    {
      hasRoot && levels == []
    }

    /** `WriteIndent`: one unit of indentation per open level. */
    method WriteIndent()
      requires layout.Pretty?
      modifies this`out
      ensures out == old(out) + Indent(layout, |levels|)
    {
      var n := |levels| * layout.indentCharCount;
      for i := 0 to n
        invariant out == old(out) + seq(i, _ => layout.indentChar)
      {
        out := out + [layout.indentChar];
      }
    }

    method WriteSeparator(level: Level)
      modifies this`out
      ensures out == old(out) + Separator(level)
    {
      if level.valueCount > 0 {
        if level.inArray {
          out := out + [0x2C];
        } else {
          out := out + [if level.valueCount % 2 == 0 then 0x2C else 0x3A];
        }
      }
    }

    /** `Prefix` and `PrettyPrefix`: separator and white space before a value, by the parity of the counter. */
    method Prefix(e: Event)
      requires Prefixed(layout, Now(), e).Some?
      modifies this
      ensures Some(Now()) == Prefixed(layout, old(Now()), e)
    {
      hide Separator, Spacing;
      if levels != [] {
        var level := levels[|levels| - 1];
        WriteSeparator(level);
        ghost var separated := out;
        if layout.Pretty? {
          PrettySpacing(level);
        } else {
          assert Spacing(layout, |levels|, level) == [] by { NoSpacing(|levels|, level); }
          assert separated + [] == separated;
        }
        assert old(out) + Separator(level) + Spacing(layout, |levels|, level)
               == old(out) + Gap(layout, |levels|, level);
        levels := levels[|levels| - 1 := level.(valueCount := level.valueCount + 1)];
      } else {
        hasRoot := true;
      }
    }

    method PrettySpacing(level: Level)
      requires layout.Pretty? && levels != []
      modifies this`out
      ensures out == old(out) + Spacing(layout, |levels|, level)
    {
      if level.inArray {
        if layout.singleLineArray {
          if level.valueCount > 0 {
            out := out + [0x20];
          }
        } else {
          out := out + [0x0A];
          WriteIndent();
        }
      } else if level.valueCount % 2 == 0 {
        out := out + [0x0A];
        WriteIndent();
      } else {
        out := out + [0x20];
      }
    }

    /** One byte of a string, through the escape table. */
    method WriteEscaped(c: Byte)
      modifies this`out
      ensures out == old(out) + EscapedByte(c)
    {
      if EscapeOf(c) != 0 {
        out := out + [0x5C];
        out := out + [EscapeOf(c)];
        if EscapeOf(c) == 0x75 {
          out := out + [0x30, 0x30];
          out := out + [HexDigit(c / 16), HexDigit(c % 16)];
        }
      } else {
        out := out + [c];
      }
    }

    /** `WriteString`: the loop over the source bytes. */
    method WriteString(s: Bytes)
      modifies this`out
      ensures out == old(out) + Quoted(s)
    {
      hide EscapedByte;
      out := out + [0x22];
      assert s[0..] == s;
      for i := 0 to |s|
        invariant out + Escaped(s[i..]) == old(out) + [0x22] + Escaped(s)
      {
        ghost var before := out;
        WriteEscaped(s[i]);
        assert s[i..][1..] == s[i + 1..];
        assert before + (EscapedByte(s[i]) + Escaped(s[i + 1..])) == before + EscapedByte(s[i]) + Escaped(s[i + 1..]);
      }
      assert out == old(out) + [0x22] + Escaped(s);
      out := out + [0x22];
    }

    /** One handler call; its precondition is that the writer's assertions hold. */
    method Write(e: Event)
      requires Written(layout, Now(), e).Some?
      modifies this
      ensures Some(Now()) == Written(layout, old(Now()), e)
    {
      hide Gap, Quoted;
      if e.EndObject? || e.EndArray? {
        var level := levels[|levels| - 1];
        levels := levels[..|levels| - 1];
        if layout.Pretty? && level.valueCount != 0 && !(level.inArray && layout.singleLineArray) {
          out := out + [0x0A];
          WriteIndent();
          assert old(out) + [0x0A] + Indent(layout, |levels|) == old(out) + Closing(layout, |levels|, level);
        } else {
          assert old(out) + Closing(layout, |levels|, level) == old(out);
        }
        out := out + ScalarText(e);
      } else {
        Prefix(e);
        if e.StringE? || e.Key? {
          WriteString(if e.StringE? then e.s else e.name);
        } else {
          out := out + ScalarText(e);
          if e.StartObject? {
            levels := levels + [Level(0, false)];
          } else if e.StartArray? {
            levels := levels + [Level(0, true)];
          }
        }
      }
    }

    /** `Accept` with this writer as the handler. */
    method WriteTree(v: Value)
      requires Now() == State([], [], false)
      modifies this
      ensures IsComplete() && out == Text(layout, 0, v)
    {
      hide Written;
      WriteValue(layout, v, Now());
      var es := Events(Visitor, v);
      assert es[0..] == es;
      for i := 0 to |es|
        invariant WriteAll(layout, Now(), es[i..]) == WriteAll(layout, State([], [], false), es)
      {
        assert es[i..][0] == es[i] && es[i..][1..] == es[i + 1..];
        Write(es[i]);
      }
      assert [] + Text(layout, 0, v) == Text(layout, 0, v);
    }
  }
}
