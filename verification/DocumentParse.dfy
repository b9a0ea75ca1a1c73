/**
  `GenericDocument::ParseStream`: the reader drives the document builder. Whatever the text, if it is accepted
  the builder ends with exactly one root.
 */
module DocumentParse {
  import opened Json
  import opened Numbers
  import opened ReaderSpec
  import opened Document
  import R = Reader

  // ---------------------------------------------------------------- the events of an accepted text

  /** The same event, up to the callback that delivers an integer: "-0" comes through `Int`, a plain 0 through `Uint`. */
  predicate SameEvent(a: Event, b: Event) {
    a == b || (a.NumE? && b.NumE? && a.n == b.n && InKind(a.kind, a.n) && InKind(b.kind, b.n))
  }

  predicate Equivalent(es: seq<Event>, fs: seq<Event>) {
    |es| == |fs| && forall i :: 0 <= i < |es| ==> SameEvent(es[i], fs[i])
  }

  lemma EquivalentConcat(a: seq<Event>, b: seq<Event>, c: seq<Event>, d: seq<Event>)
    requires Equivalent(a, b) && Equivalent(c, d)
    ensures Equivalent(a + c, b + d)
  {
    hide SameEvent;
  }

  lemma EquivalentSame(es: seq<Event>)
    ensures Equivalent(es, es)
  {
  }

  lemma ScalarSpells(s: Bytes) returns (x: Value)
    requires ScalarAt(s).Good?
    ensures Equivalent(ScalarAt(s).events, Events(TextReader, x))
  {
    var es := ScalarAt(s).events;
    ScalarIsOneEvent(s);
    hide ScalarAt;
    var e := es[0];
    x := match e
         case NullE => Null
         case BoolE(b) => Bool(b)
         case NumE(_, n) => Integer(n)
         case DoubleE(lexeme) => Double(lexeme)
         case StringE(t) => String(t)
         case _ => Null;
  }

  lemma ScalarIsOneEvent(s: Bytes)
    requires ScalarAt(s).Good?
    ensures |ScalarAt(s).events| == 1
    ensures var e := ScalarAt(s).events[0];
            (e.NullE? || e.BoolE? || e.NumE? || e.DoubleE? || e.StringE?) && (e.NumE? ==> InKind(e.kind, e.n))
  {
    hide DoubleGuard, DigitRun, DecValue, FractionAt, StringAt, Matched;
  }

  /** Every accepted value is that of a tree: what is delivered are the tree's events. */
  lemma {:induction false} ValueSpells(f: Flags, s: Bytes) returns (x: Value)
    requires ValueAt(f, s).Good?
    ensures Equivalent(ValueAt(f, s).events, Events(TextReader, x))
    decreases |s|, 0
  {
    if Peek(s) == 0x7B {
      hide AtObjectInitial, Skip, MemberEvents, Equivalent;
      var t := Skip(f, s[1..]).rest;
      var ms := ObjectSpells(f, t);
      x := Object(ms);
      EquivalentSame([StartObject]);
      EquivalentConcat([StartObject], [StartObject], AtObjectInitial(f, t).events,
                  MemberEvents(TextReader, ms) + [EndObject(|ms|)]);
      Regroup([StartObject], MemberEvents(TextReader, ms), [EndObject(|ms|)]);
    } else if Peek(s) == 0x5B {
      hide AtArrayInitial, Skip, ElementEvents, Equivalent;
      var t := Skip(f, s[1..]).rest;
      var xs := ArraySpells(f, t);
      x := Array(xs);
      EquivalentSame([StartArray]);
      EquivalentConcat([StartArray], [StartArray], AtArrayInitial(f, t).events,
                  ElementEvents(TextReader, xs) + [EndArray(|xs|)]);
      Regroup([StartArray], ElementEvents(TextReader, xs), [EndArray(|xs|)]);
    } else {
      x := ScalarSpells(s);
    }
  }

  lemma Regroup(a: seq<Event>, b: seq<Event>, c: seq<Event>)
    ensures a + b + c == a + (b + c)
  {
  }

  lemma NoParts()
    ensures ElementEvents(TextReader, []) == [] && MemberEvents(TextReader, []) == []
  {
  }

  lemma {:induction false} ArraySpells(f: Flags, s: Bytes) returns (xs: seq<Value>)
    requires AtArrayInitial(f, s).Good?
    ensures Equivalent(AtArrayInitial(f, s).events, ElementEvents(TextReader, xs) + [EndArray(|xs|)])
    decreases |s|, 2
  {
    hide AtElement, ElementEvents;
    if Peek(s) == 0x5D {
      xs := [];
      NoParts();
    } else {
      xs := ElementSpells(f, s, 0);
    }
  }

  /** The elements from one that follows `count` others. */
  lemma {:induction false} ElementSpells(f: Flags, s: Bytes, count: nat) returns (xs: seq<Value>)
    requires AtElement(f, s, count).Good?
    ensures Equivalent(AtElement(f, s, count).events, ElementEvents(TextReader, xs) + [EndArray(count + |xs|)])
    decreases |s|, 1
  {
    hide ValueAt, AtElementEnd, Skip, ElementEvents, Events, Equivalent;
    var o := ValueAt(f, s);
    var x := ValueSpells(f, s);
    var t := Skip(f, o.rest).rest;
    var more := ElementEndSpells(f, t, count);
    xs := [x] + more;
    assert xs[1..] == more;
    ElementFirst(xs);
    var end := [EndArray(count + |xs|)];
    EquivalentConcat(o.events, Events(TextReader, x), AtElementEnd(f, t, count).events, ElementEvents(TextReader, more) + end);
    Regroup(Events(TextReader, x), ElementEvents(TextReader, more), end);
  }

  lemma ElementFirst(xs: seq<Value>)
    requires xs != []
    ensures ElementEvents(TextReader, xs) == Events(TextReader, xs[0]) + ElementEvents(TextReader, xs[1..])
  {
    hide Events;
  }

  lemma {:induction false} ElementEndSpells(f: Flags, s: Bytes, count: nat) returns (more: seq<Value>)
    requires AtElementEnd(f, s, count).Good?
    ensures Equivalent(AtElementEnd(f, s, count).events, ElementEvents(TextReader, more) + [EndArray(count + 1 + |more|)])
    decreases |s|, 3
  {
    hide AtElement, Skip, ElementEvents;
    more := [];
    NoParts();
    if Peek(s) == 0x2C {
      var t := Skip(f, s[1..]).rest;
      assert AtElementEnd(f, s, count) == AtElementDelimiter(f, t, count + 1);
      if !(f.trailingCommas && Peek(t) == 0x5D) {
        more := ElementSpells(f, t, count + 1);
      }
    }
  }

  lemma {:induction false} ObjectSpells(f: Flags, s: Bytes) returns (ms: seq<Member>)
    requires AtObjectInitial(f, s).Good?
    ensures Equivalent(AtObjectInitial(f, s).events, MemberEvents(TextReader, ms) + [EndObject(|ms|)])
    decreases |s|, 2
  {
    hide AtKey, MemberEvents;
    if Peek(s) == 0x7D {
      ms := [];
      NoParts();
    } else {
      ms := KeySpells(f, s, 0);
    }
  }

  /** The members from one that follows `count` others. */
  lemma {:induction false} KeySpells(f: Flags, s: Bytes, count: nat) returns (ms: seq<Member>)
    requires AtKey(f, s, count).Good?
    ensures Equivalent(AtKey(f, s, count).events, MemberEvents(TextReader, ms) + [EndObject(count + |ms|)])
    decreases |s|, 1
  {
    hide StringAt, AtMemberValue, Skip, MemberEvents, Events, Equivalent;
    var name := StringAt(s[1..]).content;
    var o := StringEventAt(s, true);
    assert o.events == [Key(name)];
    var t := Skip(f, o.rest).rest;
    var u := Skip(f, t[1..]).rest;
    assert AtKeyEnd(f, t, count) == AtMemberValue(f, u, count);
    var x, more := MemberSpells(f, u, count);
    ms := [Member(name, x)] + more;
    assert ms[1..] == more;
    MemberFirst(ms);
    var end := [EndObject(count + |ms|)];
    var value, others := Events(TextReader, x), MemberEvents(TextReader, more);
    EquivalentSame([Key(name)]);
    EquivalentConcat([Key(name)], [Key(name)], AtMemberValue(f, u, count).events, value + (others + end));
    Regroup([Key(name)], value, others);
    Regroup([Key(name)], value + others, end);
    Regroup(value, others, end);
  }

  lemma MemberFirst(ms: seq<Member>)
    requires ms != []
    ensures MemberEvents(TextReader, ms)
         == [Key(ms[0].name)] + Events(TextReader, ms[0].value) + MemberEvents(TextReader, ms[1..])
  {
    hide Events;
  }

  lemma {:induction false} MemberSpells(f: Flags, s: Bytes, count: nat) returns (x: Value, more: seq<Member>)
    requires AtMemberValue(f, s, count).Good?
    ensures Equivalent(AtMemberValue(f, s, count).events,
                  Events(TextReader, x) + (MemberEvents(TextReader, more) + [EndObject(count + 1 + |more|)]))
    decreases |s|, 1
  {
    hide ValueAt, AtMemberEnd, Skip, MemberEvents, Events, Equivalent;
    var o := ValueAt(f, s);
    x := ValueSpells(f, s);
    var t := Skip(f, o.rest).rest;
    more := MemberEndSpells(f, t, count);
    EquivalentConcat(o.events, Events(TextReader, x), AtMemberEnd(f, t, count).events,
                MemberEvents(TextReader, more) + [EndObject(count + 1 + |more|)]);
  }

  lemma {:induction false} MemberEndSpells(f: Flags, s: Bytes, count: nat) returns (more: seq<Member>)
    requires AtMemberEnd(f, s, count).Good?
    ensures Equivalent(AtMemberEnd(f, s, count).events, MemberEvents(TextReader, more) + [EndObject(count + 1 + |more|)])
    decreases |s|, 3
  {
    hide AtKey, Skip, MemberEvents;
    more := [];
    NoParts();
    if Peek(s) == 0x2C {
      var t := Skip(f, s[1..]).rest;
      assert AtMemberEnd(f, s, count) == AtMemberDelimiter(f, t, count + 1);
      if !(f.trailingCommas && Peek(t) == 0x7D) {
        more := KeySpells(f, t, count + 1);
      }
    }
  }

  // ---------------------------------------------------------------- the tree of an accepted text

  /** The document does not keep which callback delivered an integer. */
  lemma {:induction false} BuildEquivalent(stack: seq<Value>, es: seq<Event>, fs: seq<Event>)
    requires Equivalent(es, fs)
    ensures Build(stack, es) == Build(stack, fs)
    decreases es
  {
    if es != [] {
      assert SameEvent(es[0], fs[0]);
      assert Handle(stack, es[0]) == Handle(stack, fs[0]);
      hide Handle;
      if Handle(stack, es[0]).Some? {
        assert Equivalent(es[1..], fs[1..]) by {
          forall i | 0 <= i < |es[1..]| ensures SameEvent(es[1..][i], fs[1..][i]) {
            assert SameEvent(es[i + 1], fs[i + 1]);
          }
        }
        BuildEquivalent(Handle(stack, es[0]).value, es[1..], fs[1..]);
      }
    }
  }

  /** The one-root assertion of `ParseStream` holds for every accepted text: its events are those of the one tree built. */
  lemma AcceptedBuildsOne(f: Flags, s: Bytes) returns (x: Value)
    requires DocumentAt(f, s).Good?
    ensures Build([], DocumentAt(f, s).events) == Some([x])
    ensures Equivalent(DocumentAt(f, s).events, Events(TextReader, x))
  {
    hide Build, ValueAt, Skip, Events, Equivalent;
    var t := Skip(f, s).rest;
    x := ValueSpells(f, t);
    var es := ValueAt(f, t).events;
    assert es + [] == es;
    BuildEquivalent([], es, Events(TextReader, x));
    BuildValue(TextReader, x, []);
    assert [] + [x] == [x];
  }

  /** `ParseStream` and `ParseInsitu`, with either parser. */
  method ParseStream(text: array<Byte>, flags: Flags, insitu: bool, iterative: bool) returns (root: Option<Value>)
    requires 1 <= text.Length && text[text.Length - 1] == 0
    modifies text
    ensures var o := DocumentAt(flags, old(text[..text.Length - 1]));
            && (root.Some? <==> o.Good?)
            && (root.Some? ==> Build([], o.events) == Some([root.value]))
    ensures !insitu ==> text[..] == old(text[..])
  {
    hide DocumentAt, Build;
    ghost var s := text[..text.Length - 1];
    var good, events := ReadText(text, flags, insitu, iterative);
    root := None;
    if good {
      var x := AcceptedBuildsOne(flags, s);
      var document := new GenericDocument();
      document.Receive(events);
      assert |document.stack| == 1;
      root := Some(document.stack[0]);
    }
  }

  /** Runs either parser on a text. */
  method ReadText(text: array<Byte>, flags: Flags, insitu: bool, iterative: bool)
      returns (good: bool, events: seq<Event>)
    requires 1 <= text.Length && text[text.Length - 1] == 0
    modifies text
    ensures var o := DocumentAt(flags, old(text[..text.Length - 1]));
            (good <==> o.Good?) && (good ==> events == o.events)
    ensures !insitu ==> text[..] == old(text[..])
  {
    hide DocumentAt, IterativeAt;
    ghost var s := text[..text.Length - 1];
    var reader := new R.Reader(text, flags, insitu);
    assert reader.Rest() == s;
    SameVerdict(flags, s);
    SameEvents(flags, s);
    if iterative {
      reader.IterativeParse();
    } else {
      reader.Parse();
    }
    ghost var o := DocumentAt(flags, s);
    assert [] + o.events == o.events;
    good, events := reader.result == R.NoError, reader.events;
  }

  lemma SameEvents(f: Flags, s: Bytes)
    ensures IterativeAt(f, s).Good? ==> IterativeAt(f, s) == DocumentAt(f, s)
  {
    hide DocumentAt, StartsStray;
  }

  lemma SameVerdict(f: Flags, s: Bytes)
    ensures IterativeAt(f, s).Good? == DocumentAt(f, s).Good?
    ensures IterativeAt(f, s) == DocumentAt(f, s) <==> !StartsStray(f, s)
    ensures StartsStray(f, s) ==>
              && DocumentAt(f, s) == Bad([], ValueInvalid, |Skip(f, s).rest|)
              && IterativeAt(f, s) == Bad([], DocumentEmpty, |Skip(f, s).rest|)
  {
    if StartsStray(f, s) {
      hide Skip, DoubleGuard;
      assert ValueAt(f, Skip(f, s).rest) == Bad([], ValueInvalid, |Skip(f, s).rest|);
    }
  }

  /** The text "]" is an invalid value to the recursive parser and an empty document to the iterative one. */
  lemma StrayBracket(f: Flags)
    ensures DocumentAt(f, [0x5D]) == Bad([], ValueInvalid, 1) && IterativeAt(f, [0x5D]) == Bad([], DocumentEmpty, 1)
  {
    hide DocumentAt, IterativeAt;
    SameVerdict(f, [0x5D]);
  }

  /** What a parse leaves behind: the error if any, the events delivered, and where an accepted text ended. */
  datatype Report = Report(result: R.ParseResult, events: seq<Event>, end: Option<nat>)

  method RunParser(text: Bytes, flags: Flags, insitu: bool, iterative: bool) returns (report: Report)
    ensures report == ReportOf(|text|, if iterative then IterativeAt(flags, text) else DocumentAt(flags, text))
  {
    hide DocumentAt, IterativeAt, ReportOf;
    var buf := new Byte[|text| + 1](i requires 0 <= i < |text| + 1 => if i < |text| then text[i] else 0);
    assert buf[..buf.Length - 1] == text;
    report := RunReader(buf, flags, insitu, iterative);
  }

  method RunReader(buf: array<Byte>, flags: Flags, insitu: bool, iterative: bool) returns (report: Report)
    requires 1 <= buf.Length && buf[buf.Length - 1] == 0
    modifies buf
    ensures var s := old(buf[..buf.Length - 1]);
            report == ReportOf(|s|, if iterative then IterativeAt(flags, s) else DocumentAt(flags, s))
  {
    hide DocumentAt, IterativeAt, ReportOf;
    var reader := new R.Reader(buf, flags, insitu);
    ghost var s := reader.Rest();
    assert s == buf[..buf.Length - 1];
    ghost var o := if iterative then IterativeAt(flags, s) else DocumentAt(flags, s);
    hide R.Reader.Valid, R.Reader.Rest;
    if iterative {
      reader.IterativeParse();
    } else {
      reader.Parse();
    }
    report := Report(reader.result, reader.events, if reader.result == R.NoError then Some(reader.pos) else None);
    ReportMeans(|s|, o);
  }

  lemma ReportMeans(length: nat, o: Outcome)
    ensures o.Good? && |o.rest| <= length ==> ReportOf(length, o) == Report(R.NoError, [] + o.events, Some(length - |o.rest|))
    ensures o.Bad? ==> ReportOf(length, o) == Report(R.ParseError(o.code, length - o.left), [] + o.events, None)
  {
    assert [] + o.events == o.events;
  }

  function ReportOf(length: nat, o: Outcome): Report {
    match o
    case Good(events, rest) => Report(R.NoError, events, if |rest| <= length then Some(length - |rest|) else None)
    case Bad(events, code, left) => Report(R.ParseError(code, length - left), events, None)
  }

  /**
    Both parsers on the same text: they accept alike, deliver the same events and stop at the same place, and report
    the same error at the same offset, except that a stray structural byte in front is an invalid value to one and
    an empty document to the other.
   */
  method RunBoth(text: Bytes, flags: Flags, insitu: bool) returns (recursive: Report, iterative: Report)
    ensures recursive.result.NoError? <==> iterative.result.NoError?
    ensures recursive.events == iterative.events && recursive.end == iterative.end
    ensures recursive == iterative <==> !StartsStray(flags, text)
    ensures StartsStray(flags, text) ==>
              && recursive.result.ParseError? && iterative.result.ParseError?
              && recursive.result.offset == iterative.result.offset
              && recursive.result.code == ValueInvalid && iterative.result.code == DocumentEmpty
  {
    hide DocumentAt, IterativeAt, StartsStray, Skip;
    SameVerdict(flags, text);
    recursive := RunParser(text, flags, insitu, false);
    iterative := RunParser(text, flags, insitu, true);
  }
}
