/**
  The document builder: SAX events in, one tree out, through the value stack of `GenericDocument`.
 */
module Document {
  import opened Json

  // ---------------------------------------------------------------- the flag word of a number

  datatype Flag = NumberF | IntF | UintF | Int64F | Uint64F

  /** The flags each of the four integer constructors of `GenericValue` sets, bit test by bit test. */
  function ConstructorFlags(kind: NumKind, n: int): set<Flag>
    requires InKind(kind, n)
  {
    match kind
    case Int =>
      {NumberF, IntF, Int64F} + (if n >= 0 then {UintF, Uint64F} else {})
    case Uint =>
      {NumberF, UintF, Uint64F, Int64F} + (if n / 0x8000_0000 % 2 == 0 then {IntF, Int64F} else {})
    case Int64 =>
      {NumberF, Int64F} +
      (if n >= 0 then
         {Uint64F}
         + (if n / 0x1_0000_0000 == 0 then {UintF} else {})
         + (if n / 0x8000_0000 == 0 then {IntF} else {})
       else if n >= -0x8000_0000 then {IntF}
       else {})
    case Uint64 =>
      {NumberF, Uint64F}
      + (if n / 0x8000_0000_0000_0000 % 2 == 0 then {Int64F} else {})
      + (if n / 0x1_0000_0000 == 0 then {UintF} else {})
      + (if n / 0x8000_0000 == 0 then {IntF} else {})
  }

  /** The flag word says exactly which of the four integer types can hold the value. */
  lemma FlagsAreRanges(kind: NumKind, n: int)
    requires InKind(kind, n)
    ensures NumberF in ConstructorFlags(kind, n)
    ensures IntF in ConstructorFlags(kind, n) <==> InKind(Int, n)
    ensures UintF in ConstructorFlags(kind, n) <==> InKind(Uint, n)
    ensures Int64F in ConstructorFlags(kind, n) <==> InKind(Int64, n)
    ensures Uint64F in ConstructorFlags(kind, n) <==> InKind(Uint64, n)
  {
  }

  /** Hence it depends on the value alone, not on the callback that delivered it. */
  lemma FlagsDependOnValue(k1: NumKind, k2: NumKind, n: int)
    requires InKind(k1, n) && InKind(k2, n)
    ensures ConstructorFlags(k1, n) == ConstructorFlags(k2, n)
  {
    FlagsAreRanges(k1, n);
    FlagsAreRanges(k2, n);
    forall f: Flag ensures f in ConstructorFlags(k1, n) <==> f in ConstructorFlags(k2, n) {
      match f case NumberF => case IntF => case UintF => case Int64F => case Uint64F =>
    }
  }

  /** `Accept` reads the flags in the order IsInt, IsUint, IsInt64. */
  function VisitedKind(flags: set<Flag>): NumKind {
    if IntF in flags then Int else if UintF in flags then Uint else if Int64F in flags then Int64 else Uint64
  }

  lemma VisitorKind(kind: NumKind, n: JsonInt)
    requires InKind(kind, n)
    ensures VisitedKind(ConstructorFlags(kind, n)) == KindFor(Visitor, n)
  {
    FlagsAreRanges(kind, n);
  }

  // ---------------------------------------------------------------- the value stack

  /** Reads popped cells as members, two values each; names must be strings. */
  predicate ArePairs(cells: seq<Value>) {
    |cells| % 2 == 0 && forall i :: 0 <= i < |cells| && i % 2 == 0 ==> cells[i].String?
  }

  function Pairs(cells: seq<Value>): (ms: seq<Member>)
    requires ArePairs(cells)
    ensures |ms| == |cells| / 2
  {
    if cells == [] then []
    else
      assert ArePairs(cells[2..]) by {
        forall i | 0 <= i < |cells[2..]| && i % 2 == 0 ensures cells[2..][i].String? {
          assert cells[2..][i] == cells[i + 2];
        }
      }
      [Member(cells[0].s, cells[1])] + Pairs(cells[2..])
  }

  /** One handler call; None is a failed assertion of the source. */
  function Handle(stack: seq<Value>, e: Event): Option<seq<Value>> {
    match e
    case NullE => Some(stack + [Null])
    case BoolE(b) => Some(stack + [Bool(b)])
    case NumE(_, n) => Some(stack + [Integer(n)])
    case DoubleE(lexeme) => Some(stack + [Double(lexeme)])
    case StringE(s) => Some(stack + [String(s)])
    case Key(s) => Some(stack + [String(s)])
    case StartObject => Some(stack + [Object([])])
    case StartArray => Some(stack + [Array([])])
    case EndObject(count) =>
      if |stack| < 2 * count + 1 then None
      else
        var base := |stack| - 2 * count;
        if stack[base - 1].Object? && ArePairs(stack[base..]) then Some(stack[..base - 1] + [Object(Pairs(stack[base..]))])
        else None
    case EndArray(count) =>
      if |stack| < count + 1 then None
      else
        var base := |stack| - count;
        if stack[base - 1].Array? then Some(stack[..base - 1] + [Array(stack[base..])]) else None
  }

  function Build(stack: seq<Value>, es: seq<Event>): Option<seq<Value>>
    decreases es
  {
    if es == [] then Some(stack)
    else
      match Handle(stack, es[0])
      case None => None
      case Some(next) => Build(next, es[1..])
  }

  function BuildOn(o: Option<seq<Value>>, es: seq<Event>): Option<seq<Value>> {
    if o.None? then None else Build(o.value, es)
  }

  lemma {:induction false} BuildConcat(stack: seq<Value>, a: seq<Event>, b: seq<Event>)
    ensures Build(stack, a + b) == BuildOn(Build(stack, a), b)
    decreases |a|
  {
    if a == [] {
      assert a + b == b;
    } else {
      assert (a + b)[0] == a[0] && (a + b)[1..] == a[1..] + b;
      match Handle(stack, a[0])
      case None =>
      case Some(next) => BuildConcat(next, a[1..], b);
    }
  }

  /** The cells an object's members leave on the stack. */
  function Cells(ms: seq<Member>): (cells: seq<Value>)
    ensures |cells| == 2 * |ms|
    ensures ArePairs(cells)
  {
    if ms == [] then [] else [String(ms[0].name), ms[0].value] + Cells(ms[1..])
  }

  lemma {:induction false} PairsOfCells(ms: seq<Member>)
    ensures Pairs(Cells(ms)) == ms
  {
    if ms != [] {
      PairsOfCells(ms[1..]);
      assert Cells(ms)[2..] == Cells(ms[1..]);
      assert [ms[0]] + ms[1..] == ms;
    }
  }

  lemma BuildOne(stack: seq<Value>, e: Event)
    ensures Build(stack, [e]) == Handle(stack, e)
  {
    assert [e][1..] == [];
    if Handle(stack, e).Some? {
      assert Build(Handle(stack, e).value, []) == Handle(stack, e);
    }
  }

  lemma BuildBracket(stack: seq<Value>, open: Event, es: seq<Event>, close: Event, inside: seq<Value>, filled: seq<Value>)
    requires Handle(stack, open) == Some(inside)
    requires Build(inside, es) == Some(filled)
    ensures Build(stack, [open] + es + [close]) == Handle(filled, close)
  {
    BuildOne(stack, open);
    BuildConcat(stack, [open], es);
    BuildConcat(stack, [open] + es, [close]);
    BuildOne(filled, close);
  }

  lemma CloseArray(stack: seq<Value>, vs: seq<Value>)
    ensures Handle(stack + [Array([])] + vs, EndArray(|vs|)) == Some(stack + [Array(vs)])
  {
    var filled := stack + [Array([])] + vs;
    assert filled[|stack| + 1..] == vs && filled[..|stack|] == stack;
  }

  lemma CloseObject(stack: seq<Value>, ms: seq<Member>)
    ensures Handle(stack + [Object([])] + Cells(ms), EndObject(|ms|)) == Some(stack + [Object(ms)])
  {
    var filled := stack + [Object([])] + Cells(ms);
    assert filled[|stack| + 1..] == Cells(ms) && filled[..|stack|] == stack;
    PairsOfCells(ms);
  }

  /** Replaying a tree leaves exactly that tree above the starting stack. */
  lemma {:induction false} BuildValue(p: Producer, v: Value, stack: seq<Value>)
    ensures Build(stack, Events(p, v)) == Some(stack + [v])
    decreases v
  {
    match v
    case Array(elements) =>
      hide Build;
      var inside := stack + [Array([])];
      BuildElements(p, elements, inside);
      BuildBracket(stack, StartArray, ElementEvents(p, elements), EndArray(|elements|), inside, inside + elements);
      CloseArray(stack, elements);
    case Object(members) =>
      hide Build;
      var inside := stack + [Object([])];
      BuildMembers(p, members, inside);
      BuildBracket(stack, StartObject, MemberEvents(p, members), EndObject(|members|), inside, inside + Cells(members));
      CloseObject(stack, members);
    case _ =>
      BuildOne(stack, Events(p, v)[0]);
  }

  lemma {:induction false} BuildElements(p: Producer, vs: seq<Value>, stack: seq<Value>)
    ensures Build(stack, ElementEvents(p, vs)) == Some(stack + vs)
    decreases vs
  {
    if vs == [] {
      assert stack + vs == stack;
    } else {
      hide Build;
      BuildValue(p, vs[0], stack);
      BuildElements(p, vs[1..], stack + [vs[0]]);
      BuildConcat(stack, Events(p, vs[0]), ElementEvents(p, vs[1..]));
      assert stack + [vs[0]] + vs[1..] == stack + vs;
    }
  }

  lemma {:induction false} BuildMembers(p: Producer, ms: seq<Member>, stack: seq<Value>)
    ensures Build(stack, MemberEvents(p, ms)) == Some(stack + Cells(ms))
    decreases ms
  {
    if ms == [] {
      assert stack + Cells(ms) == stack;
    } else {
      assert Cells(ms) == [String(ms[0].name), ms[0].value] + Cells(ms[1..]);
      hide Build, Cells, ArePairs;
      var key, value, rest := [Key(ms[0].name)], Events(p, ms[0].value), MemberEvents(p, ms[1..]);
      var named := stack + [String(ms[0].name)];
      BuildOne(stack, Key(ms[0].name));
      BuildValue(p, ms[0].value, named);
      BuildMembers(p, ms[1..], named + [ms[0].value]);
      BuildConcat(stack, key, value);
      BuildConcat(stack, key + value, rest);
      assert named + [ms[0].value] + Cells(ms[1..]) == stack + Cells(ms);
    }
  }

  // ---------------------------------------------------------------- the handler object

  class GenericDocument {
    var stack: seq<Value>
    var root: Value

    constructor ()
      ensures stack == [] && root == Null
    {
      stack, root := [], Null;
    }

    /** Any callback other than the two closing ones pushes one value. */
    method Push(e: Event)
      requires !e.EndObject? && !e.EndArray?
      modifies this`stack
      ensures Some(stack) == Handle(old(stack), e)
    {
      match e
      case NullE => stack := stack + [Null];
      case BoolE(b) => stack := stack + [Bool(b)];
      case NumE(_, n) => stack := stack + [Integer(n)];
      case DoubleE(lexeme) => stack := stack + [Double(lexeme)];
      case StringE(s) => stack := stack + [String(s)];
      case Key(s) => stack := stack + [String(s)];
      case StartObject => stack := stack + [Object([])];
      case StartArray => stack := stack + [Array([])];
    }

    /** Pops the members and moves them into the object below them, one pair at a time. */
    method EndObject(memberCount: nat)
      requires Handle(stack, Event.EndObject(memberCount)).Some?
      modifies this`stack
      ensures Some(stack) == Handle(old(stack), Event.EndObject(memberCount))
    {
      var base := |stack| - 2 * memberCount;
      var cells := stack[base..];
      stack := stack[..base];
      var members: seq<Member> := [];
      assert cells[0..] == cells;
      for i := 0 to memberCount
        invariant ArePairs(cells[2 * i..]) && members + Pairs(cells[2 * i..]) == Pairs(cells)
        invariant stack == old(stack)[..base]
      {
        ghost var left := cells[2 * i..];
        assert left[0] == cells[2 * i] && left[1] == cells[2 * i + 1] && left[2..] == cells[2 * (i + 1)..];
        members := members + [Member(cells[2 * i].s, cells[2 * i + 1])];
      }
      assert cells[2 * memberCount..] == [] && members + [] == members;
      assert old(stack)[..base][..base - 1] == old(stack)[..base - 1];
      stack := stack[..base - 1] + [Object(members)];
    }

    method EndArray(elementCount: nat)
      requires Handle(stack, Event.EndArray(elementCount)).Some?
      modifies this`stack
      ensures Some(stack) == Handle(old(stack), Event.EndArray(elementCount))
    {
      var base := |stack| - elementCount;
      var elements := stack[base..];
      stack := stack[..base];
      assert old(stack)[..base][..base - 1] == old(stack)[..base - 1];
      stack := stack[..base - 1] + [Array(elements)];
    }

    /** Receives a run of events. */
    method Receive(es: seq<Event>)
      requires Build(stack, es).Some?
      modifies this`stack
      ensures Some(stack) == Build(old(stack), es)
    {
      assert es[0..] == es;
      for i := 0 to |es|
        invariant Build(stack, es[i..]) == Build(old(stack), es)
      {
        assert es[i..][0] == es[i] && es[i..][1..] == es[i + 1..];
        match es[i]
        case EndObject(count) => EndObject(count);
        case EndArray(count) => EndArray(count);
        case _ => Push(es[i]);
      }
    }

    /** The deep copy of `GenericValue`: the tree visits itself into a fresh document. */
    method CopyFrom(v: Value)
      requires stack == []
      modifies this
      ensures root == v && stack == []
    {
      BuildValue(Visitor, v, []);
      Receive(Events(Visitor, v));
      assert |stack| == 1;
      root := stack[0];
      stack := [];
    }
  }
}
