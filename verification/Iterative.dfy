/**
  The table-driven LL(1) parser: its tables, its frame stack, and what remains to be parsed
  when the machine stands in a given state over a given stack of open arrays and objects.
 */
module Iterative {
  import opened Json
  import opened Numbers
  import opened ReaderSpec

  datatype State =
    | Start | Finish | ErrorState
    | ObjectInitial | MemberKey | KeyValueDelimiter | MemberValue | MemberDelimiter | ObjectFinish
    | ArrayInitial | Element | ElementDelimiter | ArrayFinish
    | SingleValue

  datatype Token =
    | LeftBracket | RightBracket | LeftCurly | RightCurly | Comma | Colon
    | StringToken | FalseToken | TrueToken | NullToken | NumberToken

  function Tokenize(c: Byte): Token {
    if c == 0x22 then StringToken
    else if c == 0x2C then Comma
    else if c == 0x3A then Colon
    else if c == 0x5B then LeftBracket
    else if c == 0x5D then RightBracket
    else if c == 0x66 then FalseToken
    else if c == 0x6E then NullToken
    else if c == 0x74 then TrueToken
    else if c == 0x7B then LeftCurly
    else if c == 0x7D then RightCurly
    else NumberToken
  }

  predicate IsScalarToken(t: Token) {
    t == StringToken || t == FalseToken || t == TrueToken || t == NullToken || t == NumberToken
  }

  /** The table G, row by row. */
  function Predict(state: State, token: Token): State {
    match state
    case Start =>
      if token == LeftBracket then ArrayInitial
      else if token == LeftCurly then ObjectInitial
      else if IsScalarToken(token) then SingleValue
      else ErrorState
    case ObjectInitial =>
      if token == RightCurly then ObjectFinish else if token == StringToken then MemberKey else ErrorState
    case MemberKey =>
      if token == Colon then KeyValueDelimiter else ErrorState
    case KeyValueDelimiter =>
      if token == LeftBracket then ArrayInitial
      else if token == LeftCurly then ObjectInitial
      else if IsScalarToken(token) then MemberValue
      else ErrorState
    case MemberValue =>
      if token == RightCurly then ObjectFinish else if token == Comma then MemberDelimiter else ErrorState
    case MemberDelimiter =>
      if token == RightCurly then ObjectFinish else if token == StringToken then MemberKey else ErrorState
    case ArrayInitial =>
      if token == LeftBracket then ArrayInitial
      else if token == RightBracket then ArrayFinish
      else if token == LeftCurly then ObjectInitial
      else if IsScalarToken(token) then Element
      else ErrorState
    case Element =>
      if token == RightBracket then ArrayFinish else if token == Comma then ElementDelimiter else ErrorState
    case ElementDelimiter =>
      if token == LeftBracket then ArrayInitial
      else if token == RightBracket then ArrayFinish
      else if token == LeftCurly then ObjectInitial
      else if IsScalarToken(token) then Element
      else ErrorState
    case _ => ErrorState
  }

  // ---------------------------------------------------------------- the frame stack

  /** An open array or object: the state to resume when it closes, and its completed entries. */
  datatype Frame = Frame(state: State, count: nat)

  /** The enumerator values stored in the stack's `SizeType` slots. */
  function Code(state: State): nat {
    match state
    case Start => 0 case Finish => 1 case ErrorState => 2
    case ObjectInitial => 3 case MemberKey => 4 case KeyValueDelimiter => 5
    case MemberValue => 6 case MemberDelimiter => 7 case ObjectFinish => 8
    case ArrayInitial => 9 case Element => 10 case ElementDelimiter => 11 case ArrayFinish => 12
    case SingleValue => 13
  }

  /** The cast back from a stored `SizeType`. */
  function Decode(code: nat): State {
    match code
    case 0 => Start case 1 => Finish case 2 => ErrorState
    case 3 => ObjectInitial case 4 => MemberKey case 5 => KeyValueDelimiter
    case 6 => MemberValue case 7 => MemberDelimiter case 8 => ObjectFinish
    case 9 => ArrayInitial case 10 => Element case 11 => ElementDelimiter case 12 => ArrayFinish
    case _ => SingleValue
  }

  lemma DecodeCode(state: State)
    ensures Decode(Code(state)) == state
  {
  }

  /** The stack as the source lays it out: each frame is its state followed by its count. */
  function Flatten(frames: seq<Frame>): (cells: seq<nat>)
    ensures |cells| == 2 * |frames|
  {
    if frames == [] then []
    else
      var top := frames[|frames| - 1];
      Flatten(frames[..|frames| - 1]) + [Code(top.state), top.count]
  }

  lemma FlattenPush(frames: seq<Frame>, top: Frame)
    ensures Flatten(frames + [top]) == Flatten(frames) + [Code(top.state), top.count]
  {
    assert (frames + [top])[..|frames|] == frames;
  }

  lemma FlattenTop(frames: seq<Frame>)
    requires frames != []
    ensures var top := frames[|frames| - 1];
            Flatten(frames) == Flatten(frames[..|frames| - 1]) + [Code(top.state), top.count]
  {
  }

  /** Start only at the bottom, Element or MemberValue above. */
  predicate WellNested(frames: seq<Frame>) {
    forall i :: 0 <= i < |frames| ==>
      if i == 0 then frames[i].state == Start else frames[i].state == Element || frames[i].state == MemberValue
  }

  predicate InArray(state: State) {
    state == ArrayInitial || state == Element || state == ElementDelimiter
  }

  predicate InObject(state: State) {
    state == ObjectInitial || state == MemberKey || state == KeyValueDelimiter
    || state == MemberValue || state == MemberDelimiter
  }

  /** The states the loop can stand in, with the stack each one needs. */
  predicate Consistent(state: State, frames: seq<Frame>) {
    && WellNested(frames)
    && (state == Start || state == Finish ==> frames == [])
    && (InArray(state) || InObject(state) ==> frames != [])
    && (state == Start || state == Finish || InArray(state) || InObject(state))
  }

  // ---------------------------------------------------------------- what is left to do

  /** Finishing the innermost open array or object from `state`. */
  function Current(f: Flags, state: State, count: nat, s: Bytes): (o: Outcome)
    requires InArray(state) || InObject(state)
    ensures o.Good? ==> |o.rest| < |s|
  {
    match state
    case ArrayInitial => AtArrayInitial(f, s)
    case Element => AtElementEnd(f, s, count)
    case ElementDelimiter => AtElementDelimiter(f, s, count)
    case ObjectInitial => AtObjectInitial(f, s)
    case MemberKey => AtKeyEnd(f, s, count)
    case KeyValueDelimiter => AtMemberValue(f, s, count)
    case MemberValue => AtMemberEnd(f, s, count)
    case MemberDelimiter => AtMemberDelimiter(f, s, count)
  }

  /** Finishing the whole document once the innermost compound has ended with outcome `o`. */
  function Unwind(f: Flags, frames: seq<Frame>, o: Outcome): Outcome
    requires frames != [] && WellNested(frames)
    decreases |frames|
  {
    var top := frames[|frames| - 1];
    if o.Bad? then o
    else if |frames| == 1 then Prepend(o.events, AtRootEnd(f, o.rest))
    else
      match Skip(f, o.rest)
      case SkipError(left) => Bad(o.events, UnspecificSyntaxError, left)
      case Skipped(t) =>
        var outer := frames[..|frames| - 1];
        Prepend(o.events, Unwind(f, outer, Current(f, top.state, outer[|outer| - 1].count, t)))
  }

  /** The rest of the run, from a state reached after white space was skipped. */
  function Resume(f: Flags, state: State, frames: seq<Frame>, s: Bytes): Outcome
    requires Consistent(state, frames)
  {
    if state == Start then
      if Peek(s) == 0 || IsStray(Peek(s)) then Bad([], DocumentEmpty, |s|)
      else
        (match ValueAt(f, s)
         case Bad(es, code, left) => Bad(es, code, left)
         case Good(es, r) => Prepend(es, AtRootEnd(f, r)))
    else if state == Finish then
      if f.stopWhenDone || Peek(s) == 0 then Good([], s) else Bad([], DocumentRootNotSingular, |s|)
    else Unwind(f, frames, Current(f, state, frames[|frames| - 1].count, s))
  }

  /** The rest of the run from a state just entered, before white space is skipped. */
  function ResumeAfterSkip(f: Flags, state: State, frames: seq<Frame>, s: Bytes): Outcome
    requires Consistent(state, frames)
  {
    if f.stopWhenDone && state == Finish then Good([], s)
    else
      match Skip(f, s)
      case SkipError(left) => Bad([], UnspecificSyntaxError, left)
      case Skipped(t) => Resume(f, state, frames, t)
  }

  lemma PrependPrepend(a: seq<Event>, b: seq<Event>, o: Outcome)
    ensures Prepend(a, Prepend(b, o)) == Prepend(a + b, o)
  {
    assert a + (b + o.events) == a + b + o.events;
  }

  lemma PrependNothing(o: Outcome)
    ensures Prepend([], o) == o
  {
    assert [] + o.events == o.events;
  }

  lemma UnwindPrepend(f: Flags, frames: seq<Frame>, es: seq<Event>, o: Outcome)
    requires frames != [] && WellNested(frames)
    ensures Unwind(f, frames, Prepend(es, o)) == Prepend(es, Unwind(f, frames, o))
  {
    if o.Good? {
      if |frames| == 1 {
        PrependPrepend(es, o.events, AtRootEnd(f, o.rest));
      } else if Skip(f, o.rest).Skipped? {
        var outer := frames[..|frames| - 1];
        var state := frames[|frames| - 1].state;
        PrependPrepend(es, o.events,
          Unwind(f, outer, Current(f, state, outer[|outer| - 1].count, Skip(f, o.rest).rest)));
      }
    }
  }

  /** The state pushed when a compound opens in `src`. */
  function ReturnState(src: State): State {
    if src == ArrayInitial || src == ElementDelimiter then Element
    else if src == KeyValueDelimiter then MemberValue
    else src
  }

  predicate ExpectsValue(state: State) {
    state == Start || state == ArrayInitial || state == ElementDelimiter || state == KeyValueDelimiter
  }

  /** Where a finished scalar leaves the machine. */
  function AfterValue(src: State): State {
    if src == Start then Finish else ReturnState(src)
  }

  /** Events `es`, white space, then the innermost compound from `state`. */
  function SkipThen(f: Flags, es: seq<Event>, state: State, count: nat, s: Bytes): Outcome
    requires InArray(state) || InObject(state)
  {
    match Skip(f, s)
    case SkipError(left) => Bad(es, UnspecificSyntaxError, left)
    case Skipped(t) => Prepend(es, Current(f, state, count, t))
  }

  /** The value that comes next, then what the innermost compound makes of it. */
  function AfterNested(f: Flags, state: State, count: nat, o: Outcome): Outcome
    requires InArray(state) || InObject(state)
  {
    if o.Bad? then o else SkipThen(f, o.events, state, count, o.rest)
  }

  lemma CurrentValue(f: Flags, state: State, count: nat, s: Bytes)
    requires ExpectsValue(state) && state != Start
    requires Peek(s) != 0 && !IsStray(Peek(s))
    requires state == ArrayInitial ==> count == 0
    ensures Current(f, state, count, s) == AfterNested(f, ReturnState(state), count, ValueAt(f, s))
  {
    match state
    case ArrayInitial => assert AtArrayInitial(f, s) == AtElement(f, s, 0);
    case ElementDelimiter => assert AtElementDelimiter(f, s, count) == AtElement(f, s, count);
    case KeyValueDelimiter =>
  }

  lemma RootEnd(f: Flags, s: Bytes)
    ensures ResumeAfterSkip(f, Finish, [], s) == AtRootEnd(f, s)
  {
  }

  /** A state that expects a value behaves, on a value, as the value followed by the state after it. */
  lemma ResumeValue(f: Flags, state: State, frames: seq<Frame>, s: Bytes)
    requires Consistent(state, frames) && ExpectsValue(state)
    requires Peek(s) != 0 && !IsStray(Peek(s))
    requires state == ArrayInitial ==> frames[|frames| - 1].count == 0
    ensures ValueAt(f, s).Bad? ==> Resume(f, state, frames, s) == ValueAt(f, s)
    ensures var o := ValueAt(f, s);
            o.Good? ==>
              Resume(f, state, frames, s) == Prepend(o.events, ResumeAfterSkip(f, AfterValue(state), frames, o.rest))
  {
    var o := ValueAt(f, s);
    if state == Start {
      if o.Good? {
        RootEnd(f, o.rest);
      }
    } else {
      var count := frames[|frames| - 1].count;
      CurrentValue(f, state, count, s);
      if o.Good? && Skip(f, o.rest).Skipped? {
        UnwindPrepend(f, frames, o.events, Current(f, ReturnState(state), count, Skip(f, o.rest).rest));
      }
    }
  }

  lemma CompoundValue(f: Flags, s: Bytes, entered: State, event: Event)
    requires (Peek(s) == 0x5B && entered == ArrayInitial && event == StartArray)
             || (Peek(s) == 0x7B && entered == ObjectInitial && event == StartObject)
    ensures ValueAt(f, s) == SkipThen(f, [event], entered, 0, s[1..])
  {
  }

  lemma UnwindPushed(f: Flags, state: State, frames: seq<Frame>, o: Outcome)
    requires Consistent(state, frames) && ExpectsValue(state)
    ensures WellNested(frames + [Frame(ReturnState(state), 0)])
    ensures Unwind(f, frames + [Frame(ReturnState(state), 0)], o)
            == if o.Bad? then o
               else Prepend(o.events, ResumeAfterSkip(f, AfterValue(state), frames, o.rest))
  {
    hide ValueAt, Current, AtRootEnd, Skip;
    var inner := frames + [Frame(ReturnState(state), 0)];
    assert inner[..|inner| - 1] == frames;
    assert inner[|inner| - 1] == Frame(ReturnState(state), 0);
    if state == Start && o.Good? {
      RootEnd(f, o.rest);
    }
  }

  /** Opening a compound pushes a frame whose unwinding is the rest of the enclosing state. */
  lemma ResumeOpen(f: Flags, state: State, frames: seq<Frame>, s: Bytes, entered: State, event: Event)
    requires Consistent(state, frames) && ExpectsValue(state)
    requires state == ArrayInitial ==> frames[|frames| - 1].count == 0
    requires (Peek(s) == 0x5B && entered == ArrayInitial && event == StartArray)
             || (Peek(s) == 0x7B && entered == ObjectInitial && event == StartObject)
    ensures Consistent(entered, frames + [Frame(ReturnState(state), 0)])
    ensures Resume(f, state, frames, s)
            == Prepend([event], ResumeAfterSkip(f, entered, frames + [Frame(ReturnState(state), 0)], s[1..]))
  {
    hide ValueAt, Current, Unwind, AtRootEnd, Skip, WellNested;
    var inner := frames + [Frame(ReturnState(state), 0)];
    CompoundValue(f, s, entered, event);
    ResumeValue(f, state, frames, s);
    match Skip(f, s[1..])
    case SkipError(left) =>
      UnwindPushed(f, state, frames, Bad([], UnspecificSyntaxError, left));
    case Skipped(t) =>
      var o := Current(f, entered, 0, t);
      UnwindPushed(f, state, frames, o);
      assert Resume(f, entered, inner, t) == Unwind(f, inner, o);
      if o.Good? {
        PrependPrepend([event], o.events, ResumeAfterSkip(f, AfterValue(state), frames, o.rest));
      }
  }

  /** Where closing the innermost compound leads. */
  function AfterClose(frames: seq<Frame>): State
    requires frames != []
  {
    var state := frames[|frames| - 1].state;
    if state == Start then Finish else state
  }

  /** A closed compound is popped and the enclosing state goes on. */
  lemma ResumeClose(f: Flags, state: State, frames: seq<Frame>, s: Bytes, event: Event, r: Bytes)
    requires Consistent(state, frames) && (InArray(state) || InObject(state))
    requires Current(f, state, frames[|frames| - 1].count, s) == Good([event], r)
    ensures Consistent(AfterClose(frames), frames[..|frames| - 1])
    ensures Resume(f, state, frames, s)
            == Prepend([event], ResumeAfterSkip(f, AfterClose(frames), frames[..|frames| - 1], r))
  {
    hide Skip, ValueAt;
    var outer := frames[..|frames| - 1];
    if |frames| > 1 {
      assert outer[|outer| - 1] == frames[|frames| - 2];
    }
  }

  /** A step inside the innermost compound that yields no event or one key. */
  lemma ResumeInside(f: Flags, state: State, frames: seq<Frame>, s: Bytes, es: seq<Event>,
                     next: State, count: nat, r: Bytes)
    requires Consistent(state, frames) && (InArray(state) || InObject(state)) && (InArray(next) || InObject(next))
    requires Current(f, state, frames[|frames| - 1].count, s) == SkipThen(f, es, next, count, r)
    ensures var changed := frames[|frames| - 1 := frames[|frames| - 1].(count := count)];
            Consistent(next, changed)
            && Resume(f, state, frames, s) == Prepend(es, ResumeAfterSkip(f, next, changed, r))
  {
    hide Skip, ValueAt, Current, Unwind, AtRootEnd;
    var changed := frames[|frames| - 1 := frames[|frames| - 1].(count := count)];
    UnwindBad(f, frames, es);
    if Skip(f, r).Skipped? {
      var o := Current(f, next, count, Skip(f, r).rest);
      UnwindPrepend(f, frames, es, o);
      UnwindSameBelow(f, frames, changed, o);
    }
  }

  /** Unwinding ignores the count of the frame being closed. */
  lemma UnwindBad(f: Flags, frames: seq<Frame>, es: seq<Event>)
    requires frames != [] && WellNested(frames)
    ensures forall code, left :: Unwind(f, frames, Bad(es, code, left)) == Prepend(es, Bad([], code, left))
  {
    assert es + [] == es;
  }

  lemma UnwindSameBelow(f: Flags, frames: seq<Frame>, changed: seq<Frame>, o: Outcome)
    requires frames != [] && WellNested(frames) && WellNested(changed)
    requires |changed| == |frames| && changed[..|frames| - 1] == frames[..|frames| - 1]
    requires changed[|frames| - 1].state == frames[|frames| - 1].state
    ensures Unwind(f, frames, o) == Unwind(f, changed, o)
  {
  }

  /** An array or object that was just entered has no counted entry. */
  predicate FreshlyEntered(state: State, frames: seq<Frame>) {
    (state == ArrayInitial || state == ObjectInitial) && frames != [] ==> frames[|frames| - 1].count == 0
  }

  /** The codes of `HandleError`. */
  function ErrorFor(src: State): ErrorCode {
    match src
    case Start => DocumentEmpty
    case Finish => DocumentRootNotSingular
    case ObjectInitial => ObjectMissName
    case MemberDelimiter => ObjectMissName
    case MemberKey => ObjectMissColon
    case MemberValue => ObjectMissCommaOrCurlyBracket
    case KeyValueDelimiter => ValueInvalid
    case ArrayInitial => ValueInvalid
    case ElementDelimiter => ValueInvalid
    case _ => ArrayMissCommaOrSquareBracket
  }

  /** No value starts at the terminator or at a stray structural byte. */
  lemma NoValueAt(f: Flags, s: Bytes)
    requires Peek(s) == 0 || IsStray(Peek(s))
    ensures ValueAt(f, s) == Bad([], ValueInvalid, |s|)
  {
  }

  /** Where the table has no entry, the grammar fails too, with the code `HandleError` gives. */
  lemma ResumeStuck(f: Flags, state: State, frames: seq<Frame>, s: Bytes)
    requires Consistent(state, frames) && FreshlyEntered(state, frames)
    requires Peek(s) == 0 || Predict(state, Tokenize(Peek(s))) == ErrorState
    requires Peek(s) == 0 ==> state != Finish
    requires Peek(s) != 0 ==> !(f.stopWhenDone && state == Finish)
    ensures Resume(f, state, frames, s) == Bad([], ErrorFor(state), |s|)
  {
    if ExpectsValue(state) {
      NoValueAt(f, s);
    }
    if state == ArrayInitial {
      assert AtArrayInitial(f, s) == AtElement(f, s, 0);
    } else if state == ElementDelimiter {
      var count := frames[|frames| - 1].count;
      assert AtElementDelimiter(f, s, count) == AtElement(f, s, count);
    } else if state == ObjectInitial {
      assert AtObjectInitial(f, s) == AtKey(f, s, 0);
    } else if state == MemberDelimiter {
      var count := frames[|frames| - 1].count;
      assert AtMemberDelimiter(f, s, count) == AtKey(f, s, count);
    }
  }

  /** A trailing comma that the flags do not allow. */
  lemma ResumeTrailing(f: Flags, state: State, frames: seq<Frame>, s: Bytes)
    requires Consistent(state, frames) && !f.trailingCommas
    requires (state == ElementDelimiter && Peek(s) == 0x5D) || (state == MemberDelimiter && Peek(s) == 0x7D)
    ensures Resume(f, state, frames, s) == Bad([], ErrorFor(state), |s|)
  {
    var count := frames[|frames| - 1].count;
    if state == ElementDelimiter {
      NoValueAt(f, s);
      assert AtElementDelimiter(f, s, count) == AtElement(f, s, count);
    } else {
      assert AtMemberDelimiter(f, s, count) == AtKey(f, s, count);
    }
  }

  /** A key is read where one is expected. */
  lemma CurrentKey(f: Flags, state: State, count: nat, s: Bytes)
    requires state == ObjectInitial || state == MemberDelimiter
    requires state == ObjectInitial ==> count == 0
    requires Peek(s) == 0x22
    ensures var o := StringEventAt(s, true);
            Current(f, state, count, s) == if o.Bad? then o else SkipThen(f, o.events, MemberKey, count, o.rest)
  {
    assert Current(f, state, count, s) == AtKey(f, s, count);
  }
}
