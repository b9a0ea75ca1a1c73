/**
  Two promises about every run of the validator: the document pointer is the JSON Pointer of the current
  location, and hashing ignores the order of members.
 */
module SchemaPath {
  import opened Json
  import opened SchemaSpec
  import opened SchemaMachine
  import opened SchemaProof
  import opened SchemaTheorem

  // ---------------------------------------------------------------- locations, without the validator

  /** An open array with the number of elements begun, or an open object with the key awaiting its value's end. */
  datatype Frame = ArrayFrame(begun: nat) | ObjectFrame(pending: bool, key: Bytes)

  datatype Place = Nowhere | Place(frames: seq<Frame>)

  /** A value begins. */
  function Enter(frames: seq<Frame>): Place {
    if frames == [] then Place([])
    else
      var n := |frames| - 1;
      match frames[n]
      case ArrayFrame(begun) => Place(frames[n := ArrayFrame(begun + 1)])
      case ObjectFrame(pending, _) => if pending then Place(frames) else Nowhere
  }

  /** The innermost value has ended; `frames` are those around it. */
  function Leave(frames: seq<Frame>): seq<Frame> {
    if frames != [] && frames[|frames| - 1].ObjectFrame? then frames[|frames| - 1 := ObjectFrame(false, [])] else frames
  }

  function Follow(frames: seq<Frame>, e: Event): Place {
    var n := |frames| - 1;
    if IsScalarEvent(e) then
      if Enter(frames).Place? then Place(Leave(Enter(frames).frames)) else Nowhere
    else if e.StartArray? || e.StartObject? then
      if Enter(frames).Place? then
        Place(Enter(frames).frames + [if e.StartArray? then ArrayFrame(0) else ObjectFrame(false, [])])
      else Nowhere
    else if e.Key? then
      if n >= 0 && frames[n] == ObjectFrame(false, []) then Place(frames[n := ObjectFrame(true, e.name)]) else Nowhere
    else if n >= 0 && (if e.EndArray? then frames[n].ArrayFrame? else frames[n] == ObjectFrame(false, [])) then
      Place(Leave(frames[..n]))
    else Nowhere
  }

  function FollowAll(frames: seq<Frame>, es: seq<Event>): Place
    decreases es
  {
    if es == [] then Place(frames)
    else if Follow(frames, es[0]).Nowhere? then Nowhere
    else FollowAll(Follow(frames, es[0]).frames, es[1..])
  }

  /** The reference token under which a frame's current child is found. */
  function ChildToken(f: Frame): Bytes {
    match f
    case ArrayFrame(begun) => if begun == 0 then [] else IndexToken(begun - 1)
    case ObjectFrame(pending, key) => if pending then NameToken(key) else []
  }

  /** The pointer to the current child of the innermost frame. */
  function ChildPath(frames: seq<Frame>): Bytes {
    if frames == [] then [] else ChildPath(frames[..|frames| - 1]) + ChildToken(frames[|frames| - 1])
  }

  /** The pointer to the current location: a key counts as soon as it is seen, an element once it begins. */
  function Location(frames: seq<Frame>): Bytes {
    if frames != [] && frames[|frames| - 1].ArrayFrame? then ChildPath(frames[..|frames| - 1]) else ChildPath(frames)
  }

  // ---------------------------------------------------------------- the validator is at that location

  predicate TracksFrame(c: Context, f: Frame) {
    match f
    case ArrayFrame(begun) => c.inArray && c.arrayElementIndex == begun
    case ObjectFrame(pending, _) => !c.inArray && (pending ==> c.valueSchema.TheSchema?)
  }

  predicate TracksFrames(cs: seq<Context>, frames: seq<Frame>) {
    |cs| == |frames| && forall i :: 0 <= i < |cs| ==> TracksFrame(cs[i], frames[i])
  }

  /** Every frame that holds another one has a current child. */
  predicate Nested(frames: seq<Frame>) {
    forall i :: 0 <= i < |frames| - 1 ==> ChildToken(frames[i]) != []
  }

  predicate Tracks(w: Validator, frames: seq<Frame>) {
    TracksFrames(w.stack, frames) && w.document == Location(frames) && Nested(frames)
  }

  lemma FanOutTracks(w: Validator, e: Event, frames: seq<Frame>)
    requires Sane(w)
    ensures TracksFrames(FanOut(w, e).stack, frames) <==> TracksFrames(w.stack, frames)
  {
    hide Depth, Step, HashStep, SaneContext;
  }

  lemma DropChild(frames: seq<Frame>)
    requires frames != [] && ChildToken(frames[|frames| - 1]) != []
    ensures DropToken(ChildPath(frames)) == ChildPath(frames[..|frames| - 1])
  {
    hide IndexToken, NameToken, DropToken;
    var n := |frames| - 1;
    match frames[n]
    case ArrayFrame(begun) =>
      DropIndex(ChildPath(frames[..n]), begun - 1);
    case ObjectFrame(_, key) =>
      DropName(ChildPath(frames[..n]), key);
  }

  lemma TokenNotEmpty(name: Bytes, index: nat)
    ensures NameToken(name) != [] && IndexToken(index) != []
  {
  }

  /** A value begins and its context is pushed. */
  lemma BeginTracks(w: Validator, e: Event, frames: seq<Frame>)
    requires Sane(w) && w.valid && Tracks(w, frames) && Enter(frames).Place? && Begin(w, e).valid
    ensures Ready(w) && NextSchema(w).TheSchema?
    ensures Begin(w, e) == w.(document := DocumentIn(w), stack := Base(w) + [Opened(w, e)])
    ensures TracksFrames(Base(w), Enter(frames).frames) && DocumentIn(w) == ChildPath(Enter(frames).frames)
  {
    hide Depth, SaneContext, Begin, Opened, IndexToken, NameToken, ItemSchema;
    BeginMeans(w, e);
    if frames != [] {
      var n := |frames| - 1;
      assert TracksFrame(w.stack[n], frames[n]);
      assert Enter(frames).frames[..n] == frames[..n];
    }
  }

  predicate Entered(frames: seq<Frame>) {
    forall i :: 0 <= i < |frames| ==> ChildToken(frames[i]) != []
  }

  lemma EnterEntered(frames: seq<Frame>)
    requires Nested(frames) && Enter(frames).Place?
    ensures Entered(Enter(frames).frames)
  {
    hide IndexToken, NameToken;
    if frames != [] {
      var f := frames[|frames| - 1];
      if f.ObjectFrame? {
        TokenNotEmpty(f.key, 0);
      } else {
        TokenNotEmpty([], f.begun);
      }
    }
  }

  /** The value ends and its context is popped. */
  lemma LeaveLocation(frames: seq<Frame>)
    ensures Location(Leave(frames)) == if frames == [] then [] else ChildPath(frames[..|frames| - 1])
  {
    hide IndexToken, NameToken;
    if frames != [] {
      var n := |frames| - 1;
      assert Leave(frames)[..n] == frames[..n];
      assert ChildPath(frames[..n]) + [] == ChildPath(frames[..n]);
    }
  }

  /** Ending a value pops its context, adds at most a hash to the enclosing one, and drops a token. */
  lemma EndShape(w: Validator, outer: seq<Context>, top: Context)
    requires Sane(w) && w.stack == outer + [top] && EndValue(w).valid
    ensures var r := EndValue(w);
            && r.document == DropToken(w.document) && |r.stack| == |outer|
            && forall i :: 0 <= i < |outer| ==> r.stack[i] == outer[i].(elementHashes := r.stack[i].elementHashes)
  {
    hide Depth, SaneContext, CheckEnd, DropToken;
    assert w.stack[..|w.stack| - 1] == outer;
  }

  lemma EndTracks(w: Validator, outer: seq<Context>, top: Context, frames: seq<Frame>)
    requires Sane(w) && w.valid && w.stack == outer + [top] && EndValue(w).valid
    requires TracksFrames(outer, frames) && w.document == ChildPath(frames)
    requires Entered(frames)
    ensures Tracks(EndValue(w), Leave(frames))
  {
    hide Depth, SaneContext, CheckEnd, DropToken, IndexToken, NameToken, ChildToken, EndValue, Sane, Location;
    EndShape(w, outer, top);
    LeaveLocation(frames);
    if frames == [] {
      assert DropToken([]) == [] by { DropNothing(); }
    } else {
      DropChild(frames);
      assert TracksFrame(outer[|frames| - 1], frames[|frames| - 1]);
    }
  }

  lemma DropNothing()
    ensures DropToken([]) == []
  {
  }

  lemma StepScalar(w: Validator, e: Event, frames: seq<Frame>)
    requires Sane(w) && w.valid && Tracks(w, frames) && IsScalarEvent(e) && Follow(frames, e).Place? && Step(w, e).valid
    ensures Tracks(Step(w, e), Follow(frames, e).frames)
  {
    hide Depth, Sane, SaneContext, Begin, EndValue, Opened, TracksFrame, Base, Enter, Leave, FanOut, DocumentIn,
         Ready, NextSchema, Nested, Location, ChildPath;
    EnterEntered(frames);
    var b := Begin(w, e);
    BeginTracks(w, e, frames);
    var f := FanOut(b, e);
    var n := |Base(w)|;
    BaseFanOut(b, e, n, Enter(frames).frames);
    EndTracks(f, f.stack[..n], f.stack[n], Enter(frames).frames);
  }

  /** What passes below the innermost context leaves the tracked fields alone. */
  lemma BaseFanOut(w: Validator, e: Event, n: nat, frames: seq<Frame>)
    requires Sane(w) && |w.stack| == n + 1 && TracksFrames(w.stack[..n], frames)
    ensures TracksFrames(FanOut(w, e).stack[..n], frames)
    ensures FanOut(w, e).stack == FanOut(w, e).stack[..n] + [FanOut(w, e).stack[n]]
    ensures forall f :: TracksFrame(FanOut(w, e).stack[n], f) <==> TracksFrame(w.stack[n], f)
    ensures FanOut(w, e).stack[n].schema == w.stack[n].schema
  {
    hide Depth, Step, HashStep, SaneContext;
  }

  lemma StepOpen(w: Validator, e: Event, frames: seq<Frame>)
    requires Sane(w) && w.valid && Tracks(w, frames) && (e.StartArray? || e.StartObject?)
    requires Follow(frames, e).Place? && Step(w, e).valid
    ensures Tracks(Step(w, e), Follow(frames, e).frames)
  {
    hide Depth, Sane, SaneContext, Begin, EndValue, Opened, TracksFrame, Base, Enter, Leave, FanOut, DocumentIn,
         Ready, NextSchema, ChildPath, IndexToken, NameToken;
    EnterEntered(frames);
    BeginTracks(w, e, frames);
    var b := Begin(w, e);
    var inner := if e.StartArray? then ArrayFrame(0) else ObjectFrame(false, []);
    OpenedTracks(w, e);
    BaseFanOut(b, e, |Base(w)|, Enter(frames).frames);
    assert TracksFrame(FanOut(b, e).stack[|Base(w)|], inner);
    PointerPush(Enter(frames).frames, inner);
  }

  lemma OpenedTracks(w: Validator, e: Event)
    requires Sane(w) && NextSchema(w).TheSchema?
    ensures e.StartArray? ==> TracksFrame(Opened(w, e), ArrayFrame(0))
    ensures e.StartObject? ==> TracksFrame(Opened(w, e), ObjectFrame(false, []))
  {
  }

  lemma PointerPush(frames: seq<Frame>, inner: Frame)
    requires Entered(frames) && (inner == ArrayFrame(0) || inner == ObjectFrame(false, []))
    ensures Location(frames + [inner]) == ChildPath(frames) && Nested(frames + [inner])
  {
    assert (frames + [inner])[..|frames|] == frames;
    assert ChildPath(frames) + [] == ChildPath(frames);
  }

  lemma StepKey(w: Validator, name: Bytes, frames: seq<Frame>)
    requires Sane(w) && w.valid && Tracks(w, frames) && Follow(frames, Key(name)).Place? && Step(w, Key(name)).valid
    ensures Tracks(Step(w, Key(name)), Follow(frames, Key(name)).frames)
  {
    hide Depth, Sane, SaneContext, EndValue, FanOut, IndexToken, NameToken, MemberSchema, FindProperty, Begin, Location,
         ChildToken, Nested;
    var n := |frames| - 1;
    var b := BeginKey(w, name);
    var next := Follow(frames, Key(name)).frames;
    assert TracksFrame(w.stack[n], frames[n]);
    KeyShell(w.stack[n], name);
    assert TracksFrames(b.stack, next);
    FanOutTracks(b, Key(name), next);
    KeyLocation(frames, name);
  }

  lemma KeyLocation(frames: seq<Frame>, name: Bytes)
    requires frames != [] && frames[|frames| - 1] == ObjectFrame(false, [])
    ensures var next := frames[|frames| - 1 := ObjectFrame(true, name)];
            Location(next) == Location(frames) + NameToken(name) && (Nested(frames) ==> Nested(next))
  {
    hide IndexToken, NameToken;
    var n := |frames| - 1;
    assert frames[n := ObjectFrame(true, name)][..n] == frames[..n];
    assert ChildPath(frames) == ChildPath(frames[..n]) + [];
  }

  lemma PointerPop(frames: seq<Frame>)
    requires frames != [] && Nested(frames)
    requires frames[|frames| - 1].ArrayFrame? || frames[|frames| - 1] == ObjectFrame(false, [])
    ensures Location(frames) == ChildPath(frames[..|frames| - 1]) && Entered(frames[..|frames| - 1])
  {
    hide IndexToken, NameToken;
    assert ChildPath(frames[..|frames| - 1]) + [] == ChildPath(frames[..|frames| - 1]);
  }

  /** The validator when everyone has seen the closing event and only the end of the value remains. */
  function Shut(w: Validator, e: Event): Validator
    requires Sane(w) && w.stack != []
  {
    hide Sane, Depth;
    var f := FanOut(w, e);
    var n := |f.stack| - 1;
    if e.EndArray? then f.(stack := f.stack[n := f.stack[n].(inArray := false)]) else f
  }

  lemma StepCloseEnds(w: Validator, e: Event)
    requires Sane(w) && w.valid && (e.EndArray? || e.EndObject?) && Step(w, e).valid
    ensures w.stack != [] && Sane(Shut(w, e)) && EndValue(Shut(w, e)) == Step(w, e)
  {
    hide Depth, Sane, SaneContext, Begin, EndValue, FanOut, CheckEndObject, Within, BeginKey;
    var f := FanOut(w, e);
    var n := |f.stack| - 1;
    ShutIsSane(f, n);
    assert f.stack[n := f.stack[n]] == f.stack;
  }

  lemma CloseFacts(w: Validator, e: Event, frames: seq<Frame>)
    requires Tracks(w, frames) && (e.EndArray? || e.EndObject?) && Follow(frames, e).Place?
    ensures |w.stack| == |frames| > 0 && TracksFrames(w.stack[..|frames| - 1], frames[..|frames| - 1])
    ensures w.document == ChildPath(frames[..|frames| - 1]) && Entered(frames[..|frames| - 1])
    ensures Follow(frames, e).frames == Leave(frames[..|frames| - 1])
  {
    hide ChildPath, ChildToken, TracksFrame, Leave, Enter;
    PointerPop(frames);
  }

  lemma StepClose(w: Validator, e: Event, frames: seq<Frame>)
    requires Sane(w) && w.valid && Tracks(w, frames) && (e.EndArray? || e.EndObject?)
    requires Follow(frames, e).Place? && Step(w, e).valid
    ensures Tracks(Step(w, e), Follow(frames, e).frames)
  {
    hide Depth, Sane, SaneContext, EndValue, FanOut, TracksFrame, Leave, Step, Follow, Tracks,
         ChildPath, Entered, TracksFrames;
    var n := |frames| - 1;
    CloseFacts(w, e, frames);
    BaseFanOut(w, e, n, frames[..n]);
    StepCloseEnds(w, e);
    var f, closed := FanOut(w, e), Shut(w, e);
    var top := closed.stack[n];
    assert closed.stack == f.stack[..n] + [top];
    EndTracks(closed, f.stack[..n], top, frames[..n]);
  }

  lemma {:induction false} RunTracks(w: Validator, frames: seq<Frame>, es: seq<Event>)
    requires Sane(w) && Tracks(w, frames) && FollowAll(frames, es).Place? && w.valid && Run(w, es).valid
    ensures Tracks(Run(w, es), FollowAll(frames, es).frames)
    decreases es
  {
    hide Sane, Step, Tracks, Follow;
    if es != [] {
      var e := es[0];
      var next := Step(w, e);
      if !next.valid {
        RunInvalid(next, es[1..]);
      }
      if IsScalarEvent(e) {
        StepScalar(w, e, frames);
      } else if e.StartArray? || e.StartObject? {
        StepOpen(w, e, frames);
      } else if e.Key? {
        StepKey(w, e.name, frames);
      } else {
        StepClose(w, e, frames);
      }
      RunTracks(next, Follow(frames, e).frames, es[1..]);
    }
  }

  // ---------------------------------------------------------------- trees lead somewhere

  lemma {:induction false} FollowConcat(frames: seq<Frame>, a: seq<Event>, b: seq<Event>)
    ensures FollowAll(frames, a + b)
         == if FollowAll(frames, a).Place? then FollowAll(FollowAll(frames, a).frames, b) else Nowhere
    decreases |a|
  {
    hide Follow;
    if a == [] {
      assert a + b == b;
    } else {
      assert (a + b)[0] == a[0] && (a + b)[1..] == a[1..] + b;
      if Follow(frames, a[0]).Place? {
        FollowConcat(Follow(frames, a[0]).frames, a[1..], b);
      }
    }
  }

  lemma FollowOne(frames: seq<Frame>, e: Event)
    ensures FollowAll(frames, [e]) == Follow(frames, e)
  {
    hide Follow;
    assert [e][1..] == [];
    if Follow(frames, e).Place? {
      assert FollowAll(Follow(frames, e).frames, []) == Follow(frames, e);
    }
  }

  lemma FollowThen(frames: seq<Frame>, a: seq<Event>, middle: seq<Frame>, b: seq<Event>)
    requires FollowAll(frames, a) == Place(middle)
    ensures FollowAll(frames, a + b) == FollowAll(middle, b)
  {
    FollowConcat(frames, a, b);
  }

  lemma FollowBracket(frames: seq<Frame>, open: Event, es: seq<Event>, close: Event, a: seq<Frame>, b: seq<Frame>)
    requires Follow(frames, open) == Place(a) && FollowAll(a, es) == Place(b)
    ensures FollowAll(frames, [open] + es + [close]) == Follow(b, close)
  {
    hide Follow, FollowAll;
    FollowOne(frames, open);
    FollowThen(frames, [open], a, es);
    FollowThen(frames, [open] + es, b, [close]);
    FollowOne(b, close);
  }

  lemma FollowScalar(p: Producer, v: Value, frames: seq<Frame>)
    requires Enter(frames).Place? && !v.Array? && !v.Object?
    ensures FollowAll(frames, Events(p, v)) == Place(Leave(Enter(frames).frames))
  {
    hide FollowAll, Enter, Leave;
    FollowOne(frames, Events(p, v)[0]);
  }

  lemma {:induction false} FollowValue(p: Producer, v: Value, frames: seq<Frame>)
    requires Enter(frames).Place?
    ensures FollowAll(frames, Events(p, v)) == Place(Leave(Enter(frames).frames))
    decreases v
  {
    hide FollowAll, Enter, Leave;
    var inside := Enter(frames).frames;
    if v.Array? {
      FollowElements(p, v.elements, inside, 0);
      assert (inside + [ArrayFrame(|v.elements|)])[..|inside|] == inside;
      FollowBracket(frames, StartArray, ElementEvents(p, v.elements), EndArray(|v.elements|),
                    inside + [ArrayFrame(0)], inside + [ArrayFrame(|v.elements|)]);
    } else if v.Object? {
      FollowMembers(p, v.members, inside);
      assert (inside + [ObjectFrame(false, [])])[..|inside|] == inside;
      FollowBracket(frames, StartObject, MemberEvents(p, v.members), EndObject(|v.members|),
                    inside + [ObjectFrame(false, [])], inside + [ObjectFrame(false, [])]);
    } else {
      FollowScalar(p, v, frames);
    }
  }

  lemma ElementPlace(outer: seq<Frame>, begun: nat)
    ensures Enter(outer + [ArrayFrame(begun)]) == Place(outer + [ArrayFrame(begun + 1)])
    ensures Leave(outer + [ArrayFrame(begun)]) == outer + [ArrayFrame(begun)]
  {
  }

  lemma {:induction false} FollowElements(p: Producer, vs: seq<Value>, outer: seq<Frame>, begun: nat)
    ensures FollowAll(outer + [ArrayFrame(begun)], ElementEvents(p, vs)) == Place(outer + [ArrayFrame(begun + |vs|)])
    decreases vs
  {
    hide Follow, Enter, Leave, Events;
    if vs != [] {
      ElementPlace(outer, begun);
      ElementPlace(outer, begun + 1);
      FollowValue(p, vs[0], outer + [ArrayFrame(begun)]);
      FollowElements(p, vs[1..], outer, begun + 1);
      FollowThen(outer + [ArrayFrame(begun)], Events(p, vs[0]), outer + [ArrayFrame(begun + 1)],
                 ElementEvents(p, vs[1..]));
    }
  }

  lemma MemberPlace(outer: seq<Frame>, name: Bytes)
    ensures Follow(outer + [ObjectFrame(false, [])], Key(name)) == Place(outer + [ObjectFrame(true, name)])
    ensures Enter(outer + [ObjectFrame(true, name)]) == Place(outer + [ObjectFrame(true, name)])
    ensures Leave(outer + [ObjectFrame(true, name)]) == outer + [ObjectFrame(false, [])]
  {
  }

  lemma {:induction false} FollowMembers(p: Producer, ms: seq<Member>, outer: seq<Frame>)
    ensures FollowAll(outer + [ObjectFrame(false, [])], MemberEvents(p, ms)) == Place(outer + [ObjectFrame(false, [])])
    decreases ms
  {
    hide Follow, Enter, Leave, Events;
    if ms != [] {
      var idle, busy := outer + [ObjectFrame(false, [])], outer + [ObjectFrame(true, ms[0].name)];
      var key, es, more := [Key(ms[0].name)], Events(p, ms[0].value), MemberEvents(p, ms[1..]);
      MemberPlace(outer, ms[0].name);
      FollowOne(idle, Key(ms[0].name));
      FollowValue(p, ms[0].value, busy);
      FollowMembers(p, ms[1..], outer);
      FollowThen(idle, key, busy, es);
      FollowThen(idle, key + es, idle, more);
    }
  }

  /**
    At every point of a valid run over any tree, the document pointer is the JSON Pointer of the location the
    events have led to.
   */
  lemma DocumentIsPointer(p: Producer, s: Schema, v: Value, k: nat)
    requires k <= |Events(p, v)|
    ensures Sane(NewValidator(s)) && FollowAll([], Events(p, v)[..k]).Place?
    ensures Run(NewValidator(s), Events(p, v)[..k]).valid ==>
              Run(NewValidator(s), Events(p, v)[..k]).document == Location(FollowAll([], Events(p, v)[..k]).frames)
  {
    hide Run, Events, Depth, FollowAll;
    NewIsSane(s);
    var es := Events(p, v);
    FollowValue(p, v, []);
    FollowConcat([], es[..k], es[k..]);
    assert es[..k] + es[k..] == es;
    if Run(NewValidator(s), es[..k]).valid {
      RunTracks(NewValidator(s), [], es[..k]);
    }
  }

  // ---------------------------------------------------------------- member order does not matter

  /** The hash contribution of one member. */
  function MemberMix(m: Member): HashCode {
    Mix(BufferHash(STRING_TYPE, m.name), TreeHash(m.value))
  }

  function Xor(a: HashCode, b: HashCode): HashCode {
    a ^ b
  }

  lemma XorMeans(a: HashCode, b: HashCode)
    ensures Xor(a, b) == a ^ b
  {
  }

  lemma XorBits(a: HashCode, b: HashCode, c: HashCode, ab: HashCode, ac: HashCode)
    requires ab == a ^ b && ac == a ^ c
    ensures ab ^ c == ac ^ b
  {
  }

  lemma XorSwap(a: HashCode, b: HashCode, c: HashCode)
    ensures Xor(Xor(a, b), c) == Xor(Xor(a, c), b)
  {
    hide Xor;
    XorMeans(a, b);
    XorMeans(a, c);
    XorMeans(Xor(a, b), c);
    XorMeans(Xor(a, c), b);
    XorBits(a, b, c, Xor(a, b), Xor(a, c));
  }

  function XorAll(h: HashCode, ms: seq<Member>): HashCode
    decreases ms
  {
    if ms == [] then h else XorAll(Xor(h, MemberMix(ms[0])), ms[1..])
  }

  /** One member of the hash of an object. */
  lemma ObjectHashStep(h: HashCode, k: HashCode, v: HashCode, more: seq<HashCode>)
    requires |more| % 2 == 0
    ensures ObjectHash(h, [k, v] + more) == ObjectHash(Xor(h, Mix(k, v)), more)
  {
    hide Mix;
    var kvs := [k, v] + more;
    assert kvs[0] == k && kvs[1] == v && kvs[2..] == more;
  }

  lemma MemberHashesStep(ms: seq<Member>)
    requires ms != []
    ensures MemberHashes(ms) == [BufferHash(STRING_TYPE, ms[0].name), TreeHash(ms[0].value)] + MemberHashes(ms[1..])
  {
    hide TreeHash, BufferHash;
  }

  lemma {:induction false} ObjectHashIsXor(h: HashCode, ms: seq<Member>)
    ensures ObjectHash(h, MemberHashes(ms)) == XorAll(h, ms)
    decreases ms
  {
    hide TreeHash, BufferHash, Mix, Xor, MemberHashes, ObjectHash, MemberMix;
    if ms == [] {
      NoHash(h);
    } else {
      MemberHashesStep(ms);
      MemberMixMeans(ms[0]);
      ObjectHashStep(h, BufferHash(STRING_TYPE, ms[0].name), TreeHash(ms[0].value), MemberHashes(ms[1..]));
      ObjectHashIsXor(Xor(h, MemberMix(ms[0])), ms[1..]);
    }
  }

  lemma NoHash(h: HashCode)
    ensures MemberHashes([]) == [] && ObjectHash(h, []) == h
  {
  }

  lemma MemberMixMeans(m: Member)
    ensures MemberMix(m) == Mix(BufferHash(STRING_TYPE, m.name), TreeHash(m.value))
  {
    hide Mix, BufferHash, TreeHash;
  }

  /** A member may be taken first. */
  lemma {:induction false} XorPull(h: HashCode, a: seq<Member>, m: Member, b: seq<Member>)
    ensures XorAll(h, a + [m] + b) == XorAll(Xor(h, MemberMix(m)), a + b)
    decreases a
  {
    hide MemberMix, Xor;
    var whole := a + [m] + b;
    if a == [] {
      assert whole[0] == m && whole[1..] == a + b;
    } else {
      var first := MemberMix(a[0]);
      assert whole[1..] == a[1..] + [m] + b && whole[0] == a[0];
      assert (a + b)[1..] == a[1..] + b && (a + b)[0] == a[0];
      XorPull(Xor(h, first), a[1..], m, b);
      XorSwap(h, first, MemberMix(m));
    }
  }

  lemma TakeOut(a: seq<Member>, front: seq<Member>, back: seq<Member>)
    requires a != [] && multiset(a) == multiset(front + [a[0]] + back)
    ensures multiset(a[1..]) == multiset(front + back)
  {
    assert a == [a[0]] + a[1..];
    assert multiset(a[1..]) == multiset(a) - multiset{a[0]};
    assert front + [a[0]] + back == front + ([a[0]] + back);
    assert multiset(front + back) == multiset(front + [a[0]] + back) - multiset{a[0]};
  }

  lemma {:induction false} XorPermuted(h: HashCode, a: seq<Member>, b: seq<Member>)
    requires multiset(a) == multiset(b)
    ensures XorAll(h, a) == XorAll(h, b)
    decreases |a|
  {
    hide MemberMix, Xor;
    if a == [] {
      assert |multiset(b)| == |b|;
      assert b == [];
    } else {
      assert a[0] in multiset(a);
      var k :| 0 <= k < |b| && b[k] == a[0];
      var front, back := b[..k], b[k + 1..];
      assert b == front + [a[0]] + back;
      XorPull(h, front, a[0], back);
      TakeOut(a, front, back);
      XorPermuted(Xor(h, MemberMix(a[0])), a[1..], front + back);
    }
  }

  lemma PermutedMembers(a: seq<Member>, b: seq<Member>)
    requires multiset(a) == multiset(b)
    ensures TreeHash(Object(a)) == TreeHash(Object(b))
  {
    hide XorAll, ObjectHash, Mix;
    ObjectHashIsXor(Mix(0, OBJECT_TYPE), a);
    ObjectHashIsXor(Mix(0, OBJECT_TYPE), b);
    XorPermuted(Mix(0, OBJECT_TYPE), a, b);
  }

  /** Equality up to the order of members, at every depth. */
  ghost predicate Alike(a: Value, b: Value)
    decreases a
  {
    match a
    case Array(vs) => b.Array? && |vs| == |b.elements| && forall i :: 0 <= i < |vs| ==> Alike(vs[i], b.elements[i])
    case Object(ms) => b.Object? && exists c :: Permutes(c, b.members) && AlikeMembers(ms, c)
    case _ => a == b
  }

  predicate Permutes(a: seq<Member>, b: seq<Member>) {
    multiset(a) == multiset(b)
  }

  ghost predicate AlikeMembers(a: seq<Member>, b: seq<Member>)
    decreases a
  {
    |a| == |b| && forall i :: 0 <= i < |a| ==> a[i].name == b[i].name && Alike(a[i].value, b[i].value)
  }

  /**
    Values that differ only in the order of members, at whatever depth, hash alike, so `enum` and `uniqueItems`
    treat them as equal.
   */
  lemma {:induction false} HashIgnoresOrder(a: Value, b: Value)
    requires Alike(a, b)
    ensures TreeHash(a) == TreeHash(b)
    decreases a, 1
  {
    hide ArrayHash, ObjectHash, Mix, BufferHash, MemberHashes, ElementHashes;
    if a.Array? {
      ElementsAlike(a.elements, b.elements);
    } else if a.Object? {
      var c :| Permutes(c, b.members) && AlikeMembers(a.members, c);
      MembersAlike(a.members, c);
      PermutedMembers(c, b.members);
    }
  }

  lemma {:induction false} ElementsAlike(a: seq<Value>, b: seq<Value>)
    requires |a| == |b| && forall i :: 0 <= i < |a| ==> Alike(a[i], b[i])
    ensures ElementHashes(a) == ElementHashes(b)
    decreases a, 0
  {
    hide TreeHash, Alike;
    if a != [] {
      HashIgnoresOrder(a[0], b[0]);
      ElementsAlike(a[1..], b[1..]);
    }
  }

  lemma {:induction false} MembersAlike(a: seq<Member>, b: seq<Member>)
    requires AlikeMembers(a, b)
    ensures MemberHashes(a) == MemberHashes(b)
    decreases a, 0
  {
    hide TreeHash, Alike, BufferHash;
    if a != [] {
      HashIgnoresOrder(a[0].value, b[0].value);
      MembersAlike(a[1..], b[1..]);
    }
  }

  /** `uniqueItems` turns down any array in which two elements differ only in the order of members, at any depth. */
  lemma UniqueRejectsReordered(p: Producer, s: Schema, vs: seq<Value>, i: nat, j: nat)
    requires s.uniqueItems && i < j < |vs| && Alike(vs[i], vs[j])
    ensures Sane(NewValidator(s)) && !Run(NewValidator(s), Events(p, Array(vs))).valid
  {
    hide Run, Events, TreeHash, Alike;
    StreamingAgrees(p, s, Array(vs));
    HashIgnoresOrder(vs[i], vs[j]);
    ElementHashAt(vs, i);
    ElementHashAt(vs, j);
  }

  lemma {:induction false} ElementHashAt(vs: seq<Value>, i: nat)
    requires i < |vs|
    ensures ElementHashes(vs)[i] == TreeHash(vs[i])
    decreases vs
  {
    hide TreeHash;
    if i > 0 {
      ElementHashAt(vs[1..], i - 1);
    }
  }
}
