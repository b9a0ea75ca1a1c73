/**
  The streaming validator agrees with the recursive reading of the schema, for every schema and every tree:
  a joint induction over the tree and the nesting depth of the schema.
 */
module SchemaTheorem {
  import opened Json
  import opened SchemaSpec
  import opened SchemaMachine
  import opened SchemaProof
  import Writer

  // ---------------------------------------------------------------- what one value does to its surroundings

  function Last(cs: seq<Context>): Context
    requires cs != []
  {
    cs[|cs| - 1]
  }

  /** The schema the next value will be checked against. */
  function NextSchema(w: Validator): MaybeSchema {
    if w.stack == [] then TheSchema(w.root)
    else if Last(w.stack).inArray then ItemSchema(Last(w.stack).schema, Last(w.stack).arrayElementIndex)
    else Last(w.stack).valueSchema
  }

  /** A value may start: at the root, inside an array, or after a key. */
  predicate Ready(w: Validator) {
    w.stack == [] || Last(w.stack).inArray || Last(w.stack).valueSchema.TheSchema?
  }

  /** The open contexts once the next value has been announced to the innermost one. */
  function Base(w: Validator): (cs: seq<Context>)
    requires Sane(w)
    ensures |cs| == |w.stack| && SaneStack(cs, Depth(w.root))
  {
    hide Depth, ItemSchema;
    if w.stack == [] || !Last(w.stack).inArray then w.stack
    else
      var top := Last(w.stack);
      var announced := top.(valueUniqueness := top.valueUniqueness || top.schema.uniqueItems,
                            valueSchema := NextSchema(w), arrayElementIndex := top.arrayElementIndex + 1);
      ChildDepth(top.schema, top.arrayElementIndex, []);
      SaneUpdate(top, announced, Depth(w.root));
      w.stack[|w.stack| - 1 := announced]
  }

  predicate Unique(cs: seq<Context>) {
    cs != [] && Last(cs).valueUniqueness
  }

  predicate FreshIn(cs: seq<Context>, h: HashCode) {
    Unique(cs) ==> h !in Last(cs).elementHashes
  }

  /** The hash of a finished element is kept by an array that wants unique items. */
  function Record(cs: seq<Context>, d: nat, h: HashCode): (r: seq<Context>)
    requires SaneStack(cs, d)
    ensures |r| == |cs| && SaneStack(r, d)
  {
    hide Depth;
    if Unique(cs) then
      var extended := Last(cs).(elementHashes := Last(cs).elementHashes + [h]);
      SaneUpdate(Last(cs), extended, d);
      cs[|cs| - 1 := extended]
    else cs
  }

  /** What the recursive reading says about the next value. */
  predicate Accepts(w: Validator, v: Value)
    requires Sane(w)
  {
    NextSchema(w).TheSchema? && Valid(NextSchema(w).schema, v) && FreshIn(Base(w), TreeHash(v))
  }

  /** The document pointer while the next value is open. */
  function DocumentIn(w: Validator): Bytes {
    if w.stack != [] && Last(w.stack).inArray then w.document + IndexToken(Last(w.stack).arrayElementIndex)
    else w.document
  }

  /** The validator after an accepted value with events `es`. */
  function After(w: Validator, v: Value, es: seq<Event>): Validator
    requires Sane(w)
  {
    w.(stack := RunStack(Record(Base(w), Depth(w.root), TreeHash(v)), Depth(w.root), es),
       document := DropToken(DocumentIn(w)))
  }

  /** Verdict and state after the events of one value. */
  predicate Decides(p: Producer, v: Value, w: Validator)
    requires Sane(w)
  {
    var r := Run(w, Events(p, v));
    && (r.valid <==> Accepts(w, v))
    && (r.valid ==> r == After(w, v, Events(p, v)))
  }

  // ---------------------------------------------------------------- beginning

  /** The integer checks compare as integers do, whichever callback delivers the number. */
  lemma CheckNumber(s: Schema, kind: NumKind, n: JsonInt)
    requires InKind(kind, n)
    ensures CheckStart(s, NumE(kind, n)) <==> NumberOk(s, n)
  {
    if s.multipleOf.BoundAt? && s.multipleOf.n > 0 && n < 0 {
      NegatedRemainder(n, s.multipleOf.n);
    }
  }

  lemma NegatedRemainder(n: int, m: int)
    requires m > 0
    ensures n % m == 0 <==> (-n) % m == 0
  {
    assert n == m * (n / m) + n % m;
    assert -n == m * ((-n) / m) + (-n) % m;
    var q := n / m + (-n) / m;
    assert m * q + (n % m + (-n) % m) == 0;
    assert n % m + (-n) % m == m * -q;
  }

  function Opened(w: Validator, e: Event): Context
    requires Sane(w) && NextSchema(w).TheSchema?
  {
    OpenContext(NewContext(NextSchema(w).schema, Unique(Base(w))), e)
  }

  lemma OpenedIsSane(w: Validator, e: Event)
    requires Sane(w) && NextSchema(w).TheSchema?
    ensures SaneContext(Opened(w, e), Depth(w.root))
  {
    hide Depth, ItemSchema, OpenContext;
    var s := NextSchema(w).schema;
    assert Depth(s) <= Depth(w.root) by {
      if w.stack != [] {
        ChildDepth(Last(w.stack).schema, Last(w.stack).arrayElementIndex, []);
        assert SaneContext(Last(w.stack), Depth(w.root));
      }
      assert DepthOf(NextSchema(w)) == Depth(s);
    }
    NewContextIsSane(s, Unique(Base(w)), Depth(w.root));
    OpenIsSane(NewContext(s, Unique(Base(w))), e, Depth(w.root));
  }

  lemma BeginMeans(w: Validator, e: Event)
    requires Sane(w) && w.valid && Ready(w)
    ensures Begin(w, e).valid <==> NextSchema(w).TheSchema? && CheckStart(NextSchema(w).schema, e)
    ensures Begin(w, e).valid ==> Begin(w, e) == w.(document := DocumentIn(w), stack := Base(w) + [Opened(w, e)])
  {
    hide Depth, ItemSchema, OpenContext, CheckStart, Sane;
    var b := BeginValue(w);
    if NextSchema(w).TheSchema? {
      assert b == w.(document := DocumentIn(w),
                     stack := Base(w) + [NewContext(NextSchema(w).schema, Unique(Base(w)))]);
    }
  }

  // ---------------------------------------------------------------- ending

  /** The numeral of an array index and the escaped name of a member hold no '/'. */
  lemma {:induction false} EscapedHasNoSlash(name: Bytes)
    ensures 0x2F !in EscapedName(name)
    decreases name
  {
    if name != [] {
      EscapedHasNoSlash(name[1..]);
    }
  }

  lemma {:induction false} DropSuffix(document: Bytes, token: Bytes)
    requires 0x2F !in token
    ensures DropToken(document + [0x2F] + token) == document
    decreases |token|
  {
    var whole := document + [0x2F] + token;
    if token == [] {
      assert whole[..|whole| - 1] == document;
    } else {
      var front := token[..|token| - 1];
      assert whole[..|whole| - 1] == document + [0x2F] + front;
      DropSuffix(document, front);
    }
  }

  /** Ending a member removes exactly the token its key appended, whatever '~' or '/' the key contains. */
  lemma DropName(document: Bytes, name: Bytes)
    ensures DropToken(document + NameToken(name)) == document
  {
    EscapedHasNoSlash(name);
    DropSuffix(document, EscapedName(name));
    assert document + NameToken(name) == document + [0x2F] + EscapedName(name);
  }

  lemma {:induction false} DecimalHasNoSlash(n: nat)
    ensures 0x2F !in Writer.Decimal(n)
    decreases n
  {
    if n >= 10 {
      DecimalHasNoSlash(n / 10);
    }
  }

  lemma DropIndex(document: Bytes, index: nat)
    ensures DropToken(document + IndexToken(index)) == document
  {
    DecimalHasNoSlash(index);
    DropSuffix(document, Writer.Decimal(index));
    assert document + IndexToken(index) == document + [0x2F] + Writer.Decimal(index);
  }

  lemma RecordRun(cs: seq<Context>, d: nat, es: seq<Event>, h: HashCode)
    requires SaneStack(cs, d)
    ensures RunStack(Record(cs, d, h), d, es) == Record(RunStack(cs, d, es), d, h)
    ensures FreshIn(RunStack(cs, d, es), h) == FreshIn(cs, h)
    ensures Unique(RunStack(cs, d, es)) == Unique(cs)
  {
    hide SaneContext, Run, HashRun;
  }

  /** Popping an acceptable context: only the comparison with earlier siblings can still fail. */
  lemma PopMeans(w: Validator, outer: seq<Context>, top: Context, h: HashCode)
    requires Sane(w) && w.valid && w.stack == outer + [top] && SaneStack(outer, Depth(w.root))
    requires top.arrayUniqueness == Unique(outer)
    requires top.arrayUniqueness ==> top.hasher == Hasher([h])
    ensures EndValue(w).valid <==> CheckEnd(top) && FreshIn(outer, h)
    ensures EndValue(w).valid ==>
              EndValue(w) == w.(stack := Record(outer, Depth(w.root), h), document := DropToken(w.document))
  {
    hide Depth, CheckEnd, DropToken, SaneContext;
    assert w.stack[..|w.stack| - 1] == outer;
  }

  // ---------------------------------------------------------------- the combinators

  /** The nested validators reach the verdicts of the recursive reading. */
  predicate NestedDecide(p: Producer, v: Value, s: Schema) {
    forall i :: 0 <= i < |ParallelSchemas(s)| ==> NestedDecides(p, v, ParallelSchemas(s)[i])
  }

  predicate NestedDecides(p: Producer, v: Value, s: Schema) {
    NewIsSane(s);
    Run(NewValidator(s), Events(p, v)).valid <==> Valid(s, v)
  }

  /** A context about to be popped: its hasher and nested validators have seen the whole value. */
  predicate Carries(c: Context, s: Schema, p: Producer, v: Value) {
    && c.schema == s
    && (s.enumHashes != [] || c.arrayUniqueness ==> c.hasher == Hasher([TreeHash(v)]))
    && |c.validators| == |ParallelSchemas(s)|
    && forall i :: 0 <= i < |c.validators| ==> (c.validators[i].valid <==> Valid(ParallelSchemas(s)[i], v))
  }

  lemma {:induction false} CountsAgree(ws: seq<Validator>, ss: seq<Schema>, v: Value)
    requires |ws| == |ss| && forall i :: 0 <= i < |ss| ==> (ws[i].valid <==> Valid(ss[i], v))
    ensures CountStillValid(ws) == CountValid(ss, v)
    decreases ss
  {
    hide Valid;
    if ss != [] {
      CountsAgree(ws[1..], ss[1..], v);
    }
  }

  lemma Slots(s: Schema)
    ensures var ps := ParallelSchemas(s);
            && |ps| == DependencyBegin(s) + |DependencySchemas(s.properties)|
            && (forall i :: 0 <= i < |s.allOf| ==> ps[i] == s.allOf[i])
            && (forall i :: 0 <= i < |s.anyOf| ==> ps[AnyOfBegin(s) + i] == s.anyOf[i])
            && (forall i :: 0 <= i < |s.oneOf| ==> ps[OneOfBegin(s) + i] == s.oneOf[i])
            && (s.not_.TheSchema? ==> ps[NotSlot(s)] == s.not_.schema)
            && (forall i :: 0 <= i < |DependencySchemas(s.properties)| ==>
                  ps[DependencyBegin(s) + i] == DependencySchemas(s.properties)[i])
  {
    hide DependencySchemas;
  }

  lemma AnyOfMeans(c: Context, s: Schema, p: Producer, v: Value)
    requires Carries(c, s, p, v)
    ensures (exists i :: AnyOfBegin(s) <= i < OneOfBegin(s) && c.validators[i].valid)
       <==> (exists i :: 0 <= i < |s.anyOf| && Valid(s.anyOf[i], v))
  {
    hide Valid, TreeHash, ParallelSchemas;
    Slots(s);
    if i :| AnyOfBegin(s) <= i < OneOfBegin(s) && c.validators[i].valid {
      assert s.anyOf[i - AnyOfBegin(s)] == ParallelSchemas(s)[AnyOfBegin(s) + (i - AnyOfBegin(s))];
    }
    if i :| 0 <= i < |s.anyOf| && Valid(s.anyOf[i], v) {
      assert c.validators[AnyOfBegin(s) + i].valid;
    }
  }

  lemma OneOfMeans(c: Context, s: Schema, p: Producer, v: Value)
    requires Carries(c, s, p, v)
    ensures NotSlot(s) <= |c.validators|
    ensures CountStillValid(c.validators[OneOfBegin(s)..NotSlot(s)]) == CountValid(s.oneOf, v)
  {
    hide Valid, TreeHash, ParallelSchemas, CountStillValid, CountValid;
    Slots(s);
    var ws := c.validators[OneOfBegin(s)..NotSlot(s)];
    forall i | 0 <= i < |s.oneOf| ensures ws[i].valid <==> Valid(s.oneOf[i], v) {
      assert ws[i] == c.validators[OneOfBegin(s) + i];
    }
    CountsAgree(ws, s.oneOf, v);
  }

  lemma AllOfMeans(c: Context, s: Schema, p: Producer, v: Value)
    requires Carries(c, s, p, v)
    ensures |s.allOf| <= |c.validators|
    ensures (forall i :: 0 <= i < |s.allOf| ==> c.validators[i].valid)
       <==> (forall i :: 0 <= i < |s.allOf| ==> Valid(s.allOf[i], v))
  {
    hide Valid, TreeHash, ParallelSchemas;
    Slots(s);
    assert forall i :: 0 <= i < |s.allOf| ==> (c.validators[i].valid <==> Valid(s.allOf[i], v));
  }

  /** `Schema::EndValue` decides enum, allOf, anyOf, oneOf and not. */
  lemma CheckEndMeans(c: Context, s: Schema, p: Producer, v: Value)
    requires Carries(c, s, p, v)
    ensures CheckEnd(c) <==> Combined(s, v)
  {
    hide Valid, TreeHash, CountValid, CountStillValid;
    AllOfMeans(c, s, p, v);
    AnyOfMeans(c, s, p, v);
    OneOfMeans(c, s, p, v);
    Slots(s);
    hide ParallelSchemas;
  }

  lemma OpenParts(s: Schema, unique: bool, e: Event)
    ensures var c := OpenContext(NewContext(s, unique), e);
            && c.schema == s && c.arrayUniqueness == unique
            && (s.enumHashes != [] || unique ==> c.hasher == Hasher([]))
            && |c.validators| == |ParallelSchemas(s)|
            && forall i :: 0 <= i < |c.validators| ==> c.validators[i] == NewValidator(ParallelSchemas(s)[i])
  {
    hide ParallelSchemas, TracksProperties;
  }

  /** Feeding a whole value to a freshly opened context leaves it carrying the verdicts on that value. */
  lemma RunCarries(p: Producer, v: Value, s: Schema, unique: bool, e: Event, d: nat)
    requires SaneContext(OpenContext(NewContext(s, unique), e), d) && NestedDecide(p, v, s)
    ensures var c := RunContext(OpenContext(NewContext(s, unique), e), d, Events(p, v));
            Carries(c, s, p, v) && c.arrayUniqueness == unique
  {
    hide Run, HashRun, Sane, Depth, Valid, TreeHash, Events, ParallelSchemas, OpenContext, NewContext;
    OpenParts(s, unique, e);
    HashValue(p, v, []);
    var c := RunContext(OpenContext(NewContext(s, unique), e), d, Events(p, v));
    forall i | 0 <= i < |c.validators| ensures c.validators[i].valid <==> Valid(ParallelSchemas(s)[i], v) {
      assert NestedDecides(p, v, ParallelSchemas(s)[i]);
    }
  }

  /** The last act of every value: pop its context and record its hash. */
  lemma EndMeans(p: Producer, v: Value, w: Validator, last: Validator, top: Context, es: seq<Event>)
    requires Sane(w) && w.valid && NextSchema(w).TheSchema?
    requires Sane(last) && last.valid && last.root == w.root && last.document == DocumentIn(w)
    requires last.stack == RunStack(Base(w), Depth(w.root), es) + [top]
    requires Carries(top, NextSchema(w).schema, p, v) && top.arrayUniqueness == Unique(Base(w))
    ensures EndValue(last).valid <==> Combined(NextSchema(w).schema, v) && FreshIn(Base(w), TreeHash(v))
    ensures EndValue(last).valid ==> EndValue(last) == After(w, v, es)
  {
    hide Depth, CheckEnd, DropToken, SaneContext, Combined, TreeHash, EndValue, RunStack, Record, Base, FreshIn, Unique;
    var d := Depth(w.root);
    RecordRun(Base(w), d, es, TreeHash(v));
    CheckEndMeans(top, NextSchema(w).schema, p, v);
    PopMeans(last, RunStack(Base(w), d, es), top, TreeHash(v));
  }

  lemma RunPush(outer: seq<Context>, top: Context, d: nat, es: seq<Event>)
    requires SaneStack(outer, d) && SaneContext(top, d)
    ensures SaneStack(outer + [top], d)
    ensures RunStack(outer + [top], d, es) == RunStack(outer, d, es) + [RunContext(top, d, es)]
  {
    hide RunContext, SaneContext;
  }

  /** After the first event of a value: everything below is announced, the value's own context is open. */
  lemma FirstMeans(w: Validator, e: Event)
    requires Sane(w) && w.valid && Ready(w) && NextSchema(w).TheSchema?
    requires CheckStart(NextSchema(w).schema, e)
    ensures SaneContext(Opened(w, e), Depth(w.root)) && Begin(w, e).valid
    ensures FanOut(Begin(w, e), e)
         == w.(document := DocumentIn(w),
               stack := RunStack(Base(w), Depth(w.root), [e]) + [RunContext(Opened(w, e), Depth(w.root), [e])])
  {
    hide Depth, CheckStart, SaneContext, RunStack, RunContext, Base, Opened, Begin, FanOut, NextSchema, DocumentIn;
    OpenedIsSane(w, e);
    BeginMeans(w, e);
    RunStackOne(Begin(w, e), e);
    RunPush(Base(w), Opened(w, e), Depth(w.root), [e]);
  }

  lemma StartMeans(p: Producer, v: Value, s: Schema)
    ensures !v.Array? && !v.Object? ==> (CheckStart(s, Events(p, v)[0]) <==> Shaped(s, v))
    ensures !CheckStart(s, Events(p, v)[0]) ==> !Shaped(s, v)
  {
    if v.Integer? {
      CheckNumber(s, KindFor(p, v.n), v.n);
    }
  }

  lemma ScalarDecides(p: Producer, v: Value, w: Validator)
    requires Sane(w) && w.valid && Ready(w) && !v.Array? && !v.Object?
    requires NextSchema(w).TheSchema? ==> NestedDecide(p, v, NextSchema(w).schema)
    ensures Decides(p, v, w)
  {
    var e := Events(p, v)[0];
    assert Events(p, v) == [e] && IsScalarEvent(e);
    hide Depth, CheckStart, SaneContext, RunStack, RunContext, Base, Begin, FanOut, NextSchema, DocumentIn, After,
         EndValue, Events, Combined, Shaped, TreeHash, NestedDecide, Sane, Ready, Run, Carries, OpenContext, FreshIn,
         Unique;
    RunOne(w, e);
    BeginMeans(w, e);
    if NextSchema(w).TheSchema? {
      var s := NextSchema(w).schema;
      StartMeans(p, v, s);
      if CheckStart(s, e) {
        FirstMeans(w, e);
        var last := FanOut(Begin(w, e), e);
        var top := RunContext(Opened(w, e), Depth(w.root), [e]);
        RunCarries(p, v, s, Unique(Base(w)), e, Depth(w.root));
        EndMeans(p, v, w, last, top, [e]);
      }
    }
  }

  // ---------------------------------------------------------------- the inside of an array or object

  /** The validator once the innermost context `top` and those around it have seen `es`. */
  function Inner(w: Validator, outer: seq<Context>, top: Context, es: seq<Event>): (r: Validator)
    requires SaneStack(outer, Depth(w.root)) && SaneContext(top, Depth(w.root))
    ensures Sane(r)
  {
    hide Depth, SaneContext, RunStack, RunContext;
    w.(stack := RunStack(outer, Depth(w.root), es) + [RunContext(top, Depth(w.root), es)])
  }

  lemma InnerThen(w: Validator, outer: seq<Context>, top: Context, a: seq<Event>, b: seq<Event>)
    requires SaneStack(outer, Depth(w.root)) && SaneContext(top, Depth(w.root))
    ensures Inner(Inner(w, outer, top, a), RunStack(outer, Depth(w.root), a), RunContext(top, Depth(w.root), a), b)
         == Inner(w, outer, top, a + b)
  {
    hide Depth, SaneContext, RunStack, RunContext;
    RunStackConcat(outer, Depth(w.root), a, b);
    RunContextConcat(top, Depth(w.root), a, b);
  }

  /** Closing an array or object: everyone sees the event, then the counts are checked, then the value ends. */
  lemma StepEnd(w: Validator, e: Event, outer: seq<Context>, top: Context)
    requires Sane(w) && w.valid && (e.EndArray? || e.EndObject?)
    requires SaneStack(outer, Depth(w.root)) && SaneContext(top, Depth(w.root)) && w.stack == outer + [top]
    ensures var fed := RunContext(top, Depth(w.root), [e]);
            var shut := if e.EndArray? then fed.(inArray := false) else fed;
            var ok := if e.EndArray? then Within(e.elementCount, top.schema.minItems, top.schema.maxItems)
                      else CheckEndObject(shut, e.memberCount);
            var closed := w.(stack := RunStack(outer, Depth(w.root), [e]) + [shut]);
            && Sane(closed)
            && (ok ==> Step(w, e) == EndValue(closed))
            && (!ok ==> !Step(w, e).valid)
  {
    hide Depth, RunStack, EndValue, FanOut, Begin, BeginKey, CheckEndObject, Run, HashRun;
    var d := Depth(w.root);
    RunStackOne(w, e);
    RunPush(outer, top, d, [e]);
    var fed := RunContext(top, d, [e]);
    SaneUpdate(fed, fed.(inArray := false), d);
    hide RunContext, SaneContext;
    var f := FanOut(w, e);
    var stack := RunStack(outer, d, [e]);
    assert f.stack == stack + [fed];
    assert f.stack[|f.stack| - 1 := fed] == stack + [fed];
    assert f.stack[|f.stack| - 1 := fed.(inArray := false)] == stack + [fed.(inArray := false)];
  }

  // ---------------------------------------------------------------- elements

  predicate Wants(c: Context) {
    c.valueUniqueness || c.schema.uniqueItems
  }

  predicate ItemOk(s: Schema, k: nat, v: Value) {
    ItemSchema(s, k).TheSchema? && Valid(ItemSchema(s, k).schema, v)
  }

  predicate ItemsOk(s: Schema, k: nat, vs: seq<Value>) {
    forall i :: 0 <= i < |vs| ==> ItemOk(s, k + i, vs[i])
  }

  predicate FreshHashes(seen: seq<HashCode>, hs: seq<HashCode>) {
    (forall i :: 0 <= i < |hs| ==> hs[i] !in seen) && Distinct(hs)
  }

  predicate ElementsOk(c: Context, vs: seq<Value>) {
    ItemsOk(c.schema, c.arrayElementIndex, vs)
    && (Wants(c) ==> FreshHashes(c.elementHashes, ElementHashes(vs)))
  }

  /** The array's context after its next elements. */
  function ItemsDone(c: Context, vs: seq<Value>): Context {
    if vs == [] then c
    else c.(valueUniqueness := Wants(c),
            valueSchema := ItemSchema(c.schema, c.arrayElementIndex + |vs| - 1),
            arrayElementIndex := c.arrayElementIndex + |vs|,
            elementHashes := if Wants(c) then c.elementHashes + ElementHashes(vs) else c.elementHashes)
  }

  lemma ItemsDoneSane(c: Context, vs: seq<Value>, d: nat)
    requires SaneContext(c, d)
    ensures SaneContext(ItemsDone(c, vs), d)
  {
    hide Depth, ItemSchema;
    if vs != [] {
      ChildDepth(c.schema, c.arrayElementIndex + |vs| - 1, []);
      SaneUpdate(c, ItemsDone(c, vs), d);
    }
  }

  /** What the events of the elements do below does not interfere with the array's own bookkeeping. */
  lemma ItemsRun(c: Context, vs: seq<Value>, d: nat, es: seq<Event>)
    requires SaneContext(c, d) && SaneContext(ItemsDone(c, vs), d)
    ensures RunContext(ItemsDone(c, vs), d, es) == ItemsDone(RunContext(c, d, es), vs)
    ensures ElementsOk(RunContext(c, d, es), vs) == ElementsOk(c, vs)
  {
    hide SaneContext, Run, HashRun, ItemSchema, ElementHashes;
  }

  lemma FreshHashesStep(seen: seq<HashCode>, h: HashCode, hs: seq<HashCode>)
    ensures FreshHashes(seen, [h] + hs) <==> h !in seen && FreshHashes(seen + [h], hs)
  {
    var all := [h] + hs;
    assert forall i :: 0 <= i < |hs| ==> all[i + 1] == hs[i];
    assert all[0] == h;
    if h !in seen && FreshHashes(seen + [h], hs) {
      forall i, j | 0 <= i < j < |all| ensures all[i] != all[j] {
        assert all[j] == hs[j - 1] && hs[j - 1] !in seen + [h];
      }
      forall i | 0 <= i < |all| ensures all[i] !in seen {
        if i > 0 {
          assert hs[i - 1] !in seen + [h];
        }
      }
    }
    if FreshHashes(seen, all) {
      forall i | 0 <= i < |hs| ensures hs[i] !in seen + [h] {
        assert all[i + 1] !in seen && all[0] != all[i + 1];
      }
      forall i, j | 0 <= i < j < |hs| ensures hs[i] != hs[j] {
        assert all[i + 1] != all[j + 1];
      }
    }
  }

  lemma ItemsOkStep(s: Schema, k: nat, vs: seq<Value>)
    requires vs != []
    ensures ItemsOk(s, k, vs) <==> ItemsOk(s, k, vs[..1]) && ItemsOk(s, k + 1, vs[1..])
  {
    hide ItemOk;
    var first, rest := vs[..1], vs[1..];
    assert first[0] == vs[0];
    if ItemsOk(s, k, first) && ItemsOk(s, k + 1, rest) {
      forall i | 0 <= i < |vs| ensures ItemOk(s, k + i, vs[i]) {
        if i == 0 {
          assert ItemOk(s, k + 0, first[0]);
        } else {
          assert ItemOk(s, k + 1 + (i - 1), rest[i - 1]);
        }
      }
    }
    if ItemsOk(s, k, vs) {
      forall i | 0 <= i < |rest| ensures ItemOk(s, k + 1 + i, rest[i]) {
        assert ItemOk(s, k + (i + 1), vs[i + 1]);
      }
      assert ItemOk(s, k + 0, vs[0]);
      assert ItemsOk(s, k, first);
    }
  }

  lemma HashesOfFirst(vs: seq<Value>)
    requires vs != []
    ensures ElementHashes(vs[..1]) == [TreeHash(vs[0])]
    ensures ElementHashes(vs) == [TreeHash(vs[0])] + ElementHashes(vs[1..])
  {
    hide TreeHash;
    assert vs[..1][1..] == [] && vs[..1][0] == vs[0];
    assert ElementHashes([]) == [];
  }

  lemma ElementsStep(c: Context, vs: seq<Value>)
    requires vs != []
    ensures ElementsOk(c, vs) <==> ElementsOk(c, vs[..1]) && ElementsOk(ItemsDone(c, vs[..1]), vs[1..])
    ensures ItemsDone(ItemsDone(c, vs[..1]), vs[1..]) == ItemsDone(c, vs)
  {
    hide ItemsOk, FreshHashes, TreeHash, ElementHashes, ItemSchema;
    ItemsOkStep(c.schema, c.arrayElementIndex, vs);
    HashesOfFirst(vs);
    var h := TreeHash(vs[0]);
    FreshHashesStep(c.elementHashes, h, ElementHashes(vs[1..]));
    OneFresh(c.elementHashes, h);
    if |vs| == 1 {
      assert vs[..1] == vs && vs[1..] == [];
      assert ElementHashes([]) == [] by { NoHashes(); }
      NothingFresh(c.elementHashes + [h]);
    }
    assert c.elementHashes + [h] + ElementHashes(vs[1..]) == c.elementHashes + ElementHashes(vs);
  }

  lemma NoHashes()
    ensures ElementHashes([]) == []
  {
  }

  lemma NothingFresh(seen: seq<HashCode>)
    ensures FreshHashes(seen, [])
  {
  }

  lemma OneFresh(seen: seq<HashCode>, h: HashCode)
    ensures FreshHashes(seen, [h]) <==> h !in seen
  {
    FreshHashesStep(seen, h, []);
    assert [h] + [] == [h];
  }

  /** One element, seen from the array's context. */
  lemma ElementMeans(p: Producer, v: Value, w: Validator, outer: seq<Context>, top: Context)
    requires Sane(w) && w.valid && SaneStack(outer, Depth(w.root)) && SaneContext(top, Depth(w.root))
    requires w.stack == outer + [top] && top.inArray && Decides(p, v, w)
    ensures SaneContext(ItemsDone(top, [v]), Depth(w.root))
    ensures Run(w, Events(p, v)).valid <==> ElementsOk(top, [v])
    ensures Run(w, Events(p, v)).valid ==>
              Run(w, Events(p, v)) == Inner(w, outer, ItemsDone(top, [v]), Events(p, v))
  {
    hide Depth, SaneContext, RunStack, RunContext, Valid, TreeHash, ItemSchema, Run, Events, DropToken, ElementHashes,
         FreshHashes, IndexToken;
    var d := Depth(w.root);
    HashesOfFirst([v]);
    assert [v][..1] == [v];
    OneFresh(top.elementHashes, TreeHash(v));
    ItemsDoneSane(top, [v], d);
    assert Record(Base(w), d, TreeHash(v)) == outer + [ItemsDone(top, [v])];
    RunPush(outer, ItemsDone(top, [v]), d, Events(p, v));
    DropIndex(w.document, top.arrayElementIndex);
    assert ItemsOk(top.schema, top.arrayElementIndex, [v])
      <==> NextSchema(w).TheSchema? && Valid(NextSchema(w).schema, v) by {
      assert [v][0] == v && NextSchema(w) == ItemSchema(top.schema, top.arrayElementIndex + 0);
      assert ItemOk(top.schema, top.arrayElementIndex + 0, [v][0])
        <==> NextSchema(w).TheSchema? && Valid(NextSchema(w).schema, v);
    }
  }

  lemma RunShell(c: Context, d: nat, es: seq<Event>)
    requires SaneContext(c, d)
    ensures var r := RunContext(c, d, es); r == c.(hasher := r.hasher, validators := r.validators)
  {
    hide SaneContext, Run, HashRun;
  }

  lemma RunNothing(w: Validator, outer: seq<Context>, top: Context)
    requires Sane(w) && SaneStack(outer, Depth(w.root)) && SaneContext(top, Depth(w.root))
    requires w.stack == outer + [top]
    ensures Run(w, []) == w == Inner(w, outer, top, [])
  {
    hide Depth, SaneContext, Sane;
    var d := Depth(w.root);
    forall i | 0 <= i < |w.stack| ensures RunContext(w.stack[i], d, []) == w.stack[i] {
      ContextNothing(w.stack[i], d);
    }
    hide RunContext;
    assert RunStack(outer, d, []) == outer by {
      assert forall i :: 0 <= i < |outer| ==> w.stack[i] == outer[i];
    }
    assert w.stack[|outer|] == top;
  }

  lemma ContextNothing(c: Context, d: nat)
    requires SaneContext(c, d)
    ensures RunContext(c, d, []) == c
  {
    hide Step, Sane;
  }

  /** The elements of an array, whatever surrounds it. */
  lemma {:induction false} RunElements(p: Producer, vs: seq<Value>, w: Validator, outer: seq<Context>, top: Context)
    requires Sane(w) && w.valid && SaneStack(outer, Depth(w.root)) && SaneContext(top, Depth(w.root))
    requires w.stack == outer + [top] && top.inArray
    ensures SaneContext(ItemsDone(top, vs), Depth(w.root))
    ensures Run(w, ElementEvents(p, vs)).valid <==> ElementsOk(top, vs)
    ensures Run(w, ElementEvents(p, vs)).valid ==>
              Run(w, ElementEvents(p, vs)) == Inner(w, outer, ItemsDone(top, vs), ElementEvents(p, vs))
    decreases vs, 0, 0
  {
    hide Depth, SaneContext, RunStack, RunContext, Sane, ElementsOk, Events, Run, ItemSchema, ElementHashes, Wants,
         Decides;
    var d := Depth(w.root);
    ItemsDoneSane(top, vs, d);
    if vs == [] {
      RunNothing(w, outer, top);
      NoElements(top);
    } else {
      var v, rest := vs[0], vs[1..];
      assert vs[..1] == [v];
      ElementsStep(top, vs);
      RunValue(p, v, w);
      ElementMeans(p, v, w, outer, top);
      var es, more := Events(p, v), ElementEvents(p, rest);
      RunConcat(w, es, more);
      var w1 := Run(w, es);
      if w1.valid {
        var done := ItemsDone(top, [v]);
        RunShell(done, d, es);
        RunElements(p, rest, w1, RunStack(outer, d, es), RunContext(done, d, es));
        ItemsRun(done, rest, d, es);
        InnerThen(w, outer, ItemsDone(top, vs), es, more);
      } else {
        RunInvalid(w1, more);
      }
    }
  }

  lemma NoElements(c: Context)
    ensures ElementsOk(c, [])
  {
    NoHashes();
    NothingFresh(c.elementHashes);
  }

  // ---------------------------------------------------------------- arrays

  /** Opening an array or object. */
  lemma StepStart(w: Validator, e: Event)
    requires Sane(w) && w.valid && Ready(w) && (e.StartArray? || e.StartObject?)
    ensures NextSchema(w).TheSchema? ==> SaneContext(Opened(w, e), Depth(w.root))
    ensures if NextSchema(w).TheSchema? && CheckStart(NextSchema(w).schema, e)
            then Step(w, e) == Inner(w.(document := DocumentIn(w)), Base(w), Opened(w, e), [e])
            else !Step(w, e).valid
  {
    hide Depth, CheckStart, SaneContext, RunStack, RunContext, Base, Opened, Begin, FanOut, NextSchema, DocumentIn,
         Ready, Sane, EndValue;
    BeginMeans(w, e);
    if NextSchema(w).TheSchema? {
      OpenedIsSane(w, e);
      if CheckStart(NextSchema(w).schema, e) {
        FirstMeans(w, e);
      }
    }
  }

  lemma ArrayShape(s: Schema, vs: seq<Value>, c: Context)
    requires c.schema == s && c.arrayElementIndex == 0 && !c.valueUniqueness && c.elementHashes == []
    ensures Shaped(s, Array(vs)) <==>
              CheckStart(s, StartArray) && ElementsOk(c, vs) && Within(|vs|, s.minItems, s.maxItems)
  {
    hide Valid, ItemSchema, ElementHashes;
    forall i | 0 <= i < |vs|
      ensures ItemOk(s, 0 + i, vs[i]) <==> ItemSchema(s, i).TheSchema? && Valid(ItemSchema(s, i).schema, vs[i])
    {
    }
    hide ItemOk;
    if ItemsOk(s, 0, vs) {
      assert forall i :: 0 <= i < |vs| ==> ItemOk(s, 0 + i, vs[i]);
    }
  }

  /** Closing an array whose elements were all accepted. */
  lemma CloseArrayMeans(p: Producer, v: Value, w: Validator, last: Validator, es: seq<Event>)
    requires Sane(w) && w.valid && NextSchema(w).TheSchema? && v.Array?
    requires NestedDecide(p, v, NextSchema(w).schema) && SaneContext(Opened(w, StartArray), Depth(w.root))
    requires SaneContext(ItemsDone(Opened(w, StartArray), v.elements), Depth(w.root))
    requires es + [EndArray(|v.elements|)] == Events(p, v)
    requires Sane(last)
          && last == Inner(w.(document := DocumentIn(w)), Base(w), ItemsDone(Opened(w, StartArray), v.elements), es)
    ensures var s := NextSchema(w).schema;
            var r := Step(last, EndArray(|v.elements|));
            && (r.valid <==> Within(|v.elements|, s.minItems, s.maxItems) && Combined(s, v)
                             && FreshIn(Base(w), TreeHash(v)))
            && (r.valid ==> r == After(w, v, Events(p, v)))
  {
    hide Depth, SaneContext, RunStack, RunContext, Base, NextSchema, DocumentIn, After, EndValue, Events, Combined,
         TreeHash, NestedDecide, Sane, Run, Step, FreshIn, Unique, Within, ParallelSchemas, ItemSchema, ElementHashes;
    var d := Depth(w.root);
    var s := NextSchema(w).schema;
    var vs := v.elements;
    var open := Opened(w, StartArray);
    var done := ItemsDone(open, vs);
    var close := EndArray(|vs|);
    StepEnd(last, close, RunStack(Base(w), d, es), RunContext(done, d, es));
    RunShell(done, d, es);
    RunStackConcat(Base(w), d, es, [close]);
    RunContextConcat(done, d, es, [close]);
    ItemsRun(open, vs, d, Events(p, v));
    RunCarries(p, v, s, Unique(Base(w)), StartArray, d);
    var shut := RunContext(done, d, Events(p, v)).(inArray := false);
    assert Carries(shut, s, p, v) && shut.arrayUniqueness == Unique(Base(w));
    var closed := last.(stack := RunStack(Base(w), d, Events(p, v)) + [shut]);
    hide Carries, Opened, ItemsDone;
    EndMeans(p, v, w, closed, shut, Events(p, v));
  }

  lemma ArrayDecides(p: Producer, v: Value, w: Validator)
    requires Sane(w) && w.valid && Ready(w) && v.Array?
    requires NextSchema(w).TheSchema? ==> NestedDecide(p, v, NextSchema(w).schema)
    ensures Decides(p, v, w)
    decreases v, DepthOf(NextSchema(w)), 0
  {
    var vs := v.elements;
    var es, close := ElementEvents(p, vs), EndArray(|vs|);
    assert Events(p, v) == [StartArray] + es + [close];
    hide Depth, SaneContext, RunStack, RunContext, Base, NextSchema, DocumentIn, After, EndValue, Events, Combined,
         TreeHash, NestedDecide, Sane, Run, Step, FreshIn, Within, Ready, CheckStart, Shaped, ElementsOk, Opened,
         ParallelSchemas, ItemSchema, ElementHashes;
    RunOne(w, StartArray);
    RunConcat(w, [StartArray], es);
    RunConcat(w, [StartArray] + es, [close]);
    StepStart(w, StartArray);
    var w1 := Step(w, StartArray);
    if NextSchema(w).TheSchema? {
      OpenedArray(w, vs);
    }
    if !w1.valid {
      RunInvalid(w1, es);
      RunInvalid(w1, [close]);
    } else {
      var d := Depth(w.root);
      var open := Opened(w, StartArray);
      var w0 := w.(document := DocumentIn(w));
      var outer, top := RunStack(Base(w), d, [StartArray]), RunContext(open, d, [StartArray]);
      RunShell(open, d, [StartArray]);
      RunElements(p, vs, w1, outer, top);
      ItemsDoneSane(open, vs, d);
      ItemsRun(open, vs, d, [StartArray]);
      var w2 := Run(w1, es);
      RunOne(w2, close);
      if w2.valid {
        InnerThen(w0, Base(w), ItemsDone(open, vs), [StartArray], es);
        CloseArrayMeans(p, v, w, w2, [StartArray] + es);
      } else {
        RunInvalid(w2, [close]);
      }
    }
  }

  lemma OpenedArray(w: Validator, vs: seq<Value>)
    requires Sane(w) && NextSchema(w).TheSchema?
    ensures Opened(w, StartArray).inArray
    ensures var s := NextSchema(w).schema;
            Shaped(s, Array(vs)) <==> CheckStart(s, StartArray) && ElementsOk(Opened(w, StartArray), vs)
                                      && Within(|vs|, s.minItems, s.maxItems)
  {
    ArrayShape(NextSchema(w).schema, vs, Opened(w, StartArray));
  }

  // ---------------------------------------------------------------- members

  predicate MemberOk(s: Schema, m: Member) {
    MemberSchema(s, m.name).TheSchema? && Valid(MemberSchema(s, m.name).schema, m.value)
  }

  predicate MembersOk(s: Schema, ms: seq<Member>) {
    forall i :: 0 <= i < |ms| ==> MemberOk(s, ms[i])
  }

  function Marks(s: Schema, exist: seq<bool>, ms: seq<Member>): (r: seq<bool>)
    ensures |r| == |exist|
    decreases ms
  {
    if ms == [] then exist
    else
      var index := FindProperty(s.properties, ms[0].name);
      Marks(s, if index.Index? && index.i < |exist| then exist[index.i := true] else exist, ms[1..])
  }

  /** A property is marked exactly when one of the members is the one it is named for. */
  lemma {:induction false} MarksMean(s: Schema, exist: seq<bool>, ms: seq<Member>, i: nat)
    requires i < |exist|
    ensures Marks(s, exist, ms)[i] <==> exist[i] || Seen(s, ms, i)
    decreases ms
  {
    if ms != [] {
      var index := FindProperty(s.properties, ms[0].name);
      var next := if index.Index? && index.i < |exist| then exist[index.i := true] else exist;
      MarksMean(s, next, ms[1..], i);
      if k :| 0 <= k < |ms| && FindProperty(s.properties, ms[k].name) == Index(i) {
        assert k > 0 ==> ms[k] == ms[1..][k - 1];
      }
      if k :| 0 <= k < |ms[1..]| && FindProperty(s.properties, ms[1..][k].name) == Index(i) {
        assert ms[1..][k] == ms[k + 1];
      }
    }
  }

  /** The object's context after its next members. */
  function MembersDone(c: Context, ms: seq<Member>): Context {
    if ms == [] then c
    else c.(propertyExist := Marks(c.schema, c.propertyExist, ms),
            valueSchema := MemberSchema(c.schema, ms[|ms| - 1].name))
  }

  lemma MembersDoneSane(c: Context, ms: seq<Member>, d: nat)
    requires SaneContext(c, d)
    ensures SaneContext(MembersDone(c, ms), d)
  {
    hide Depth, MemberSchema;
    if ms != [] {
      ChildDepth(c.schema, 0, ms[|ms| - 1].name);
      SaneUpdate(c, MembersDone(c, ms), d);
    }
  }

  lemma MembersRun(c: Context, ms: seq<Member>, d: nat, es: seq<Event>)
    requires SaneContext(c, d) && SaneContext(MembersDone(c, ms), d)
    ensures RunContext(MembersDone(c, ms), d, es) == MembersDone(RunContext(c, d, es), ms)
  {
    hide SaneContext, Run, HashRun, MemberSchema, Marks;
  }

  lemma MembersStep(c: Context, ms: seq<Member>)
    requires ms != []
    ensures MembersOk(c.schema, ms) <==> MemberOk(c.schema, ms[0]) && MembersOk(c.schema, ms[1..])
    ensures MembersDone(MembersDone(c, [ms[0]]), ms[1..]) == MembersDone(c, ms)
    ensures MembersDone(c, [ms[0]]) == KeyContext(c, ms[0].name)
  {
    hide MemberOk, MemberSchema;
    assert [ms[0]][1..] == [];
    var index := FindProperty(c.schema.properties, ms[0].name);
    var next := if index.Index? && index.i < |c.propertyExist| then c.propertyExist[index.i := true] else c.propertyExist;
    assert Marks(c.schema, next, []) == next;
    assert forall i :: 1 <= i < |ms| ==> ms[i] == ms[1..][i - 1];
  }

  lemma KeyMeans(w: Validator, outer: seq<Context>, top: Context, name: Bytes)
    requires Sane(w) && w.valid && SaneStack(outer, Depth(w.root)) && SaneContext(top, Depth(w.root))
    requires w.stack == outer + [top]
    requires SaneContext(KeyContext(top, name), Depth(w.root))
    ensures if MemberSchema(top.schema, name).TheSchema?
            then Step(w, Key(name))
              == Inner(w.(document := w.document + NameToken(name)), outer, KeyContext(top, name), [Key(name)])
            else !Step(w, Key(name)).valid
  {
    hide Depth, SaneContext, RunStack, RunContext, Begin, FanOut, EndValue, MemberSchema, NameToken, KeyContext, Sane;
    if MemberSchema(top.schema, name).TheSchema? {
      var b := BeginKey(w, name);
      assert b.stack == outer + [KeyContext(top, name)];
      RunStackOne(b, Key(name));
      RunPush(outer, KeyContext(top, name), Depth(w.root), [Key(name)]);
    }
  }

  /** The value of a member, seen from the object's context. */
  lemma MemberValueMeans(p: Producer, v: Value, w: Validator, outer: seq<Context>, top: Context, document: Bytes, name: Bytes)
    requires Sane(w) && w.valid && SaneStack(outer, Depth(w.root)) && SaneContext(top, Depth(w.root))
    requires w.stack == outer + [top] && !top.inArray && !top.valueUniqueness && top.valueSchema.TheSchema?
    requires w.document == document + NameToken(name) && Decides(p, v, w)
    ensures Run(w, Events(p, v)).valid <==> Valid(top.valueSchema.schema, v)
    ensures Run(w, Events(p, v)).valid ==>
              Run(w, Events(p, v)) == Inner(w.(document := document), outer, top, Events(p, v))
  {
    hide Depth, SaneContext, RunStack, RunContext, Valid, TreeHash, ItemSchema, Run, Events, DropToken, NameToken;
    DropName(document, name);
    RunPush(outer, top, Depth(w.root), Events(p, v));
    assert Record(Base(w), Depth(w.root), TreeHash(v)) == w.stack;
  }

  lemma KeyShell(c: Context, name: Bytes)
    ensures var k := KeyContext(c, name);
            && k == c.(propertyExist := k.propertyExist, valueSchema := k.valueSchema)
            && k.valueSchema == MemberSchema(c.schema, name)
  {
  }

  /** The members of an object, whatever surrounds it. */
  lemma {:induction false} RunMembers(p: Producer, ms: seq<Member>, w: Validator, outer: seq<Context>, top: Context)
    requires Sane(w) && w.valid && SaneStack(outer, Depth(w.root)) && SaneContext(top, Depth(w.root))
    requires w.stack == outer + [top] && !top.inArray && !top.valueUniqueness
    ensures SaneContext(MembersDone(top, ms), Depth(w.root))
    ensures Run(w, MemberEvents(p, ms)).valid <==> MembersOk(top.schema, ms)
    ensures Run(w, MemberEvents(p, ms)).valid ==>
              Run(w, MemberEvents(p, ms)) == Inner(w, outer, MembersDone(top, ms), MemberEvents(p, ms))
    decreases ms, 0, 0
  {
    hide Depth, SaneContext, RunStack, RunContext, Sane, Events, Run, MemberSchema, MemberOk, Marks, KeyContext,
         Decides;
    var d := Depth(w.root);
    MembersDoneSane(top, ms, d);
    if ms == [] {
      RunNothing(w, outer, top);
    } else {
      var m, rest := ms[0], ms[1..];
      var one, more := [Key(m.name)] + Events(p, m.value), MemberEvents(p, rest);
      MembersStep(top, ms);
      hide MembersOk;
      RunConcat(w, one, more);
      RunMember(p, m, w, outer, top);
      var w1 := Run(w, one);
      if w1.valid {
        var done := MembersDone(top, [m]);
        RunShell(done, d, one);
        RunMembers(p, rest, w1, RunStack(outer, d, one), RunContext(done, d, one));
        MembersRun(done, rest, d, one);
        InnerThen(w, outer, MembersDone(top, ms), one, more);
      } else {
        RunInvalid(w1, more);
      }
    }
  }

  /** One member: its key, then its value. */
  lemma {:induction false} RunMember(p: Producer, m: Member, w: Validator, outer: seq<Context>, top: Context)
    requires Sane(w) && w.valid && SaneStack(outer, Depth(w.root)) && SaneContext(top, Depth(w.root))
    requires w.stack == outer + [top] && !top.inArray && !top.valueUniqueness
    ensures SaneContext(MembersDone(top, [m]), Depth(w.root))
    ensures Run(w, [Key(m.name)] + Events(p, m.value)).valid <==> MemberOk(top.schema, m)
    ensures var es := [Key(m.name)] + Events(p, m.value);
            Run(w, es).valid ==> Run(w, es) == Inner(w, outer, MembersDone(top, [m]), es)
    decreases m, 0, 0
  {
    hide Depth, SaneContext, RunStack, RunContext, Sane, Events, Run, MemberSchema, Marks, KeyContext, Valid, NameToken,
         Decides;
    var d := Depth(w.root);
    MembersDoneSane(top, [m], d);
    MembersStep(top, [m]);
    hide MembersDone, MembersOk;
    var key, es := [Key(m.name)], Events(p, m.value);
    var keyed := KeyContext(top, m.name);
    RunConcat(w, key, es);
    RunOne(w, Key(m.name));
    KeyMeans(w, outer, top, m.name);
    KeyShell(top, m.name);
    var w1 := Step(w, Key(m.name));
    if w1.valid {
      RunShell(keyed, d, key);
      var outer1, top1 := RunStack(outer, d, key), RunContext(keyed, d, key);
      RunValue(p, m.value, w1);
      MemberValueMeans(p, m.value, w1, outer1, top1, w.document, m.name);
      InnerThen(w, outer, keyed, key, es);
    } else {
      RunInvalid(w1, es);
    }
  }

  // ---------------------------------------------------------------- objects

  /** The marks of a finished object are the properties its members name. */
  ghost predicate Marked(c: Context, ms: seq<Member>) {
    forall i: nat :: Present(c, i) <==> Seen(c.schema, ms, i)
  }

  lemma DependencyVerdict(c: Context, s: Schema, p: Producer, v: Value, i: nat)
    requires Carries(c, s, p, v) && i < |s.properties| && s.properties[i].dependency.OnSchema?
    ensures DependencyBegin(s) + DependencySlot(s.properties, i) < |c.validators|
    ensures c.validators[DependencyBegin(s) + DependencySlot(s.properties, i)].valid
       <==> Valid(s.properties[i].dependency.schema, v)
  {
    hide Valid, TreeHash, ParallelSchemas;
    Slots(s);
  }

  /** One property's dependency, with the marks and the nested verdicts in place. */
  lemma DependencyMeans(c: Context, s: Schema, p: Producer, ms: seq<Member>, i: nat)
    requires Carries(c, s, p, Object(ms)) && Marked(c, ms) && i < |s.properties|
    ensures SlotsFit(c)
    ensures Present(c, i) && !CheckDependency(c, i)
       <==> !DependencyOk(s, ms, i)
            || (Seen(s, ms, i) && s.properties[i].dependency.OnSchema?
                && !Valid(s.properties[i].dependency.schema, Object(ms)))
  {
    hide Valid, TreeHash, ParallelSchemas, Seen, DependencySlot, Present;
    if s.properties[i].dependency.OnSchema? {
      DependencyVerdict(c, s, p, Object(ms), i);
    }
  }

  /** `Schema::EndObject` decides required, dependencies and the number of members. */
  lemma CheckEndObjectMeans(c: Context, s: Schema, p: Producer, ms: seq<Member>)
    requires Carries(c, s, p, Object(ms)) && (Marked(c, ms) || !TracksProperties(s))
    requires ObjectT in s.types && MembersOk(s, ms)
    ensures CheckEndObject(c, |ms|) <==> Shaped(s, Object(ms))
  {
    hide Valid, TreeHash, ParallelSchemas, Seen, MemberSchema, DependencySlot, FindProperty;
    assert forall i :: 0 <= i < |ms| ==> MemberOk(s, ms[i]);
    if TracksProperties(s) {
      forall i: nat | i < |s.properties|
        ensures Present(c, i) && !CheckDependency(c, i)
           <==> !DependencyOk(s, ms, i)
                || (Seen(s, ms, i) && s.properties[i].dependency.OnSchema?
                    && !Valid(s.properties[i].dependency.schema, Object(ms)))
      {
        DependencyMeans(c, s, p, ms, i);
      }
      hide DependencyOk, CheckDependency, Present, Within;
    }
  }

  lemma OpenedObject(w: Validator, ms: seq<Member>)
    requires Sane(w) && NextSchema(w).TheSchema?
    ensures var c := Opened(w, StartObject);
            && !c.inArray && !c.valueUniqueness && c.schema == NextSchema(w).schema
            && (Marked(MembersDone(c, ms), ms) || !TracksProperties(c.schema))
  {
    var c := Opened(w, StartObject);
    if TracksProperties(c.schema) {
      var done := MembersDone(c, ms);
      assert done.propertyExist == Marks(c.schema, c.propertyExist, ms);
      forall i: nat ensures Present(done, i) <==> Seen(c.schema, ms, i) {
        if i < |c.schema.properties| {
          MarksMean(c.schema, c.propertyExist, ms, i);
        }
      }
    }
  }

  /** Closing an object whose members were all accepted. */
  lemma CloseObjectMeans(p: Producer, v: Value, w: Validator, last: Validator, es: seq<Event>)
    requires Sane(w) && w.valid && NextSchema(w).TheSchema? && v.Object?
    requires NestedDecide(p, v, NextSchema(w).schema) && SaneContext(Opened(w, StartObject), Depth(w.root))
    requires SaneContext(MembersDone(Opened(w, StartObject), v.members), Depth(w.root))
    requires es + [EndObject(|v.members|)] == Events(p, v)
    requires Sane(last)
          && last == Inner(w.(document := DocumentIn(w)), Base(w), MembersDone(Opened(w, StartObject), v.members), es)
    requires ObjectT in NextSchema(w).schema.types && MembersOk(NextSchema(w).schema, v.members)
    ensures var s := NextSchema(w).schema;
            var r := Step(last, EndObject(|v.members|));
            && (r.valid <==> Shaped(s, v) && Combined(s, v) && FreshIn(Base(w), TreeHash(v)))
            && (r.valid ==> r == After(w, v, Events(p, v)))
  {
    hide Depth, SaneContext, RunStack, RunContext, Base, NextSchema, DocumentIn, After, EndValue, Events, Combined,
         TreeHash, NestedDecide, Sane, Run, Step, FreshIn, Unique, ParallelSchemas, MemberSchema, Marks, MembersOk,
         CheckEndObject, Shaped, TracksProperties, Seen;
    var d := Depth(w.root);
    var s := NextSchema(w).schema;
    var ms := v.members;
    var open := Opened(w, StartObject);
    var done := MembersDone(open, ms);
    var close := EndObject(|ms|);
    StepEnd(last, close, RunStack(Base(w), d, es), RunContext(done, d, es));
    RunStackConcat(Base(w), d, es, [close]);
    RunContextConcat(done, d, es, [close]);
    MembersRun(open, ms, d, Events(p, v));
    RunCarries(p, v, s, Unique(Base(w)), StartObject, d);
    OpenedObject(w, ms);
    RunShell(done, d, Events(p, v));
    var shut := RunContext(done, d, Events(p, v));
    assert Carries(shut, s, p, v) && shut.arrayUniqueness == Unique(Base(w));
    assert Marked(shut, ms) || !TracksProperties(s);
    var closed := last.(stack := RunStack(Base(w), d, Events(p, v)) + [shut]);
    hide Carries, Opened, MembersDone, Marked;
    CheckEndObjectMeans(shut, s, p, ms);
    EndMeans(p, v, w, closed, shut, Events(p, v));
  }

  lemma ObjectDecides(p: Producer, v: Value, w: Validator)
    requires Sane(w) && w.valid && Ready(w) && v.Object?
    requires NextSchema(w).TheSchema? ==> NestedDecide(p, v, NextSchema(w).schema)
    ensures Decides(p, v, w)
    decreases v, DepthOf(NextSchema(w)), 0
  {
    var ms := v.members;
    var es, close := MemberEvents(p, ms), EndObject(|ms|);
    assert Events(p, v) == [StartObject] + es + [close];
    hide Depth, SaneContext, RunStack, RunContext, Base, NextSchema, DocumentIn, After, EndValue, Events, Combined,
         TreeHash, NestedDecide, Sane, Run, Step, FreshIn, Ready, Shaped, MembersOk, Opened, ParallelSchemas,
         MemberSchema, Marks, Marked, TracksProperties, CheckStart;
    RunOne(w, StartObject);
    RunConcat(w, [StartObject], es);
    RunConcat(w, [StartObject] + es, [close]);
    StepStart(w, StartObject);
    var w1 := Step(w, StartObject);
    if NextSchema(w).TheSchema? {
      OpenedObject(w, ms);
      ShapedObject(NextSchema(w).schema, ms);
    }
    if !w1.valid {
      RunInvalid(w1, es);
      RunInvalid(w1, [close]);
    } else {
      var d := Depth(w.root);
      var open := Opened(w, StartObject);
      var w0 := w.(document := DocumentIn(w));
      var outer, top := RunStack(Base(w), d, [StartObject]), RunContext(open, d, [StartObject]);
      RunShell(open, d, [StartObject]);
      RunMembers(p, ms, w1, outer, top);
      MembersDoneSane(open, ms, d);
      MembersRun(open, ms, d, [StartObject]);
      var w2 := Run(w1, es);
      RunOne(w2, close);
      if w2.valid {
        InnerThen(w0, Base(w), MembersDone(open, ms), [StartObject], es);
        CloseObjectMeans(p, v, w, w2, [StartObject] + es);
      } else {
        RunInvalid(w2, [close]);
      }
    }
  }

  lemma ShapedObject(s: Schema, ms: seq<Member>)
    ensures CheckStart(s, StartObject) <==> ObjectT in s.types
    ensures Shaped(s, Object(ms)) ==> CheckStart(s, StartObject) && MembersOk(s, ms)
  {
    hide Valid, MemberSchema, Seen, FindProperty;
  }

  // ---------------------------------------------------------------- every value

  lemma {:induction false} NestedValues(p: Producer, v: Value, s: Schema)
    ensures NestedDecide(p, v, s)
    decreases v, Depth(s), 0
  {
    hide Run, Valid, Sane, ParallelSchemas, Events, Depth;
    forall i | 0 <= i < |ParallelSchemas(s)| ensures NestedDecides(p, v, ParallelSchemas(s)[i]) {
      var inner := ParallelSchemas(s)[i];
      ParallelDepth(s, i);
      NewIsSane(inner);
      RunValue(p, v, NewValidator(inner));
    }
  }

  /** One value in any surroundings: joint induction over the tree and the depth of the schema. */
  lemma {:induction false} RunValue(p: Producer, v: Value, w: Validator)
    requires Sane(w) && w.valid && Ready(w)
    ensures Decides(p, v, w)
    decreases v, DepthOf(NextSchema(w)), 1
  {
    hide Depth, Decides, Run, Ready, Sane;
    if NextSchema(w).TheSchema? {
      NestedValues(p, v, NextSchema(w).schema);
    }
    hide NextSchema, NestedDecide;
    if v.Array? {
      ArrayDecides(p, v, w);
    } else if v.Object? {
      ObjectDecides(p, v, w);
    } else {
      ScalarDecides(p, v, w);
    }
  }

  /**
    The streaming validator, fed with the events of any tree by either producer, ends up valid exactly when
    the recursive reading accepts the tree; its stack and document pointer are then empty again.
   */
  lemma StreamingAgrees(p: Producer, s: Schema, v: Value)
    ensures Sane(NewValidator(s))
    ensures Run(NewValidator(s), Events(p, v)).valid <==> Valid(s, v)
    ensures Valid(s, v) ==> Run(NewValidator(s), Events(p, v)) == NewValidator(s)
  {
    hide Run, Valid, Events, Depth, TreeHash;
    NewIsSane(s);
    RunValue(p, v, NewValidator(s));
  }
}
