/**
  The streaming validator: a stack of contexts driven by SAX events, each context fanning the events out to
  its hasher and to the nested validators of allOf, anyOf, oneOf, not and dependencies.
 */
module SchemaMachine {
  import opened Json
  import opened SchemaSpec
  import Writer

  // ---------------------------------------------------------------- the hasher

  /** One event of the hasher's stack machine. */
  function HashStep(stack: seq<HashCode>, e: Event): seq<HashCode> {
    match e
    case NullE => stack + [BufferHash(NULL_TYPE, [])]
    case BoolE(b) => stack + [BufferHash(if b then TRUE_TYPE else FALSE_TYPE, [])]
    case NumE(_, n) => stack + [BufferHash(NUMBER_TYPE, NumberImage(n))]
    case DoubleE(lexeme) => stack + [BufferHash(NUMBER_TYPE, lexeme)]
    case StringE(s) => stack + [BufferHash(STRING_TYPE, s)]
    case Key(s) => stack + [BufferHash(STRING_TYPE, s)]
    case StartObject => stack
    case StartArray => stack
    case EndObject(count) =>
      if |stack| < 2 * count then stack
      else
        var base := |stack| - 2 * count;
        stack[..base] + [ObjectHash(Mix(0, OBJECT_TYPE), stack[base..])]
    case EndArray(count) =>
      if |stack| < count then stack
      else
        var base := |stack| - count;
        stack[..base] + [ArrayHash(Mix(0, ARRAY_TYPE), stack[base..])]
  }

  // ---------------------------------------------------------------- state

  datatype MaybeHasher = NoHasher | Hasher(stack: seq<HashCode>)

  /** `SchemaValidationContext`, one per open value. */
  datatype Context = Context(
    schema: Schema,
    valueSchema: MaybeSchema,
    hasher: MaybeHasher,
    elementHashes: seq<HashCode>,
    validators: seq<Validator>,
    arrayElementIndex: nat,
    propertyExist: seq<bool>,
    inArray: bool,
    valueUniqueness: bool,
    arrayUniqueness: bool)

  /** `GenericSchemaValidator`. */
  datatype Validator = Validator(root: Schema, stack: seq<Context>, document: Bytes, valid: bool)

  function NewContext(s: Schema, arrayUniqueness: bool): Context {
    Context(s, NoSchema, NoHasher, [], [], 0, [], false, false, arrayUniqueness)
  }

  function NewValidator(s: Schema): Validator {
    Validator(s, [], [], true)
  }

  // ---------------------------------------------------------------- how deep schemas nest

  function Max(a: nat, b: nat): nat {
    if a < b then b else a
  }

  function DepthOf(s: MaybeSchema): nat
    decreases s, 0
  {
    if s.TheSchema? then Depth(s.schema) else 0
  }

  function DepthOfAll(ss: seq<Schema>): (d: nat)
    ensures forall i :: 0 <= i < |ss| ==> Depth(ss[i]) <= d
    decreases ss, 0
  {
    if ss == [] then 0
    else
      assert forall i :: 1 <= i < |ss| ==> ss[i] == ss[1..][i - 1];
      Max(Depth(ss[0]), DepthOfAll(ss[1..]))
  }

  function DepthOfProperty(p: Property): nat
    decreases p, 0
  {
    Max(Depth(p.schema), if p.dependency.OnSchema? then Depth(p.dependency.schema) else 0)
  }

  function DepthOfProperties(ps: seq<Property>): (d: nat)
    ensures forall i :: 0 <= i < |ps| ==> DepthOfProperty(ps[i]) <= d
    decreases ps, 1
  {
    if ps == [] then 0
    else
      assert forall i :: 1 <= i < |ps| ==> ps[i] == ps[1..][i - 1];
      Max(DepthOfProperty(ps[0]), DepthOfProperties(ps[1..]))
  }

  function DepthOfItems(items: Items): nat
    decreases items, 0
  {
    match items
    case AnyItems => 0
    case ListOf(s) => Depth(s)
    case TupleOf(ss) => DepthOfAll(ss)
  }

  function Depth(s: Schema): (d: nat)
    ensures d >= 1
    decreases s
  {
    1 + Max(Max(Max(DepthOfAll(s.allOf), DepthOfAll(s.anyOf)), Max(DepthOfAll(s.oneOf), DepthOf(s.not_))),
            Max(Max(DepthOfProperties(s.properties), DepthOf(s.additionalPropertiesSchema)),
                Max(DepthOfItems(s.items), DepthOf(s.additionalItemsSchema))))
  }

  // ---------------------------------------------------------------- nested validators

  function OptionalSchema(s: MaybeSchema): seq<Schema> {
    if s.TheSchema? then [s.schema] else []
  }

  /** The dependency schemas, in property order. */
  function DependencySchemas(ps: seq<Property>): seq<Schema> {
    if ps == [] then []
    else (if ps[0].dependency.OnSchema? then [ps[0].dependency.schema] else []) + DependencySchemas(ps[1..])
  }

  /** `dependenciesValidatorIndex` of property `i`, relative to the first dependency validator. */
  function DependencySlot(ps: seq<Property>, i: nat): (slot: nat)
    requires i < |ps| && ps[i].dependency.OnSchema?
    ensures slot < |DependencySchemas(ps)| && DependencySchemas(ps)[slot] == ps[i].dependency.schema
  {
    if i == 0 then 0
    else
      assert ps[1..][i - 1] == ps[i];
      (if ps[0].dependency.OnSchema? then 1 else 0) + DependencySlot(ps[1..], i - 1)
  }

  /** The schemas `CreateParallelValidator` makes validators for, in slot order. */
  function ParallelSchemas(s: Schema): seq<Schema> {
    s.allOf + s.anyOf + s.oneOf + OptionalSchema(s.not_) + DependencySchemas(s.properties)
  }

  function AnyOfBegin(s: Schema): nat { |s.allOf| }
  function OneOfBegin(s: Schema): nat { |s.allOf| + |s.anyOf| }
  function NotSlot(s: Schema): nat { |s.allOf| + |s.anyOf| + |s.oneOf| }
  function DependencyBegin(s: Schema): nat { NotSlot(s) + |OptionalSchema(s.not_)| }

  lemma {:induction false} DependencyDepth(ps: seq<Property>, d: nat)
    requires forall i :: 0 <= i < |ps| ==> DepthOfProperty(ps[i]) <= d
    ensures forall i :: 0 <= i < |DependencySchemas(ps)| ==> Depth(DependencySchemas(ps)[i]) <= d
    decreases ps
  {
    if ps != [] {
      assert forall i :: 1 <= i < |ps| ==> ps[i] == ps[1..][i - 1];
      DependencyDepth(ps[1..], d);
      var head := if ps[0].dependency.OnSchema? then [ps[0].dependency.schema] else [];
      assert DependencySchemas(ps) == head + DependencySchemas(ps[1..]);
      assert DepthOfProperty(ps[0]) <= d;
    }
  }

  /** Nested validators get strictly shallower schemas. */
  lemma ParallelDepth(s: Schema, i: nat)
    requires i < |ParallelSchemas(s)|
    ensures Depth(ParallelSchemas(s)[i]) < Depth(s)
  {
    var d := DepthOfProperties(s.properties);
    DependencyDepth(s.properties, d);
  }

  lemma TypelessDepth()
    ensures Depth(Typeless()) == 1
  {
  }

  /** The schemas of elements and members are no deeper than the schema of the array or object. */
  lemma ChildDepth(s: Schema, index: nat, name: Bytes)
    ensures DepthOf(ItemSchema(s, index)) <= Depth(s)
    ensures DepthOf(MemberSchema(s, name)) <= Depth(s)
  {
    TypelessDepth();
    var m := FindProperty(s.properties, name);
    if m.Index? {
      assert DepthOfProperty(s.properties[m.i]) <= DepthOfProperties(s.properties);
    }
  }

  // ---------------------------------------------------------------- the invariant of nesting

  /** Every nested validator, at every level, has a shallower root than the validator that owns it. */
  predicate Sane(w: Validator)
    decreases w
  {
    forall i :: 0 <= i < |w.stack| ==> SaneContext(w.stack[i], Depth(w.root))
  }

  predicate SaneContext(c: Context, d: nat)
    decreases c
  {
    && Depth(c.schema) <= d
    && DepthOf(c.valueSchema) <= d
    && forall i :: 0 <= i < |c.validators| ==> Depth(c.validators[i].root) < d && Sane(c.validators[i])
  }

  predicate SaneStack(cs: seq<Context>, d: nat) {
    forall i :: 0 <= i < |cs| ==> SaneContext(cs[i], d)
  }

  /** Only the schema, the value schema and the nested validators matter. */
  lemma SaneUpdate(c: Context, changed: Context, d: nat)
    requires SaneContext(c, d) && changed.schema == c.schema && changed.validators == c.validators
    requires DepthOf(changed.valueSchema) <= d
    ensures SaneContext(changed, d)
  {
  }

  lemma NewContextIsSane(s: Schema, arrayUniqueness: bool, d: nat)
    requires Depth(s) <= d
    ensures SaneContext(NewContext(s, arrayUniqueness), d)
  {
  }

  lemma NewIsSane(s: Schema)
    ensures Sane(NewValidator(s))
  {
  }

  // ---------------------------------------------------------------- the document pointer

  /** `AppendToken`: '~' and '/' inside a name are escaped. */
  function EscapedName(name: Bytes): Bytes {
    if name == [] then []
    else
      (if name[0] == 0x7E then [0x7E, 0x30] else if name[0] == 0x2F then [0x7E, 0x31] else [name[0]])
      + EscapedName(name[1..])
  }

  function NameToken(name: Bytes): Bytes {
    [0x2F] + EscapedName(name)
  }

  function IndexToken(index: nat): Bytes {
    [0x2F] + Writer.Decimal(index)
  }

  /** The loop at the end of `EndValue`: pops characters up to and including a '/'. */
  function DropToken(document: Bytes): Bytes {
    if document == [] then []
    else if document[|document| - 1] == 0x2F then document[..|document| - 1]
    else DropToken(document[..|document| - 1])
  }

  // ---------------------------------------------------------------- beginning a value

  /** `BeginValue`: pushes the context of the value about to start. */
  function BeginValue(w: Validator): (r: Validator)
    requires Sane(w)
    ensures r.root == w.root && Sane(r)
  {
    hide Depth, ItemSchema;
    if w.stack == [] then w.(stack := [NewContext(w.root, false)])
    else
      var n := |w.stack| - 1;
      var top := w.stack[n];
      if top.inArray then
        var document := w.document + IndexToken(top.arrayElementIndex);
        var unique := top.valueUniqueness || top.schema.uniqueItems;
        var item := ItemSchema(top.schema, top.arrayElementIndex);
        ChildDepth(top.schema, top.arrayElementIndex, []);
        if item.NoSchema? then
          SaneUpdate(top, top.(valueUniqueness := unique), Depth(w.root));
          w.(document := document, valid := false, stack := w.stack[n := top.(valueUniqueness := unique)])
        else
          var parent := top.(valueUniqueness := unique, valueSchema := item,
                             arrayElementIndex := top.arrayElementIndex + 1);
          SaneUpdate(top, parent, Depth(w.root));
          w.(document := document, stack := w.stack[n := parent] + [NewContext(item.schema, unique)])
      else if top.valueSchema.NoSchema? then
        SaneUpdate(top, top.(arrayUniqueness := top.valueUniqueness), Depth(w.root));
        w.(stack := w.stack[n := top.(arrayUniqueness := top.valueUniqueness)])
      else
        assert SaneContext(top, Depth(w.root)) && DepthOf(top.valueSchema) == Depth(top.valueSchema.schema);
        NewContextIsSane(top.valueSchema.schema, top.valueUniqueness, Depth(w.root));
        w.(stack := w.stack + [NewContext(top.valueSchema.schema, top.valueUniqueness)])
  }

  /** `CheckInt`, whose comparisons follow the integer type of the bound. */
  predicate CheckInt(s: Schema, i: int) {
    && (IntegerT in s.types || NumberT in s.types)
    && (s.minimum.BoundAt? ==>
          if s.minimum.n <= INT64_MAX then !(if s.exclusiveMinimum then i <= s.minimum.n else i < s.minimum.n)
          else false)
    && (s.maximum.BoundAt? ==>
          if s.maximum.n <= INT64_MAX then !(if s.exclusiveMaximum then i >= s.maximum.n else i > s.maximum.n)
          else true)
    && (s.multipleOf.BoundAt? && s.multipleOf.n > 0 ==> (if i >= 0 then i else -i) % s.multipleOf.n == 0)
  }

  /** `CheckUint`. */
  predicate CheckUint(s: Schema, i: int) {
    && (IntegerT in s.types || NumberT in s.types)
    && (s.minimum.BoundAt? ==>
          if s.minimum.n >= 0 then !(if s.exclusiveMinimum then i <= s.minimum.n else i < s.minimum.n) else true)
    && (s.maximum.BoundAt? ==>
          if s.maximum.n >= 0 then !(if s.exclusiveMaximum then i >= s.maximum.n else i > s.maximum.n) else false)
    && (s.multipleOf.BoundAt? && s.multipleOf.n > 0 ==> i % s.multipleOf.n == 0)
  }

  /** The checks made when a value starts. */
  predicate CheckStart(s: Schema, e: Event) {
    match e
    case NullE => NullT in s.types
    case BoolE(_) => BooleanT in s.types
    case NumE(kind, n) => if kind == Int || kind == Int64 then CheckInt(s, n) else CheckUint(s, n)
    case DoubleE(_) => NumberT in s.types
    case StringE(_) => StringT in s.types
    case StartObject => ObjectT in s.types
    case StartArray => ArrayT in s.types
    case _ => true
  }

  predicate TracksProperties(s: Schema) {
    exists i :: 0 <= i < |s.properties| && (s.properties[i].required || !s.properties[i].dependency.NoDependency?)
  }

  /** What a starting value sets up in its context: property marks, array state, hasher, nested validators. */
  function OpenContext(c: Context, e: Event): Context {
    var c1 := if e.StartObject? && TracksProperties(c.schema) then
                c.(propertyExist := seq(|c.schema.properties|, _ => false))
              else if e.StartArray? then c.(arrayElementIndex := 0, inArray := true)
              else c;
    var c2 := if c.schema.enumHashes != [] || c.arrayUniqueness then c1.(hasher := Hasher([])) else c1;
    c2.(validators := seq(|ParallelSchemas(c.schema)|,
                          i requires 0 <= i < |ParallelSchemas(c.schema)| => NewValidator(ParallelSchemas(c.schema)[i])))
  }

  lemma OpenIsSane(c: Context, e: Event, d: nat)
    requires SaneContext(c, d)
    ensures SaneContext(OpenContext(c, e), d)
  {
    hide Depth, ParallelSchemas, TracksProperties;
    forall i | 0 <= i < |ParallelSchemas(c.schema)|
      ensures Depth(ParallelSchemas(c.schema)[i]) < d && Sane(NewValidator(ParallelSchemas(c.schema)[i]))
    {
      ParallelDepth(c.schema, i);
    }
  }

  /** RAPIDJSON_SCHEMA_HANDLE_BEGIN_: push, check, open. */
  function Begin(w: Validator, e: Event): (r: Validator)
    requires Sane(w)
    ensures r.root == w.root && Sane(r)
  {
    var b := BeginValue(w);
    if !b.valid || b.stack == [] then b.(valid := false)
    else
      var n := |b.stack| - 1;
      if !CheckStart(b.stack[n].schema, e) then b.(valid := false)
      else
        OpenIsSane(b.stack[n], e, Depth(w.root));
        b.(stack := b.stack[n := OpenContext(b.stack[n], e)])
  }

  // ---------------------------------------------------------------- keys

  /** `Schema::Key`: chooses the schema of the value to come and marks the property. */
  function KeyContext(c: Context, name: Bytes): Context {
    var index := FindProperty(c.schema.properties, name);
    var marked := if index.Index? && index.i < |c.propertyExist| then
                    c.(propertyExist := c.propertyExist[index.i := true])
                  else c;
    marked.(valueSchema := MemberSchema(c.schema, name))
  }

  function BeginKey(w: Validator, name: Bytes): (r: Validator)
    requires Sane(w)
    ensures r.root == w.root && Sane(r)
  {
    var document := w.document + NameToken(name);
    if w.stack == [] then w.(document := document, valid := false)
    else
      var n := |w.stack| - 1;
      var top := w.stack[n];
      ChildDepth(top.schema, 0, name);
      if MemberSchema(top.schema, name).NoSchema? then w.(document := document, valid := false)
      else
        SaneUpdate(top, KeyContext(top, name), Depth(w.root));
        w.(document := document, stack := w.stack[n := KeyContext(top, name)])
  }

  // ---------------------------------------------------------------- ending a value

  /** How many of the validators from `begin` to `end` are still valid. */
  function CountStillValid(ws: seq<Validator>): nat {
    if ws == [] then 0 else (if ws[0].valid then 1 else 0) + CountStillValid(ws[1..])
  }

  predicate SlotsFit(c: Context) {
    |c.validators| == |ParallelSchemas(c.schema)|
  }

  /** `Schema::EndValue`: enum by hash, then the combinators by the verdicts of the nested validators. */
  predicate CheckEnd(c: Context) {
    var s := c.schema;
    && (s.enumHashes == [] ||
        (c.hasher.Hasher? && c.hasher.stack != [] && c.hasher.stack[|c.hasher.stack| - 1] in s.enumHashes))
    && SlotsFit(c)
    && (forall i :: 0 <= i < |s.allOf| ==> c.validators[i].valid)
    && (s.anyOf == [] || exists i :: AnyOfBegin(s) <= i < OneOfBegin(s) && c.validators[i].valid)
    && (s.oneOf == [] || CountStillValid(c.validators[OneOfBegin(s)..NotSlot(s)]) == 1)
    && (s.not_.TheSchema? ==> !c.validators[NotSlot(s)].valid)
  }

  predicate Present(c: Context, i: nat) {
    i < |c.propertyExist| && c.propertyExist[i]
  }

  predicate CheckDependency(c: Context, i: nat)
    requires SlotsFit(c) && i < |c.schema.properties|
  {
    match c.schema.properties[i].dependency
    case NoDependency => true
    case OnProperties(targets) => forall j: nat :: j < |targets| && targets[j] ==> Present(c, j)
    case OnSchema(_) => c.validators[DependencyBegin(c.schema) + DependencySlot(c.schema.properties, i)].valid
  }

  /** `Schema::EndObject`. */
  predicate CheckEndObject(c: Context, count: nat) {
    var s := c.schema;
    && (forall i: nat :: i < |s.properties| && s.properties[i].required ==> Present(c, i))
    && Within(count, s.minProperties, s.maxProperties)
    && SlotsFit(c)
    && forall i: nat :: i < |s.properties| && Present(c, i) ==> CheckDependency(c, i)
  }

  /** `EndValue`: pops the context, then checks the value's hash against its siblings'. */
  function EndValue(w: Validator): (r: Validator)
    requires Sane(w)
    ensures r.root == w.root && Sane(r)
  {
    hide Depth, CheckEnd;
    if w.stack == [] || !CheckEnd(w.stack[|w.stack| - 1]) then w.(valid := false)
    else
      var top := w.stack[|w.stack| - 1];
      var outer := w.stack[..|w.stack| - 1];
      var h := if top.arrayUniqueness && top.hasher.Hasher? && top.hasher.stack != [] then
                 top.hasher.stack[|top.hasher.stack| - 1]
               else 0;
      if outer != [] && outer[|outer| - 1].valueUniqueness then
        var parent := outer[|outer| - 1];
        if h in parent.elementHashes then w.(stack := outer, valid := false)
        else
          var extended := parent.(elementHashes := parent.elementHashes + [h]);
          SaneUpdate(parent, extended, Depth(w.root));
          w.(stack := outer[|outer| - 1 := extended], document := DropToken(w.document))
      else w.(stack := outer, document := DropToken(w.document))
  }

  lemma ShutIsSane(w: Validator, n: nat)
    requires Sane(w) && n < |w.stack|
    ensures Sane(w.(stack := w.stack[n := w.stack[n].(inArray := false)]))
  {
    hide Depth;
    SaneUpdate(w.stack[n], w.stack[n].(inArray := false), Depth(w.root));
  }

  /** `EndArray` and `EndObject` once everyone has seen the event: the counts, then the end of the value. */
  function Closed(w: Validator, e: Event): (r: Validator)
    requires Sane(w) && (e.EndArray? || e.EndObject?)
    ensures r.root == w.root && Sane(r)
  {
    hide Depth, SaneContext;
    if w.stack == [] then w.(valid := false)
    else
      var n := |w.stack| - 1;
      ShutIsSane(w, n);
      var top := if e.EndArray? then w.stack[n].(inArray := false) else w.stack[n];
      var shut := w.(stack := w.stack[n := top]);
      assert w.stack[n := w.stack[n]] == w.stack;
      var ok := if e.EndArray? then Within(e.elementCount, top.schema.minItems, top.schema.maxItems)
                else CheckEndObject(top, e.memberCount);
      if !ok then shut.(valid := false) else EndValue(shut)
  }

  // ---------------------------------------------------------------- one event

  predicate IsScalarEvent(e: Event) {
    e.NullE? || e.BoolE? || e.NumE? || e.DoubleE? || e.StringE?
  }

  /** One event. An invalid validator ignores everything. */
  function Step(w: Validator, e: Event): (r: Validator)
    requires Sane(w)
    ensures r.root == w.root && Sane(r)
    decreases Depth(w.root), 3
  {
    if !w.valid then w
    else if IsScalarEvent(e) then
      var b := Begin(w, e);
      if !b.valid then b else EndValue(FanOut(b, e))
    else if e.StartObject? || e.StartArray? then
      var b := Begin(w, e);
      if !b.valid then b else FanOut(b, e)
    else if e.Key? then
      var b := BeginKey(w, e.name);
      if !b.valid then b else FanOut(b, e)
    else Closed(FanOut(w, e), e)
  }

  /** RAPIDJSON_SCHEMA_HANDLE_PARALLEL_: every context on the stack passes the event on. */
  function FanOut(w: Validator, e: Event): (r: Validator)
    requires Sane(w)
    ensures r.root == w.root && r.document == w.document && r.valid == w.valid && |r.stack| == |w.stack|
    ensures Sane(r)
    decreases Depth(w.root), 2
  {
    w.(stack := seq(|w.stack|, i requires 0 <= i < |w.stack| => FeedContext(w.stack[i], Depth(w.root), e)))
  }

  /** A context's hasher and nested validators receive the event. */
  function FeedContext(c: Context, d: nat, e: Event): (r: Context)
    requires SaneContext(c, d)
    ensures SaneContext(r, d)
    decreases d, 1
  {
    c.(hasher := if c.hasher.Hasher? then Hasher(HashStep(c.hasher.stack, e)) else NoHasher,
       validators := seq(|c.validators|, i requires 0 <= i < |c.validators| => Step(c.validators[i], e)))
  }
}
