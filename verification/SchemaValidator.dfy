/**
  The validator and its hasher as the objects the library updates event by event. Nested validators are held
  as values inside their context.
 */
module SchemaValidator {
  import opened Json
  import opened Bits
  import opened SchemaSpec
  import opened SchemaMachine
  import opened SchemaProof
  import opened SchemaTheorem
  import K = SchemaKeywords

  // ---------------------------------------------------------------- Hasher

  class Hasher {
    var stack: seq<HashCode>

    constructor (stack: seq<HashCode>)
      ensures this.stack == stack
    {
      this.stack := stack;
    }

    /** One event. */
    method Receive(e: Event)
      modifies this
      ensures stack == HashStep(old(stack), e)
    {
      match e
      case NullE => WriteBuffer(NULL_TYPE, []);
      case BoolE(b) => WriteBuffer(if b then TRUE_TYPE else FALSE_TYPE, []);
      case NumE(_, n) => WriteBuffer(NUMBER_TYPE, NumberImage(n));
      case DoubleE(lexeme) => WriteBuffer(NUMBER_TYPE, lexeme);
      case StringE(s) => WriteBuffer(STRING_TYPE, s);
      case Key(name) => WriteBuffer(STRING_TYPE, name);
      case StartObject =>
      case StartArray =>
      case EndObject(count) =>
        if 2 * count <= |stack| {
          EndObject(count);
        }
      case EndArray(count) =>
        if count <= |stack| {
          EndArray(count);
        }
    }

    /** FNV over the type byte and the data. */
    method WriteBuffer(kind: HashCode, data: Bytes)
      modifies this
      ensures stack == old(stack) + [BufferHash(kind, data)]
    {
      hide Mix;
      var h := Mix(FNV_BASIS, kind);
      var i := 0;
      while i < |data|
        invariant 0 <= i <= |data|
        invariant stack == old(stack)
        invariant MixBytes(h, data[i..]) == BufferHash(kind, data)
      {
        assert data[i..][1..] == data[i + 1..];
        h := Mix(h, Widened(data[i]));
        i := i + 1;
      }
      stack := stack + [h];
    }

    method EndObject(memberCount: nat)
      requires 2 * memberCount <= |stack|
      modifies this
      ensures stack == HashStep(old(stack), Event.EndObject(memberCount))
    {
      hide Mix;
      var base := |stack| - 2 * memberCount;
      var kv := stack[base..];
      stack := stack[..base];
      var h := Mix(0, OBJECT_TYPE);
      var i := 0;
      while i < memberCount
        invariant 0 <= i <= memberCount
        invariant stack == old(stack)[..base]
        invariant ObjectHash(h, kv[2 * i..]) == ObjectHash(Mix(0, OBJECT_TYPE), kv)
      {
        assert kv[2 * i..][2..] == kv[2 * (i + 1)..];
        h := h ^ Mix(kv[2 * i], kv[2 * i + 1]);
        i := i + 1;
      }
      stack := stack + [h];
    }

    method EndArray(elementCount: nat)
      requires elementCount <= |stack|
      modifies this
      ensures stack == HashStep(old(stack), Event.EndArray(elementCount))
    {
      hide Mix;
      var base := |stack| - elementCount;
      var e := stack[base..];
      stack := stack[..base];
      var h := Mix(0, ARRAY_TYPE);
      var i := 0;
      while i < elementCount
        invariant 0 <= i <= elementCount
        invariant stack == old(stack)[..base]
        invariant ArrayHash(h, e[i..]) == ArrayHash(Mix(0, ARRAY_TYPE), e)
      {
        assert e[i..][1..] == e[i + 1..];
        h := Mix(h, e[i]);
        i := i + 1;
      }
      stack := stack + [h];
    }
  }

  // ---------------------------------------------------------------- the checks at the end of a value

  /** The enum search of `Schema::EndValue`. */
  method FindEnum(codes: seq<HashCode>, h: HashCode) returns (found: bool)
    ensures found <==> h in codes
  {
    var i := 0;
    while i < |codes|
      invariant 0 <= i <= |codes|
      invariant h !in codes[..i]
    {
      if codes[i] == h {
        return true;
      }
      assert codes[..i + 1] == codes[..i] + [codes[i]];
      i := i + 1;
    }
    assert codes[..i] == codes;
    return false;
  }

  lemma {:induction false} CountAppend(ws: seq<Validator>, w: Validator)
    ensures CountStillValid(ws + [w]) == CountStillValid(ws) + if w.valid then 1 else 0
    decreases ws
  {
    if ws == [] {
      assert (ws + [w])[1..] == [];
    } else {
      assert (ws + [w])[1..] == ws[1..] + [w];
      CountAppend(ws[1..], w);
    }
  }

  lemma {:induction false} CountGrows(ws: seq<Validator>, i: nat)
    requires i <= |ws|
    ensures CountStillValid(ws[..i]) <= CountStillValid(ws)
    decreases |ws| - i
  {
    if i == |ws| {
      assert ws[..i] == ws;
    } else {
      assert ws[..i + 1] == ws[..i] + [ws[i]];
      CountAppend(ws[..i], ws[i]);
      CountGrows(ws, i + 1);
    }
  }

  /** The oneOf search, which stops at the second success. */
  method ExactlyOne(ws: seq<Validator>) returns (one: bool)
    ensures one <==> CountStillValid(ws) == 1
  {
    one := false;
    var i := 0;
    while i < |ws|
      invariant 0 <= i <= |ws|
      invariant CountStillValid(ws[..i]) == if one then 1 else 0
    {
      assert ws[..i + 1] == ws[..i] + [ws[i]];
      CountAppend(ws[..i], ws[i]);
      if ws[i].valid {
        if one {
          CountGrows(ws, i + 1);
          return false;
        }
        one := true;
      }
      i := i + 1;
    }
    assert ws[..i] == ws;
  }

  /** The combinators, keyword by keyword in the order of the source. */
  method CheckCombinators(c: Context) returns (ok: bool)
    ensures ok <==> CheckEnd(c)
  {
    hide ParallelSchemas, CountStillValid;
    var s := c.schema;
    if !SlotsFit(c) || (s.enumHashes != [] && (c.hasher.NoHasher? || c.hasher.stack == [])) {
      return false;  // not reached: the value's first event sets up both
    }
    assert NotSlot(s) + |OptionalSchema(s.not_)| <= |c.validators| by { SlotCount(s); }
    if s.enumHashes != [] {
      var found := FindEnum(s.enumHashes, c.hasher.stack[|c.hasher.stack| - 1]);
      if !found {
        return false;
      }
    }
    var i := 0;
    while i < |s.allOf|
      invariant 0 <= i <= |s.allOf|
      invariant forall k :: 0 <= k < i ==> c.validators[k].valid
    {
      if !c.validators[i].valid {
        return false;
      }
      i := i + 1;
    }
    if s.anyOf != [] {
      i := AnyOfBegin(s);
      while i < OneOfBegin(s) && !c.validators[i].valid
        invariant AnyOfBegin(s) <= i <= OneOfBegin(s)
        invariant forall k :: AnyOfBegin(s) <= k < i ==> !c.validators[k].valid
      {
        i := i + 1;
      }
      if i == OneOfBegin(s) {
        return false;
      }
    }
    if s.oneOf != [] {
      var one := ExactlyOne(c.validators[OneOfBegin(s)..NotSlot(s)]);
      if !one {
        return false;
      }
    }
    ok := !(s.not_.TheSchema? && c.validators[NotSlot(s)].valid);
  }

  /** The required and dependencies loops of `Schema::EndObject`. */
  method CheckProperties(c: Context, count: nat) returns (ok: bool)
    ensures ok <==> CheckEndObject(c, count)
  {
    hide ParallelSchemas, DependencySlot, CheckDependency;
    var s := c.schema;
    var i: nat := 0;
    while i < |s.properties|
      invariant i <= |s.properties|
      invariant forall k: nat :: k < i && s.properties[k].required ==> Present(c, k)
    {
      if s.properties[i].required && !Present(c, i) {
        return false;
      }
      i := i + 1;
    }
    if !Within(count, s.minProperties, s.maxProperties) || !SlotsFit(c) {
      return false;
    }
    i := 0;
    while i < |s.properties|
      invariant i <= |s.properties|
      invariant forall k: nat :: k < i && Present(c, k) ==> CheckDependency(c, k)
    {
      if Present(c, i) {
        var met := CheckOneDependency(c, i);
        if !met {
          return false;
        }
      }
      i := i + 1;
    }
    return true;
  }

  method CheckOneDependency(c: Context, i: nat) returns (met: bool)
    requires SlotsFit(c) && i < |c.schema.properties|
    ensures met <==> CheckDependency(c, i)
  {
    hide DependencySlot, ParallelSchemas;
    var d := c.schema.properties[i].dependency;
    if d.OnProperties? {
      var j: nat := 0;
      while j < |d.targets|
        invariant j <= |d.targets|
        invariant forall k: nat :: k < j && d.targets[k] ==> Present(c, k)
      {
        if d.targets[j] && !Present(c, j) {
          return false;
        }
        j := j + 1;
      }
      return true;
    }
    met := CheckDependency(c, i);
  }

  lemma SlotCount(s: Schema)
    ensures NotSlot(s) + |OptionalSchema(s.not_)| <= |ParallelSchemas(s)|
  {
  }

  // ---------------------------------------------------------------- GenericSchemaValidator

  class GenericSchemaValidator {
    const root: Schema
    var schemaStack: seq<Context>
    var documentStack: Bytes
    var valid: bool

    function State(): Validator
      reads this
    {
      Validator(root, schemaStack, documentStack, valid)
    }

    constructor (root: Schema)
      ensures State() == NewValidator(root)
    {
      this.root := root;
      schemaStack, documentStack, valid := [], [], true;
    }

    /** Appends '/' and the escaped name. */
    method AppendToken(name: Bytes)
      modifies this`documentStack
      ensures documentStack == old(documentStack) + NameToken(name)
    {
      documentStack := documentStack + [0x2F];
      var i := 0;
      while i < |name|
        invariant 0 <= i <= |name|
        invariant documentStack + EscapedName(name[i..]) == old(documentStack) + NameToken(name)
      {
        assert name[i..][1..] == name[i + 1..];
        var token: Bytes :=
          if name[i] == 0x7E then [0x7E, 0x30] else if name[i] == 0x2F then [0x7E, 0x31] else [name[i]];
        assert documentStack + EscapedName(name[i..]) == documentStack + token + EscapedName(name[i + 1..]);
        documentStack := documentStack + token;
        i := i + 1;
      }
      assert name[i..] == [];
    }

    /** Pops characters until a '/' has been popped or none are left. */
    method RemoveToken()
      modifies this`documentStack
      ensures documentStack == DropToken(old(documentStack))
    {
      while documentStack != []
        invariant DropToken(documentStack) == DropToken(old(documentStack))
        decreases |documentStack|
      {
        var last := documentStack[|documentStack| - 1];
        documentStack := documentStack[..|documentStack| - 1];
        if last == 0x2F {
          return;
        }
      }
    }

    /** Every open context passes the event to its hasher and its nested validators. */
    method HandleParallel(e: Event)
      requires Sane(State())
      modifies this`schemaStack
      ensures State() == FanOut(old(State()), e)
    {
      hide Depth, Step, HashStep;
      ghost var before := State();
      var contexts := schemaStack;
      var i := 0;
      var fed: seq<Context> := [];
      while i < |contexts|
        invariant 0 <= i <= |contexts| && |fed| == i
        invariant forall k :: 0 <= k < i ==> fed[k] == FeedContext(contexts[k], Depth(root), e)
        invariant schemaStack == contexts
      {
        var c := contexts[i];
        assert SaneContext(c, Depth(root));
        var hasher := c.hasher;
        if c.hasher.Hasher? {
          var h := new Hasher(c.hasher.stack);
          h.Receive(e);
          hasher := MaybeHasher.Hasher(h.stack);
        }
        var validators: seq<Validator> := [];
        var k := 0;
        while k < |c.validators|
          invariant 0 <= k <= |c.validators| && |validators| == k
          invariant forall j :: 0 <= j < k ==> Sane(c.validators[j]) && validators[j] == Step(c.validators[j], e)
        {
          validators := validators + [Step(c.validators[k], e)];
          k := k + 1;
        }
        var next := c.(hasher := hasher, validators := validators);
        assert next.validators == FeedContext(c, Depth(root), e).validators;
        fed := fed + [next];
        i := i + 1;
      }
      schemaStack := fed;
      assert schemaStack == FanOut(before, e).stack;
    }

    /** `BeginValue`: announces the value to the innermost context and pushes the value's own. */
    method BeginValue()
      requires Sane(State()) && valid
      modifies this
      ensures State() == SchemaMachine.BeginValue(old(State()))
    {
      hide Depth, Sane, ItemSchema, IndexToken;
      if schemaStack == [] {
        schemaStack := [NewContext(root, false)];
        return;
      }
      var n := |schemaStack| - 1;
      var top := schemaStack[n];
      if top.inArray {
        documentStack := documentStack + IndexToken(top.arrayElementIndex);
        if top.schema.uniqueItems {
          top := top.(valueUniqueness := true);
        }
        var item := ItemSchema(top.schema, top.arrayElementIndex);
        if item.NoSchema? {
          schemaStack := schemaStack[n := top];
          valid := false;
          return;
        }
        top := top.(valueSchema := item, arrayElementIndex := top.arrayElementIndex + 1);
        schemaStack := schemaStack[n := top];
      }
      if top.valueSchema.TheSchema? {
        schemaStack := schemaStack + [NewContext(top.valueSchema.schema, top.valueUniqueness)];
      } else {
        schemaStack := schemaStack[n := top.(arrayUniqueness := top.valueUniqueness)];
      }
    }

    /** RAPIDJSON_SCHEMA_HANDLE_BEGIN_. */
    method HandleBegin(e: Event)
      requires Sane(State()) && valid
      modifies this
      ensures State() == Begin(old(State()), e)
    {
      hide Depth, Sane, SchemaMachine.BeginValue, OpenContext, CheckStart;
      BeginValue();
      if !valid || schemaStack == [] {
        valid := false;
        return;
      }
      var n := |schemaStack| - 1;
      if !CheckStart(schemaStack[n].schema, e) {
        valid := false;
        return;
      }
      schemaStack := schemaStack[n := OpenContext(schemaStack[n], e)];
    }

    /** `EndValue`: the combinators, then the comparison with earlier siblings, then the document pointer. */
    method EndValue()
      requires Sane(State()) && valid
      modifies this
      ensures State() == SchemaMachine.EndValue(old(State()))
    {
      hide Depth, Sane, CheckEnd, DropToken;
      if schemaStack == [] {
        valid := false;
        return;
      }
      var top := schemaStack[|schemaStack| - 1];
      var ok := CheckCombinators(top);
      if !ok {
        valid := false;
        return;
      }
      var h := if top.arrayUniqueness && top.hasher.Hasher? && top.hasher.stack != [] then
                 top.hasher.stack[|top.hasher.stack| - 1]
               else 0;
      schemaStack := schemaStack[..|schemaStack| - 1];
      if schemaStack != [] && schemaStack[|schemaStack| - 1].valueUniqueness {
        var n := |schemaStack| - 1;
        var parent := schemaStack[n];
        var twin := FindEnum(parent.elementHashes, h);
        if twin {
          valid := false;
          return;
        }
        schemaStack := schemaStack[n := parent.(elementHashes := parent.elementHashes + [h])];
      }
      RemoveToken();
    }

    /** One SAX event. */
    method Receive(e: Event) returns (ok: bool)
      requires Sane(State())
      modifies this
      ensures State() == Step(old(State()), e)
      ensures Sane(State()) && ok == valid
    {
      hide Depth, Sane, Begin, FanOut, SchemaMachine.EndValue, CheckEndObject, Within, MemberSchema, NameToken,
           KeyContext;
      if !valid {
        return false;
      }
      if IsScalarEvent(e) {
        HandleBegin(e);
        if valid {
          HandleParallel(e);
          EndValue();
        }
      } else if e.StartObject? || e.StartArray? {
        HandleBegin(e);
        if valid {
          HandleParallel(e);
        }
      } else if e.Key? {
        AppendToken(e.name);
        if schemaStack == [] || MemberSchema(schemaStack[|schemaStack| - 1].schema, e.name).NoSchema? {
          valid := false;
        } else {
          var n := |schemaStack| - 1;
          schemaStack := schemaStack[n := KeyContext(schemaStack[n], e.name)];
          assert State() == BeginKey(old(State()), e.name);
          HandleParallel(e);
        }
      } else {
        HandleParallel(e);
        HandleEnd(e);
      }
      return valid;
    }

    /** The checks of `Schema::EndObject` or `Schema::EndArray`, then the end of the value. */
    method HandleEnd(e: Event)
      requires Sane(State()) && valid && (e.EndObject? || e.EndArray?)
      modifies this
      ensures State() == Closed(old(State()), e)
    {
      hide Depth, SaneContext, SchemaMachine.EndValue, CheckEndObject, Within;
      if schemaStack == [] {
        valid := false;
        return;
      }
      var n := |schemaStack| - 1;
      ShutIsSane(State(), n);
      assert schemaStack[n := schemaStack[n]] == schemaStack;
      var ok;
      if e.EndArray? {
        schemaStack := schemaStack[n := schemaStack[n].(inArray := false)];
        ok := Within(e.elementCount, schemaStack[n].schema.minItems, schemaStack[n].schema.maxItems);
      } else {
        ok := CheckProperties(schemaStack[n], e.memberCount);
      }
      if ok {
        EndValue();
      } else {
        valid := false;
      }
    }

    /** Feeds the events of a tree to a new validator; it is still valid exactly when the schema allows the tree. */
    method Validate(p: Producer, v: Value)
      requires State() == NewValidator(root)
      modifies this
      ensures (valid <==> Valid(root, v)) && (valid <==> K.Allows(root, v))
      ensures valid ==> State() == NewValidator(root)
    {
      hide Step, Sane, Valid, Events, K.Allows;
      NewIsSane(root);
      var es := Events(p, v);
      ghost var start := State();
      var i := 0;
      while i < |es|
        invariant 0 <= i <= |es| && Sane(State())
        invariant Run(State(), es[i..]) == Run(start, es)
      {
        assert es[i..][1..] == es[i + 1..];
        var _ := Receive(es[i]);
        i := i + 1;
      }
      StreamingAgrees(p, root, v);
      K.Agree(root, v);
    }
  }
}
