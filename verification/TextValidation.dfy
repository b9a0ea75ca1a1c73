/**
  The reader drives the streaming validator: for every text it accepts, in either mode and with either parser, the
  validator's verdict is that of the recursive reading of the schema on the tree the text describes.
 */
module TextValidation {
  import opened Json
  import opened ReaderSpec
  import opened Document
  import opened DocumentParse
  import opened SchemaSpec
  import opened SchemaMachine
  import opened SchemaProof
  import opened SchemaTheorem
  import K = SchemaKeywords
  import V = SchemaValidator

  /** The validator does not care which callback delivers an integer. */
  lemma {:induction false} SameStep(w: Validator, a: Event, b: Event)
    requires Sane(w) && SameEvent(a, b)
    ensures Step(w, a) == Step(w, b)
    decreases Depth(w.root)
  {
    hide Depth, CheckStart, EndValue, BeginValue, ParallelSchemas, NumberOk, NumberImage, BufferHash;
    if w.valid && a != b {
      SameBegin(w, a, b);
      var begun := Begin(w, a);
      if begun.valid {
        forall i | 0 <= i < |begun.stack|
          ensures FeedContext(begun.stack[i], Depth(w.root), a) == FeedContext(begun.stack[i], Depth(w.root), b)
        {
          SameFeed(begun.stack[i], Depth(w.root), a, b);
        }
        assert FanOut(begun, a).stack == FanOut(begun, b).stack;
      }
    }
  }

  lemma SameBegin(w: Validator, a: Event, b: Event)
    requires Sane(w) && SameEvent(a, b)
    ensures Begin(w, a) == Begin(w, b)
  {
    hide Depth, CheckStart, BeginValue, ParallelSchemas, NumberOk;
    if a != b {
      var begun := BeginValue(w);
      if begun.valid && begun.stack != [] {
        CheckNumber(begun.stack[|begun.stack| - 1].schema, a.kind, a.n);
        CheckNumber(begun.stack[|begun.stack| - 1].schema, b.kind, b.n);
      }
    }
  }

  lemma {:induction false} SameFeed(c: Context, d: nat, a: Event, b: Event)
    requires SaneContext(c, d) && SameEvent(a, b)
    ensures FeedContext(c, d, a) == FeedContext(c, d, b)
    decreases d, 0
  {
    hide Depth, Step, NumberImage, BufferHash;
    assert c.hasher.Hasher? ==> HashStep(c.hasher.stack, a) == HashStep(c.hasher.stack, b);
    forall i | 0 <= i < |c.validators| ensures Step(c.validators[i], a) == Step(c.validators[i], b) {
      SameStep(c.validators[i], a, b);
    }
  }

  lemma {:induction false} SameRun(w: Validator, es: seq<Event>, fs: seq<Event>)
    requires Sane(w) && Equivalent(es, fs)
    ensures Run(w, es) == Run(w, fs)
    decreases es
  {
    hide Step, Sane;
    if es != [] {
      assert SameEvent(es[0], fs[0]);
      SameStep(w, es[0], fs[0]);
      forall i | 0 <= i < |es[1..]| ensures SameEvent(es[1..][i], fs[1..][i]) {
        assert SameEvent(es[i + 1], fs[i + 1]);
      }
      SameRun(Step(w, es[0]), es[1..], fs[1..]);
    }
  }

  /** An accepted text, fed to a new validator, is found valid exactly when the schema allows the tree it describes. */
  lemma TextValidates(f: Flags, s: Bytes, schema: Schema) returns (x: Value)
    requires DocumentAt(f, s).Good?
    ensures Build([], DocumentAt(f, s).events) == Some([x]) && Sane(NewValidator(schema))
    ensures Run(NewValidator(schema), DocumentAt(f, s).events).valid <==> Valid(schema, x)
    ensures Valid(schema, x) <==> K.Allows(schema, x)
  {
    hide DocumentAt, Build, Run, Valid, Events, Equivalent, Sane, K.Allows;
    x := AcceptedBuildsOne(f, s);
    StreamingAgrees(TextReader, schema, x);
    K.Agree(schema, x);
    SameRun(NewValidator(schema), DocumentAt(f, s).events, Events(TextReader, x));
  }

  /** Reads a text and feeds its events to a document and to a validator. */
  method ParseAndValidate(text: array<Byte>, flags: Flags, insitu: bool, iterative: bool, schema: Schema)
      returns (root: Option<Value>, valid: bool)
    requires 1 <= text.Length && text[text.Length - 1] == 0
    modifies text
    ensures var o := DocumentAt(flags, old(text[..text.Length - 1]));
            && (root.Some? <==> o.Good?)
            && (root.Some? ==> Build([], o.events) == Some([root.value]) && (valid <==> K.Allows(schema, root.value)))
  {
    hide DocumentAt, Build, Valid, Run, Sane, K.Allows;
    ghost var s := text[..text.Length - 1];
    var good, events := ReadText(text, flags, insitu, iterative);
    root, valid := None, false;
    if good {
      ghost var x := TextValidates(flags, s, schema);
      var document := new GenericDocument();
      document.Receive(events);
      assert |document.stack| == 1;
      root := Some(document.stack[0]);
      valid := RunValidator(schema, events);
    }
  }

  method RunValidator(schema: Schema, events: seq<Event>) returns (valid: bool)
    ensures Sane(NewValidator(schema)) && valid == Run(NewValidator(schema), events).valid
  {
    hide Step, Sane;
    var validator := new V.GenericSchemaValidator(schema);
    NewIsSane(schema);
    var i := 0;
    while i < |events|
      invariant 0 <= i <= |events| && Sane(validator.State())
      invariant Run(validator.State(), events[i..]) == Run(NewValidator(schema), events)
    {
      assert events[i..][1..] == events[i + 1..];
      var _ := validator.Receive(events[i]);
      i := i + 1;
    }
    valid := validator.valid;
  }
}
