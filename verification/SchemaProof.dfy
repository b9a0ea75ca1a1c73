/**
  The streaming validator agrees with the recursive reading of the schema, on every schema and every tree.
 */
module SchemaProof {
  import opened Json
  import opened SchemaSpec
  import opened SchemaMachine

  // ---------------------------------------------------------------- runs

  function Run(w: Validator, es: seq<Event>): (r: Validator)
    requires Sane(w)
    ensures r.root == w.root && Sane(r)
    decreases es
  {
    if es == [] then w else Run(Step(w, es[0]), es[1..])
  }

  function HashRun(stack: seq<HashCode>, es: seq<Event>): seq<HashCode>
    decreases es
  {
    if es == [] then stack else HashRun(HashStep(stack, es[0]), es[1..])
  }

  /** A context fed with a run of events: its hasher and its nested validators each see the whole run. */
  function RunContext(c: Context, d: nat, es: seq<Event>): (r: Context)
    requires SaneContext(c, d)
    ensures SaneContext(r, d)
  {
    hide Depth;
    c.(hasher := if c.hasher.Hasher? then Hasher(HashRun(c.hasher.stack, es)) else NoHasher,
       validators := seq(|c.validators|, i requires 0 <= i < |c.validators| => Run(c.validators[i], es)))
  }

  function RunStack(cs: seq<Context>, d: nat, es: seq<Event>): (r: seq<Context>)
    requires SaneStack(cs, d)
    ensures |r| == |cs| && SaneStack(r, d)
  {
    hide SaneContext;
    seq(|cs|, i requires 0 <= i < |cs| => RunContext(cs[i], d, es))
  }

  lemma {:induction false} RunConcat(w: Validator, a: seq<Event>, b: seq<Event>)
    requires Sane(w)
    ensures Run(w, a + b) == Run(Run(w, a), b)
    decreases |a|
  {
    hide Step, Sane;
    if a == [] {
      assert a + b == b;
    } else {
      assert (a + b)[0] == a[0] && (a + b)[1..] == a[1..] + b;
      RunConcat(Step(w, a[0]), a[1..], b);
    }
  }

  lemma RunOne(w: Validator, e: Event)
    requires Sane(w)
    ensures Run(w, [e]) == Step(w, e)
  {
    hide Step, Sane;
    assert [e][1..] == [];
    assert Run(Step(w, e), []) == Step(w, e);
  }

  lemma {:induction false} RunInvalid(w: Validator, es: seq<Event>)
    requires Sane(w) && !w.valid
    ensures Run(w, es) == w
    decreases es
  {
    hide Sane;
    if es != [] {
      assert Step(w, es[0]) == w;
      RunInvalid(w, es[1..]);
    }
  }

  // ---------------------------------------------------------------- hashing

  lemma {:induction false} HashConcat(stack: seq<HashCode>, a: seq<Event>, b: seq<Event>)
    ensures HashRun(stack, a + b) == HashRun(HashRun(stack, a), b)
    decreases |a|
  {
    hide HashStep;
    if a == [] {
      assert a + b == b;
    } else {
      assert (a + b)[0] == a[0] && (a + b)[1..] == a[1..] + b;
      HashConcat(HashStep(stack, a[0]), a[1..], b);
    }
  }

  lemma HashOne(stack: seq<HashCode>, e: Event)
    ensures HashRun(stack, [e]) == HashStep(stack, e)
  {
    hide HashStep;
    assert [e][1..] == [];
    assert HashRun(HashStep(stack, e), []) == HashStep(stack, e);
  }

  // ---------------------------------------------------------------- what fanning out changes

  lemma RunContextConcat(c: Context, d: nat, a: seq<Event>, b: seq<Event>)
    requires SaneContext(c, d)
    ensures RunContext(RunContext(c, d, a), d, b) == RunContext(c, d, a + b)
  {
    hide Run, HashRun, Sane;
    if c.hasher.Hasher? {
      HashConcat(c.hasher.stack, a, b);
    }
    forall i | 0 <= i < |c.validators| ensures Run(Run(c.validators[i], a), b) == Run(c.validators[i], a + b) {
      RunConcat(c.validators[i], a, b);
    }
  }

  lemma RunContextOne(c: Context, d: nat, e: Event)
    requires SaneContext(c, d)
    ensures RunContext(c, d, [e]) == FeedContext(c, d, e)
  {
    hide Run, HashRun, HashStep, Step, Sane;
    if c.hasher.Hasher? {
      HashOne(c.hasher.stack, e);
    }
    forall i | 0 <= i < |c.validators| ensures Run(c.validators[i], [e]) == Step(c.validators[i], e) {
      RunOne(c.validators[i], e);
    }
  }

  lemma RunStackConcat(cs: seq<Context>, d: nat, a: seq<Event>, b: seq<Event>)
    requires SaneStack(cs, d)
    ensures RunStack(RunStack(cs, d, a), d, b) == RunStack(cs, d, a + b)
  {
    hide RunContext;
    forall i | 0 <= i < |cs| ensures RunContext(RunContext(cs[i], d, a), d, b) == RunContext(cs[i], d, a + b) {
      RunContextConcat(cs[i], d, a, b);
    }
  }

  lemma RunStackOne(w: Validator, e: Event)
    requires Sane(w)
    ensures FanOut(w, e) == w.(stack := RunStack(w.stack, Depth(w.root), [e]))
  {
    hide RunContext, FeedContext, SaneContext;
    forall i | 0 <= i < |w.stack|
      ensures RunContext(w.stack[i], Depth(w.root), [e]) == FeedContext(w.stack[i], Depth(w.root), e)
    {
      RunContextOne(w.stack[i], Depth(w.root), e);
    }
  }

  // ---------------------------------------------------------------- the hasher and the tree

  lemma HashBracket(stack: seq<HashCode>, open: Event, es: seq<Event>, close: Event, filled: seq<HashCode>)
    requires HashStep(stack, open) == stack && HashRun(stack, es) == filled
    ensures HashRun(stack, [open] + es + [close]) == HashStep(filled, close)
  {
    hide HashStep, HashRun;
    HashOne(stack, open);
    HashConcat(stack, [open], es);
    HashConcat(stack, [open] + es, [close]);
    HashOne(filled, close);
  }

  lemma HashThen(stack: seq<HashCode>, a: seq<Event>, hs: seq<HashCode>, b: seq<Event>, rest: seq<HashCode>)
    requires HashRun(stack, a) == stack + hs && HashRun(stack + hs, b) == stack + hs + rest
    ensures HashRun(stack, a + b) == stack + (hs + rest)
  {
    hide HashRun;
    HashConcat(stack, a, b);
    assert stack + hs + rest == stack + (hs + rest);
  }

  lemma CloseHashes(stack: seq<HashCode>, hs: seq<HashCode>)
    ensures HashStep(stack + hs, EndArray(|hs|)) == stack + [ArrayHash(Mix(0, ARRAY_TYPE), hs)]
    ensures |hs| % 2 == 0 ==>
              HashStep(stack + hs, EndObject(|hs| / 2)) == stack + [ObjectHash(Mix(0, OBJECT_TYPE), hs)]
  {
    hide ArrayHash, ObjectHash, Mix;
    assert (stack + hs)[|stack|..] == hs && (stack + hs)[..|stack|] == stack;
  }

  lemma ScalarHash(p: Producer, v: Value, stack: seq<HashCode>)
    requires !v.Array? && !v.Object?
    ensures HashRun(stack, Events(p, v)) == stack + [TreeHash(v)]
  {
    hide HashRun, BufferHash, Mix, NumberImage;
    HashOne(stack, Events(p, v)[0]);
  }

  /** The hasher's stack machine computes the tree hash: one code per value, whatever lies below. */
  lemma {:induction false} HashValue(p: Producer, v: Value, stack: seq<HashCode>)
    ensures HashRun(stack, Events(p, v)) == stack + [TreeHash(v)]
    decreases v
  {
    hide HashRun, ArrayHash, ObjectHash, Mix;
    if v.Array? {
      var hs := ElementHashes(v.elements);
      HashElements(p, v.elements, stack);
      HashBracket(stack, StartArray, ElementEvents(p, v.elements), EndArray(|v.elements|), stack + hs);
      hide HashStep;
      CloseHashes(stack, hs);
    } else if v.Object? {
      var hs := MemberHashes(v.members);
      HashMembers(p, v.members, stack);
      HashBracket(stack, StartObject, MemberEvents(p, v.members), EndObject(|v.members|), stack + hs);
      hide HashStep;
      CloseHashes(stack, hs);
    } else {
      ScalarHash(p, v, stack);
    }
  }

  lemma {:induction false} HashElements(p: Producer, vs: seq<Value>, stack: seq<HashCode>)
    ensures HashRun(stack, ElementEvents(p, vs)) == stack + ElementHashes(vs)
    decreases vs
  {
    hide HashStep, TreeHash, Events;
    if vs == [] {
      assert stack + ElementHashes(vs) == stack;
    } else {
      hide HashRun;
      var hs := [TreeHash(vs[0])];
      HashValue(p, vs[0], stack);
      HashElements(p, vs[1..], stack + hs);
      HashThen(stack, Events(p, vs[0]), hs, ElementEvents(p, vs[1..]), ElementHashes(vs[1..]));
    }
  }

  lemma HashMember(p: Producer, m: Member, stack: seq<HashCode>)
    requires forall s :: HashRun(s, Events(p, m.value)) == s + [TreeHash(m.value)]
    ensures HashRun(stack, [Key(m.name)] + Events(p, m.value))
         == stack + [BufferHash(STRING_TYPE, m.name), TreeHash(m.value)]
  {
    hide HashRun, TreeHash, Events, BufferHash;
    var name := BufferHash(STRING_TYPE, m.name);
    HashOne(stack, Key(m.name));
    HashThen(stack, [Key(m.name)], [name], Events(p, m.value), [TreeHash(m.value)]);
    assert [name] + [TreeHash(m.value)] == [name, TreeHash(m.value)];
  }

  lemma {:induction false} HashMembers(p: Producer, ms: seq<Member>, stack: seq<HashCode>)
    ensures HashRun(stack, MemberEvents(p, ms)) == stack + MemberHashes(ms)
    decreases ms
  {
    hide HashStep, TreeHash, Events, BufferHash;
    if ms == [] {
      assert stack + MemberHashes(ms) == stack;
    } else {
      hide HashRun;
      var hs := [BufferHash(STRING_TYPE, ms[0].name), TreeHash(ms[0].value)];
      forall s ensures HashRun(s, Events(p, ms[0].value)) == s + [TreeHash(ms[0].value)] {
        HashValue(p, ms[0].value, s);
      }
      HashMember(p, ms[0], stack);
      HashMembers(p, ms[1..], stack + hs);
      HashThen(stack, [Key(ms[0].name)] + Events(p, ms[0].value), hs, MemberEvents(p, ms[1..]), MemberHashes(ms[1..]));
    }
  }
}
