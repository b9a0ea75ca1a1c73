/**
  The keywords of JSON Schema draft v4 (section 5 of draft-fge-json-schema-validation-00), each by itself and in its
  own words, and the streaming validator measured against them.
 */
module SchemaKeywords {
  import opened Json
  import opened SchemaSpec
  import opened SchemaMachine
  import opened SchemaProof
  import opened SchemaTheorem

  // ---------------------------------------------------------------- the keywords

  /** Keyword "type" (section 5.5.2). */
  predicate TypeAllows(s: Schema, v: Value) {
    match v
    case Null => NullT in s.types
    case Bool(_) => BooleanT in s.types
    case Integer(_) => IntegerT in s.types || NumberT in s.types
    case Double(_) => NumberT in s.types
    case String(_) => StringT in s.types
    case Array(_) => ArrayT in s.types
    case Object(_) => ObjectT in s.types
  }

  /** "multipleOf", "maximum" and "minimum" (section 5.1), for integers. */
  predicate NumberAllows(s: Schema, n: int) {
    && (s.minimum.BoundAt? ==> n >= s.minimum.n && (s.exclusiveMinimum ==> n != s.minimum.n))
    && (s.maximum.BoundAt? ==> n <= s.maximum.n && (s.exclusiveMaximum ==> n != s.maximum.n))
    && (s.multipleOf.BoundAt? && s.multipleOf.n > 0 ==> n == n / s.multipleOf.n * s.multipleOf.n)
  }

  /** "items" and "additionalItems" (section 5.3.1) for the element at `i`; an empty tuple counts as no "items". */
  ghost predicate ElementAllows(s: Schema, i: nat, x: Value)
    decreases x, s, 0
  {
    match s.items
    case AnyItems => true
    case ListOf(t) => Allows(t, x)
    case TupleOf(ts) =>
      && (i < |ts| ==> Allows(ts[i], x))
      && (0 < |ts| <= i && s.additionalItemsSchema.TheSchema? ==> Allows(s.additionalItemsSchema.schema, x))
      && (0 < |ts| <= i && s.additionalItemsSchema.NoSchema? ==> s.additionalItems)
  }

  /** "items", "maxItems", "minItems" and "uniqueItems" (section 5.3). */
  ghost predicate ArrayAllows(s: Schema, xs: seq<Value>)
    decreases xs, s, 1
  {
    && s.minItems <= |xs| && (s.maxItems.AtMost? ==> |xs| <= s.maxItems.n)
    && (s.uniqueItems ==> forall i, j :: 0 <= i < j < |xs| ==> TreeHash(xs[i]) != TreeHash(xs[j]))
    && forall i :: 0 <= i < |xs| ==> ElementAllows(s, i, xs[i])
  }

  /** The place of a name among the properties: the first that carries it. */
  predicate Names(s: Schema, i: nat, name: Bytes) {
    i < |s.properties| && s.properties[i].name == name && forall j :: 0 <= j < i ==> s.properties[j].name != name
  }

  predicate Named(s: Schema, name: Bytes) {
    exists i :: 0 <= i < |s.properties| && s.properties[i].name == name
  }

  /** "properties" and "additionalProperties" (section 5.4.4) for one member. */
  ghost predicate MemberAllows(s: Schema, m: Member)
    decreases m, s, 0
  {
    && (forall i :: 0 <= i < |s.properties| && Names(s, i, m.name) ==> Allows(s.properties[i].schema, m.value))
    && (!Named(s, m.name) && s.additionalPropertiesSchema.TheSchema? ==>
          Allows(s.additionalPropertiesSchema.schema, m.value))
    && (!Named(s, m.name) && s.additionalPropertiesSchema.NoSchema? ==> s.additionalProperties)
  }

  /** The object has a member for the property at `i`. */
  predicate Has(s: Schema, ms: seq<Member>, i: nat) {
    exists k :: 0 <= k < |ms| && Names(s, i, ms[k].name)
  }

  /** "maxProperties", "minProperties", "required", "properties" and "dependencies" (section 5.4). */
  ghost predicate ObjectAllows(s: Schema, ms: seq<Member>)
    decreases ms, s, 1
  {
    && s.minProperties <= |ms| && (s.maxProperties.AtMost? ==> |ms| <= s.maxProperties.n)
    && (forall i :: 0 <= i < |s.properties| && s.properties[i].required ==> Has(s, ms, i))
    && (forall k :: 0 <= k < |ms| ==> MemberAllows(s, ms[k]))
    && forall i :: 0 <= i < |s.properties| && Has(s, ms, i) && s.properties[i].dependency.OnProperties? ==>
         HasTargets(s, ms, s.properties[i].dependency.targets)
  }

  predicate HasTargets(s: Schema, ms: seq<Member>, targets: seq<bool>) {
    forall j :: 0 <= j < |targets| && targets[j] ==> Has(s, ms, j)
  }

  /** This schema of the list allows the value, and no other does. */
  ghost predicate OnlyOne(ss: seq<Schema>, i: nat, v: Value)
    requires i < |ss|
    decreases v, ss, 0
  {
    Allows(ss[i], v) && forall j :: 0 <= j < |ss| && j != i ==> !Allows(ss[j], v)
  }

  /** "allOf" (section 5.5.3). */
  ghost predicate AllOfAllows(s: Schema, v: Value)
    decreases v, s, 1
  {
    forall i :: 0 <= i < |s.allOf| ==> Allows(s.allOf[i], v)
  }

  /** "anyOf" (section 5.5.4). */
  ghost predicate AnyOfAllows(s: Schema, v: Value)
    decreases v, s, 1
  {
    s.anyOf != [] ==> exists i :: 0 <= i < |s.anyOf| && Allows(s.anyOf[i], v)
  }

  /** "oneOf" (section 5.5.5). */
  ghost predicate OneOfAllows(s: Schema, v: Value)
    decreases v, s, 1
  {
    s.oneOf != [] ==> exists i :: 0 <= i < |s.oneOf| && OnlyOne(s.oneOf, i, v)
  }

  /** "not" (section 5.5.6). */
  ghost predicate NotAllows(s: Schema, v: Value)
    decreases v, s, 1
  {
    s.not_.TheSchema? ==> !Allows(s.not_.schema, v)
  }

  /** "enum" (section 5.5.1), which compares hashes. */
  predicate EnumAllows(s: Schema, v: Value) {
    s.enumHashes != [] ==> exists i :: 0 <= i < |s.enumHashes| && s.enumHashes[i] == TreeHash(v)
  }

  /** "dependencies" on schemas (section 5.4.5.2.1). */
  ghost predicate SchemasOfDependencies(s: Schema, v: Value)
    decreases v, s, 1
  {
    v.Object? ==> forall i :: 0 <= i < |s.properties| && s.properties[i].dependency.OnSchema? && Has(s, v.members, i) ==>
      Allows(s.properties[i].dependency.schema, v)
  }

  /** Every keyword of the schema allows the value. */
  ghost predicate Allows(s: Schema, v: Value)
    decreases v, s, 3
  {
    && TypeAllows(s, v)
    && EnumAllows(s, v) && AllOfAllows(s, v) && AnyOfAllows(s, v) && OneOfAllows(s, v) && NotAllows(s, v)
    && SchemasOfDependencies(s, v)
    && (v.Integer? ==> NumberAllows(s, v.n))
    && (v.Array? ==> ArrayAllows(s, v.elements))
    && (v.Object? ==> ObjectAllows(s, v.members))
  }

  // ---------------------------------------------------------------- the recursive reading

  lemma NamesIsFound(s: Schema, i: nat, name: Bytes)
    ensures Names(s, i, name) <==> FindProperty(s.properties, name) == Index(i)
    ensures Named(s, name) <==> FindProperty(s.properties, name).Index?
  {
    hide FindProperty;
    var r := FindProperty(s.properties, name);
    if r.Index? {
      assert s.properties[r.i].name == name;
    }
  }

  lemma HasIsSeen(s: Schema, ms: seq<Member>, i: nat)
    ensures Has(s, ms, i) <==> Seen(s, ms, i)
  {
    hide FindProperty, Names;
    forall k | 0 <= k < |ms|
      ensures Names(s, i, ms[k].name) <==> FindProperty(s.properties, ms[k].name) == Index(i)
    {
      NamesIsFound(s, i, ms[k].name);
    }
  }

  lemma TypelessAllows(v: Value)
    ensures Allows(Typeless(), v)
  {
    hide TreeHash;
    var s := Typeless();
    assert TypeAllows(s, v);
    if v.Array? {
      forall i | 0 <= i < |v.elements| ensures ElementAllows(s, i, v.elements[i]) {
      }
      assert ArrayAllows(s, v.elements);
    }
    if v.Object? {
      forall k | 0 <= k < |v.members| ensures MemberAllows(s, v.members[k]) {
      }
      assert ObjectAllows(s, v.members);
    }
  }

  function CountTrue(bs: seq<bool>): nat {
    if bs == [] then 0 else (if bs[0] then 1 else 0) + CountTrue(bs[1..])
  }

  predicate Only(bs: seq<bool>, i: nat) {
    i < |bs| && bs[i] && forall j :: 0 <= j < |bs| && j != i ==> !bs[j]
  }

  lemma {:induction false} CountNone(bs: seq<bool>)
    ensures CountTrue(bs) == 0 <==> forall i :: 0 <= i < |bs| ==> !bs[i]
    decreases bs
  {
    if bs != [] {
      CountNone(bs[1..]);
      assert forall i :: 1 <= i < |bs| ==> bs[i] == bs[1..][i - 1];
    }
  }

  lemma {:induction false} CountOne(bs: seq<bool>)
    ensures CountTrue(bs) == 1 <==> exists i: nat :: Only(bs, i)
    decreases bs
  {
    if bs != [] {
      var rest := bs[1..];
      CountOne(rest);
      CountNone(rest);
      assert forall i :: 1 <= i < |bs| ==> bs[i] == rest[i - 1];
      if CountTrue(bs) == 1 {
        if bs[0] {
          assert Only(bs, 0);
        } else {
          var i: nat :| Only(rest, i);
          assert Only(bs, i + 1);
        }
      }
      if i: nat :| Only(bs, i) {
        if i > 0 {
          assert Only(rest, i - 1);
        }
      }
    }
  }

  ghost function Verdicts(ss: seq<Schema>, v: Value): seq<bool> {
    seq(|ss|, i requires 0 <= i < |ss| => Valid(ss[i], v))
  }

  lemma {:induction false} CountVerdicts(ss: seq<Schema>, v: Value)
    ensures CountValid(ss, v) == CountTrue(Verdicts(ss, v))
    decreases ss
  {
    hide Valid;
    if ss != [] {
      assert Verdicts(ss, v)[1..] == Verdicts(ss[1..], v);
      CountVerdicts(ss[1..], v);
    }
  }

  /** The oneOf count is one exactly when one schema holds and no other. */
  lemma CountIsOne(ss: seq<Schema>, v: Value)
    ensures CountValid(ss, v) == 1 <==> exists i: nat :: Only(Verdicts(ss, v), i)
  {
    hide Valid, CountValid, CountTrue, Verdicts, Only;
    CountVerdicts(ss, v);
    CountOne(Verdicts(ss, v));
  }

  lemma OnlyMeans(ss: seq<Schema>, i: nat, v: Value)
    requires forall k :: 0 <= k < |ss| ==> (Valid(ss[k], v) <==> Allows(ss[k], v))
    ensures Only(Verdicts(ss, v), i) <==> i < |ss| && OnlyOne(ss, i, v)
  {
    hide Valid, Allows;
    forall j | 0 <= j < |ss| ensures Verdicts(ss, v)[j] == Allows(ss[j], v) {
      assert Valid(ss[j], v) <==> Allows(ss[j], v);
    }
  }

  lemma ElementAgrees(s: Schema, i: nat, x: Value)
    requires ItemSchema(s, i).TheSchema? ==>
               (Valid(ItemSchema(s, i).schema, x) <==> Allows(ItemSchema(s, i).schema, x))
    ensures ElementAllows(s, i, x) <==> ItemSchema(s, i).TheSchema? && Valid(ItemSchema(s, i).schema, x)
  {
    hide Valid, Allows, Typeless;
    TypelessAllows(x);
  }

  lemma MemberAgrees(s: Schema, m: Member)
    requires MemberSchema(s, m.name).TheSchema? ==>
               (Valid(MemberSchema(s, m.name).schema, m.value) <==> Allows(MemberSchema(s, m.name).schema, m.value))
    ensures MemberAllows(s, m) <==> MemberSchema(s, m.name).TheSchema? && Valid(MemberSchema(s, m.name).schema, m.value)
  {
    hide Valid, Allows, Typeless, FindProperty, Names, Named;
    TypelessAllows(m.value);
    forall i: nat ensures Names(s, i, m.name) <==> FindProperty(s.properties, m.name) == Index(i) {
      NamesIsFound(s, i, m.name);
    }
    NamesIsFound(s, 0, m.name);
  }

  lemma AnyOfAgrees(s: Schema, v: Value)
    requires forall i :: 0 <= i < |s.anyOf| ==> (Valid(s.anyOf[i], v) <==> Allows(s.anyOf[i], v))
    ensures AnyOfAllows(s, v) <==> s.anyOf == [] || exists i :: 0 <= i < |s.anyOf| && Valid(s.anyOf[i], v)
  {
    hide Valid, Allows;
    if i :| 0 <= i < |s.anyOf| && Valid(s.anyOf[i], v) {
      assert Allows(s.anyOf[i], v);
    }
    if AnyOfAllows(s, v) && s.anyOf != [] {
      var i :| 0 <= i < |s.anyOf| && Allows(s.anyOf[i], v);
      assert Valid(s.anyOf[i], v);
    }
  }

  lemma OneOfAgrees(s: Schema, v: Value)
    requires forall i :: 0 <= i < |s.oneOf| ==> (Valid(s.oneOf[i], v) <==> Allows(s.oneOf[i], v))
    ensures OneOfAllows(s, v) <==> s.oneOf == [] || CountValid(s.oneOf, v) == 1
  {
    hide Valid, Allows, CountValid, OneOfAllows, Only, Verdicts, OnlyOne;
    var ss := s.oneOf;
    CountIsOne(ss, v);
    if i: nat :| Only(Verdicts(ss, v), i) {
      OnlyMeans(ss, i, v);
      TheOne(s, i, v);
    }
    if ss == [] {
      NoOneOf(s, v);
    } else if OneOfAllows(s, v) {
      var i := WhichOne(s, v);
      OnlyMeans(ss, i, v);
    }
  }

  lemma WhichOne(s: Schema, v: Value) returns (i: nat)
    requires OneOfAllows(s, v) && s.oneOf != []
    ensures i < |s.oneOf| && OnlyOne(s.oneOf, i, v)
  {
    hide Allows;
    i :| 0 <= i < |s.oneOf| && OnlyOne(s.oneOf, i, v);
  }

  lemma TheOne(s: Schema, i: nat, v: Value)
    requires i < |s.oneOf| && OnlyOne(s.oneOf, i, v)
    ensures OneOfAllows(s, v)
  {
    hide Allows;
  }

  lemma NoOneOf(s: Schema, v: Value)
    requires s.oneOf == []
    ensures OneOfAllows(s, v)
  {
  }

  lemma EnumAgrees(s: Schema, v: Value)
    ensures EnumAllows(s, v) <==> s.enumHashes == [] || TreeHash(v) in s.enumHashes
  {
    hide TreeHash;
  }

  /** The schemas that must hold of the value itself. */
  lemma {:induction false} WholeAgrees(s: Schema, v: Value)
    ensures Combined(s, v) <==>
              EnumAllows(s, v) && AllOfAllows(s, v) && AnyOfAllows(s, v) && OneOfAllows(s, v) && NotAllows(s, v)
    decreases v, s, 2
  {
    hide Valid, Allows, TreeHash, CountValid, EnumAllows, AnyOfAllows, OneOfAllows;
    forall i | 0 <= i < |s.allOf| ensures Valid(s.allOf[i], v) <==> Allows(s.allOf[i], v) {
      Agree(s.allOf[i], v);
    }
    forall i | 0 <= i < |s.anyOf| ensures Valid(s.anyOf[i], v) <==> Allows(s.anyOf[i], v) {
      Agree(s.anyOf[i], v);
    }
    forall i | 0 <= i < |s.oneOf| ensures Valid(s.oneOf[i], v) <==> Allows(s.oneOf[i], v) {
      Agree(s.oneOf[i], v);
    }
    AnyOfAgrees(s, v);
    OneOfAgrees(s, v);
    EnumAgrees(s, v);
    if s.not_.TheSchema? {
      Agree(s.not_.schema, v);
    }
  }

  lemma {:induction false} DependenciesAgree(s: Schema, v: Value)
    ensures DependencySchemasOk(s, v) <==> SchemasOfDependencies(s, v)
    decreases v, s, 2
  {
    hide Valid, Allows, Has, Seen;
    if v.Object? {
      forall i | 0 <= i < |s.properties| && s.properties[i].dependency.OnSchema?
        ensures Valid(s.properties[i].dependency.schema, v) <==> Allows(s.properties[i].dependency.schema, v)
        ensures Has(s, v.members, i) <==> Seen(s, v.members, i)
      {
        Agree(s.properties[i].dependency.schema, v);
        HasIsSeen(s, v.members, i);
      }
    }
  }

  predicate DependencySchemasOk(s: Schema, v: Value) {
    v.Object? ==>
      forall i :: 0 <= i < |s.properties| && Seen(s, v.members, i) && s.properties[i].dependency.OnSchema? ==>
        Valid(s.properties[i].dependency.schema, v)
  }

  lemma ElementHashesAre(xs: seq<Value>)
    ensures forall i :: 0 <= i < |xs| ==> ElementHashes(xs)[i] == TreeHash(xs[i])
  {
    hide TreeHash;
    if xs != [] {
      ElementHashesAre(xs[1..]);
      forall i | 0 <= i < |xs| ensures ElementHashes(xs)[i] == TreeHash(xs[i]) {
        assert i > 0 ==> xs[i] == xs[1..][i - 1];
      }
    }
  }

  lemma {:induction false} ArrayAgrees(s: Schema, xs: seq<Value>)
    ensures Shaped(s, Array(xs)) <==> ArrayT in s.types && ArrayAllows(s, xs)
    decreases xs, s, 1
  {
    hide Valid, Allows, TreeHash, ElementAllows, ItemSchema, ElementHashes;
    ElementHashesAre(xs);
    forall i | 0 <= i < |xs|
      ensures ElementAllows(s, i, xs[i]) <==>
                ItemSchema(s, i).TheSchema? && Valid(ItemSchema(s, i).schema, xs[i])
    {
      if ItemSchema(s, i).TheSchema? {
        Agree(ItemSchema(s, i).schema, xs[i]);
      }
      ElementAgrees(s, i, xs[i]);
    }
  }

  lemma TargetsAgree(s: Schema, ms: seq<Member>, i: nat)
    requires i < |s.properties|
    ensures DependencyOk(s, ms, i) <==>
              (Has(s, ms, i) && s.properties[i].dependency.OnProperties? ==>
                 HasTargets(s, ms, s.properties[i].dependency.targets))
  {
    hide Has, Seen;
    HasIsSeen(s, ms, i);
    forall j: nat ensures Has(s, ms, j) <==> Seen(s, ms, j) {
      HasIsSeen(s, ms, j);
    }
  }

  lemma {:induction false} ObjectAgrees(s: Schema, ms: seq<Member>)
    ensures Shaped(s, Object(ms)) <==>
              ObjectT in s.types && ObjectAllows(s, ms) && DependencySchemasOk(s, Object(ms))
    decreases ms, s, 1
  {
    hide Valid, Allows, MemberAllows, MemberSchema, Has, Seen, DependencyOk, HasTargets;
    forall k | 0 <= k < |ms|
      ensures MemberAllows(s, ms[k]) <==>
                MemberSchema(s, ms[k].name).TheSchema? && Valid(MemberSchema(s, ms[k].name).schema, ms[k].value)
    {
      if MemberSchema(s, ms[k].name).TheSchema? {
        Agree(MemberSchema(s, ms[k].name).schema, ms[k].value);
      }
      MemberAgrees(s, ms[k]);
    }
    forall i | 0 <= i < |s.properties|
      ensures Has(s, ms, i) <==> Seen(s, ms, i)
      ensures DependencyOk(s, ms, i) <==>
                (Has(s, ms, i) && s.properties[i].dependency.OnProperties? ==>
                   HasTargets(s, ms, s.properties[i].dependency.targets))
    {
      HasIsSeen(s, ms, i);
      TargetsAgree(s, ms, i);
    }
  }

  lemma NumberAgrees(s: Schema, n: JsonInt)
    ensures Shaped(s, Integer(n)) <==> (IntegerT in s.types || NumberT in s.types) && NumberAllows(s, n)
  {
    if s.multipleOf.BoundAt? && s.multipleOf.n > 0 {
      Multiple(n, s.multipleOf.n);
    }
  }

  lemma Multiple(n: int, m: int)
    requires m > 0
    ensures n % m == 0 <==> n == n / m * m
  {
    assert n == m * (n / m) + n % m;
  }

  /** The recursive reading is the conjunction of the keywords. */
  lemma {:induction false} Agree(s: Schema, v: Value)
    ensures Valid(s, v) <==> Allows(s, v)
    decreases v, s, 3
  {
    hide Combined, Shaped, ArrayAllows, ObjectAllows, NumberAllows, DependencySchemasOk, SchemasOfDependencies, TreeHash,
         EnumAllows, AllOfAllows, AnyOfAllows, OneOfAllows, NotAllows;
    WholeAgrees(s, v);
    DependenciesAgree(s, v);
    match v
    case Integer(n) => NumberAgrees(s, n); NoDependencies(s, v);
    case Array(xs) => ArrayAgrees(s, xs); NoDependencies(s, v);
    case Object(ms) => ObjectAgrees(s, ms);
    case _ => OtherShape(s, v); NoDependencies(s, v);
  }

  lemma NoDependencies(s: Schema, v: Value)
    requires !v.Object?
    ensures DependencySchemasOk(s, v)
  {
  }

  lemma OtherShape(s: Schema, v: Value)
    requires !v.Integer? && !v.Array? && !v.Object?
    ensures Shaped(s, v) <==> TypeAllows(s, v)
  {
  }

  // ---------------------------------------------------------------- the streaming validator

  /**
    For every schema and every tree, from either producer of events, the streaming validator ends valid exactly when
    every keyword allows the tree.
   */
  lemma StreamingMeetsKeywords(p: Producer, s: Schema, v: Value)
    ensures Sane(NewValidator(s)) && (Run(NewValidator(s), Events(p, v)).valid <==> Allows(s, v))
  {
    hide Run, Valid, Allows, Events, Sane;
    StreamingAgrees(p, s, v);
    Agree(s, v);
  }

  /** A new validator for the schema ends valid on the tree. */
  ghost predicate Accepts(p: Producer, s: Schema, v: Value) {
    Sane(NewValidator(s)) && Run(NewValidator(s), Events(p, v)).valid
  }

  lemma AcceptsMeans(p: Producer, s: Schema, v: Value)
    ensures Accepts(p, s, v) <==> Allows(s, v)
  {
    hide Run, Allows, Events, Sane;
    StreamingMeetsKeywords(p, s, v);
  }

  /** The schema {} accepts every tree. */
  lemma EmptySchema(p: Producer, v: Value)
    ensures var s := Schema({NullT, BooleanT, ObjectT, ArrayT, StringT, NumberT, IntegerT}, [], [], [], [], NoSchema,
                            [], NoSchema, true, 0, Unlimited, AnyItems, NoSchema, true, 0, Unlimited, false,
                            NoBound, false, NoBound, false, NoBound);
            Accepts(p, s, v)
  {
    hide Accepts, Allows;
    AcceptsMeans(p, Typeless(), v);
    TypelessAllows(v);
  }

  /** With "additionalProperties" false, a member of any name but those of "properties" is refused. */
  lemma NoAdditionalProperties(p: Producer, s: Schema, ms: seq<Member>, k: nat)
    requires !s.additionalProperties && s.additionalPropertiesSchema.NoSchema?
    requires k < |ms| && forall i :: 0 <= i < |s.properties| ==> s.properties[i].name != ms[k].name
    ensures !Accepts(p, s, Object(ms))
  {
    hide Accepts;
    AcceptsMeans(p, s, Object(ms));
    assert !MemberAllows(s, ms[k]);
  }

  /** Nothing but the keywords of arrays or objects themselves: no enum and no schema for the value as a whole. */
  predicate Simple(s: Schema) {
    && s.enumHashes == [] && s.allOf == [] && s.anyOf == [] && s.oneOf == [] && s.not_.NoSchema?
    && forall i :: 0 <= i < |s.properties| ==> !s.properties[i].dependency.OnSchema?
  }

  lemma SimpleWhole(s: Schema, v: Value)
    requires Simple(s)
    ensures EnumAllows(s, v) && AllOfAllows(s, v) && AnyOfAllows(s, v) && OneOfAllows(s, v) && NotAllows(s, v)
    ensures SchemasOfDependencies(s, v)
  {
    hide TreeHash;
  }

  /**
    A member whose name is not among "properties" is judged by the schema of "additionalProperties" when there is one;
    otherwise it is let pass or refused by its truth value; nothing else depends on it but the member count.
   */
  lemma AdditionalMember(p: Producer, s: Schema, a: seq<Member>, m: Member, b: seq<Member>)
    requires Simple(s) && s.minProperties <= |a| + |b| && (s.maxProperties.AtMost? ==> |a| + |b| < s.maxProperties.n)
    requires forall i :: 0 <= i < |s.properties| ==> s.properties[i].name != m.name
    ensures Accepts(p, s, Object(a + [m] + b)) <==>
              Accepts(p, s, Object(a + b))
              && if s.additionalPropertiesSchema.TheSchema? then Accepts(p, s.additionalPropertiesSchema.schema, m.value)
                 else s.additionalProperties
  {
    hide Accepts, Allows, ObjectAllows;
    AcceptsMeans(p, s, Object(a + [m] + b));
    AcceptsMeans(p, s, Object(a + b));
    if s.additionalPropertiesSchema.TheSchema? {
      AcceptsMeans(p, s.additionalPropertiesSchema.schema, m.value);
    }
    SimpleObject(s, a + [m] + b);
    SimpleObject(s, a + b);
    OneMoreMember(s, a, m, b);
  }

  lemma SimpleObject(s: Schema, ms: seq<Member>)
    requires Simple(s)
    ensures Allows(s, Object(ms)) <==> ObjectT in s.types && ObjectAllows(s, ms)
  {
    hide ObjectAllows, EnumAllows, AllOfAllows, AnyOfAllows, OneOfAllows, NotAllows, SchemasOfDependencies, Simple;
    SimpleWhole(s, Object(ms));
  }

  lemma SimpleArray(s: Schema, xs: seq<Value>)
    requires Simple(s)
    ensures Allows(s, Array(xs)) <==> ArrayT in s.types && ArrayAllows(s, xs)
  {
    hide ArrayAllows, EnumAllows, AllOfAllows, AnyOfAllows, OneOfAllows, NotAllows, SchemasOfDependencies, Simple;
    SimpleWhole(s, Array(xs));
  }

  lemma UnnamedMember(s: Schema, m: Member)
    requires forall i :: 0 <= i < |s.properties| ==> s.properties[i].name != m.name
    ensures !Named(s, m.name) && forall i: nat :: !Names(s, i, m.name)
    ensures MemberAllows(s, m) <==>
              if s.additionalPropertiesSchema.TheSchema? then Allows(s.additionalPropertiesSchema.schema, m.value)
              else s.additionalProperties
  {
    hide Allows;
  }

  lemma HasOthers(s: Schema, a: seq<Member>, m: Member, b: seq<Member>, i: nat)
    requires !Names(s, i, m.name)
    ensures Has(s, a + [m] + b, i) <==> Has(s, a + b, i)
  {
    hide Names;
    var all, others := a + [m] + b, a + b;
    if k :| 0 <= k < |all| && Names(s, i, all[k].name) {
      assert others[if k < |a| then k else k - 1] == all[k];
    }
    if k :| 0 <= k < |others| && Names(s, i, others[k].name) {
      assert all[if k < |a| then k else k + 1] == others[k];
    }
  }

  lemma OneMoreMember(s: Schema, a: seq<Member>, m: Member, b: seq<Member>)
    requires s.minProperties <= |a| + |b| && (s.maxProperties.AtMost? ==> |a| + |b| < s.maxProperties.n)
    requires forall i :: 0 <= i < |s.properties| ==> s.properties[i].name != m.name
    ensures ObjectAllows(s, a + [m] + b) <==>
              ObjectAllows(s, a + b)
              && if s.additionalPropertiesSchema.TheSchema? then Allows(s.additionalPropertiesSchema.schema, m.value)
                 else s.additionalProperties
  {
    hide Allows, MemberAllows, Has, Names, Named, HasTargets;
    var all, others := a + [m] + b, a + b;
    UnnamedMember(s, m);
    MembersAround(s, a, m, b);
    forall i: nat ensures Has(s, all, i) <==> Has(s, others, i) {
      HasOthers(s, a, m, b, i);
    }
    forall targets: seq<bool> ensures HasTargets(s, all, targets) <==> HasTargets(s, others, targets) {
      SameTargets(s, all, others, targets);
    }
  }

  lemma MembersAround(s: Schema, a: seq<Member>, m: Member, b: seq<Member>)
    ensures var all, others := a + [m] + b, a + b;
            (forall k :: 0 <= k < |all| ==> MemberAllows(s, all[k])) <==>
              MemberAllows(s, m) && forall k :: 0 <= k < |others| ==> MemberAllows(s, others[k])
  {
    hide MemberAllows;
    var all, others := a + [m] + b, a + b;
    assert all[|a|] == m;
    assert forall k :: 0 <= k < |others| ==> others[k] == all[if k < |a| then k else k + 1];
    assert forall k :: 0 <= k < |all| && k != |a| ==> all[k] == others[if k < |a| then k else k - 1];
  }

  lemma SameTargets(s: Schema, ms: seq<Member>, ns: seq<Member>, targets: seq<bool>)
    requires forall i: nat :: Has(s, ms, i) <==> Has(s, ns, i)
    ensures HasTargets(s, ms, targets) <==> HasTargets(s, ns, targets)
  {
    hide Has;
  }

  /** The element at `i`, judged by runs of validators. */
  ghost predicate ElementAccepted(p: Producer, s: Schema, i: nat, x: Value) {
    match s.items
    case AnyItems => true
    case ListOf(t) => Accepts(p, t, x)
    case TupleOf(ts) =>
      if i < |ts| then Accepts(p, ts[i], x)
      else if ts == [] then true
      else if s.additionalItemsSchema.TheSchema? then Accepts(p, s.additionalItemsSchema.schema, x)
      else s.additionalItems
  }

  lemma ElementByRun(p: Producer, s: Schema, i: nat, x: Value)
    ensures ElementAllows(s, i, x) <==> ElementAccepted(p, s, i, x)
  {
    hide Allows, Accepts;
    match s.items
    case AnyItems =>
    case ListOf(t) => AcceptsMeans(p, t, x);
    case TupleOf(ts) =>
      if i < |ts| {
        AcceptsMeans(p, ts[i], x);
      } else if s.additionalItemsSchema.TheSchema? {
        AcceptsMeans(p, s.additionalItemsSchema.schema, x);
      }
  }

  /**
    Elements: each is judged by the schema of "items", by the one at its place in the tuple, or behind the tuple by
    the schema of "additionalItems" or its truth value; and the limits are plain comparisons.
   */
  lemma ElementsJudged(p: Producer, s: Schema, xs: seq<Value>)
    requires Simple(s)
    ensures Accepts(p, s, Array(xs)) <==>
              && ArrayT in s.types && s.minItems <= |xs| && (s.maxItems.AtMost? ==> |xs| <= s.maxItems.n)
              && (s.uniqueItems ==> forall i, j :: 0 <= i < j < |xs| ==> TreeHash(xs[i]) != TreeHash(xs[j]))
              && forall i :: 0 <= i < |xs| ==> ElementAccepted(p, s, i, xs[i])
  {
    hide Accepts, Allows, TreeHash, Simple, ElementAllows, ElementAccepted;
    AcceptsMeans(p, s, Array(xs));
    SimpleArray(s, xs);
    forall i | 0 <= i < |xs| ensures ElementAllows(s, i, xs[i]) <==> ElementAccepted(p, s, i, xs[i]) {
      ElementByRun(p, s, i, xs[i]);
    }
  }
}
