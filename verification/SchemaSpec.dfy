/**
  JSON Schema as rapidjson compiles it, the hash of a JSON tree, and what it means for a tree to be valid.
 */
module SchemaSpec {
  import opened Json
  import opened Bits

  // ---------------------------------------------------------------- hashing

  type HashCode = bv64

  const NULL_TYPE: HashCode := 0
  const FALSE_TYPE: HashCode := 1
  const TRUE_TYPE: HashCode := 2
  const OBJECT_TYPE: HashCode := 3
  const ARRAY_TYPE: HashCode := 4
  const STRING_TYPE: HashCode := 5
  const NUMBER_TYPE: HashCode := 6

  const FNV_BASIS: HashCode := 0x8422_2325_CBF2_9CE4

  function Pow2(n: nat): (p: nat)
    ensures p > 0
  {
    if n == 0 then 1 else 2 * Pow2(n - 1)
  }

  /** One FNV step, modulo 2^64. */
  function Mix(h: HashCode, d: HashCode): HashCode {
    (h ^ d) * 0x100_0000_01B3
  }

  function MixBytes(h: HashCode, data: Bytes): HashCode
    decreases data
  {
    if data == [] then h else MixBytes(Mix(h, Widened(data[0])), data[1..])
  }

  /** `WriteBuffer`. */
  function BufferHash(kind: HashCode, data: Bytes): HashCode {
    MixBytes(Mix(FNV_BASIS, kind), data)
  }

  function BitLength(m: nat): nat {
    if m == 0 then 0 else 1 + BitLength(m / 2)
  }

  /** The IEEE 754 binary64 encoding of an integer, rounded to nearest, ties to even. */
  function DoubleBits(n: JsonInt): nat {
    if n == 0 then 0
    else
      var sign := if n < 0 then 1 else 0;
      var m: nat := if n < 0 then -n else n;
      var length := BitLength(m);
      var significand :=
        if length <= 53 then m * Pow2(53 - length)
        else
          var unit := Pow2(length - 53);
          var q := m / unit;
          var twice := 2 * (m % unit);
          if twice > unit || (twice == unit && q % 2 == 1) then q + 1 else q;
      var magnitude := (length + 1022) * 0x10_0000_0000_0000 + significand - 0x10_0000_0000_0000;
      sign * 0x8000_0000_0000_0000 + if magnitude < 0 then 0 else magnitude
  }

  function LittleEndian(x: nat, count: nat): Bytes {
    if count == 0 then [] else [x % 256] + LittleEndian(x / 256, count - 1)
  }

  /** The sixteen bytes of the hasher's `Number`: the 64-bit word, then the double. */
  function NumberImage(n: JsonInt): Bytes {
    LittleEndian(if n < 0 then n + 0x1_0000_0000_0000_0000 else n, 8) + LittleEndian(DoubleBits(n), 8)
  }

  /** Combines element hashes in order. */
  function ArrayHash(h: HashCode, es: seq<HashCode>): HashCode
    decreases es
  {
    if es == [] then h else ArrayHash(Mix(h, es[0]), es[1..])
  }

  /** Combines name and value hashes member by member, order being irrelevant. */
  function ObjectHash(h: HashCode, kvs: seq<HashCode>): HashCode
    requires |kvs| % 2 == 0
    decreases kvs
  {
    if kvs == [] then h else ObjectHash(h ^ Mix(kvs[0], kvs[1]), kvs[2..])
  }

  function TreeHash(v: Value): HashCode
    decreases v
  {
    match v
    case Null => BufferHash(NULL_TYPE, [])
    case Bool(b) => BufferHash(if b then TRUE_TYPE else FALSE_TYPE, [])
    case Integer(n) => BufferHash(NUMBER_TYPE, NumberImage(n))
    case Double(lexeme) => BufferHash(NUMBER_TYPE, lexeme)
    case String(s) => BufferHash(STRING_TYPE, s)
    case Array(elements) => ArrayHash(Mix(0, ARRAY_TYPE), ElementHashes(elements))
    case Object(members) => ObjectHash(Mix(0, OBJECT_TYPE), MemberHashes(members))
  }

  function ElementHashes(vs: seq<Value>): (hs: seq<HashCode>)
    ensures |hs| == |vs|
    decreases vs
  {
    if vs == [] then [] else [TreeHash(vs[0])] + ElementHashes(vs[1..])
  }

  function MemberHashes(ms: seq<Member>): (hs: seq<HashCode>)
    ensures |hs| == 2 * |ms|
    decreases ms
  {
    if ms == [] then []
    else [BufferHash(STRING_TYPE, ms[0].name), TreeHash(ms[0].value)] + MemberHashes(ms[1..])
  }

  // ---------------------------------------------------------------- schemas

  datatype SchemaType = NullT | BooleanT | ObjectT | ArrayT | StringT | NumberT | IntegerT

  datatype MaybeSchema = NoSchema | TheSchema(schema: Schema)

  datatype Items = AnyItems | ListOf(schema: Schema) | TupleOf(schemas: seq<Schema>)

  /** A dependency of a property: on other properties by index, or on a schema for the whole object. */
  datatype Dependency = NoDependency | OnProperties(targets: seq<bool>) | OnSchema(schema: Schema)

  datatype Property = Property(name: Bytes, schema: Schema, required: bool, dependency: Dependency)

  datatype Limit = Unlimited | AtMost(n: nat)

  datatype Bound = NoBound | BoundAt(n: JsonInt)

  /** The compiled form of a schema object (class Schema), without references, patterns and string lengths. */
  datatype Schema = Schema(
    types: set<SchemaType>,
    enumHashes: seq<HashCode>,
    allOf: seq<Schema>,
    anyOf: seq<Schema>,
    oneOf: seq<Schema>,
    not_: MaybeSchema,
    properties: seq<Property>,
    additionalPropertiesSchema: MaybeSchema,
    additionalProperties: bool,
    minProperties: nat,
    maxProperties: Limit,
    items: Items,
    additionalItemsSchema: MaybeSchema,
    additionalItems: bool,
    minItems: nat,
    maxItems: Limit,
    uniqueItems: bool,
    minimum: Bound,
    exclusiveMinimum: bool,
    maximum: Bound,
    exclusiveMaximum: bool,
    multipleOf: Bound)

  /** `GetTypeless`: the schema {}. */
  function Typeless(): Schema {
    Schema({NullT, BooleanT, ObjectT, ArrayT, StringT, NumberT, IntegerT}, [], [], [], [], NoSchema,
           [], NoSchema, true, 0, Unlimited, AnyItems, NoSchema, true, 0, Unlimited, false,
           NoBound, false, NoBound, false, NoBound)
  }

  // ---------------------------------------------------------------- keywords

  predicate Within(count: nat, least: nat, most: Limit) {
    least <= count && (most.AtMost? ==> count <= most.n)
  }

  /** type, minimum, maximum and multipleOf for an integer, as integers compare. */
  predicate NumberOk(s: Schema, n: int) {
    && (IntegerT in s.types || NumberT in s.types)
    && (s.minimum.BoundAt? ==> if s.exclusiveMinimum then s.minimum.n < n else s.minimum.n <= n)
    && (s.maximum.BoundAt? ==> if s.exclusiveMaximum then n < s.maximum.n else n <= s.maximum.n)
    && (s.multipleOf.BoundAt? && s.multipleOf.n > 0 ==> n % s.multipleOf.n == 0)
  }

  /** The schema for the array element at `index`; none when items and additionalItems forbid it. */
  function ItemSchema(s: Schema, index: nat): MaybeSchema {
    match s.items
    case AnyItems => TheSchema(Typeless())
    case ListOf(schema) => TheSchema(schema)
    case TupleOf(schemas) =>
      if schemas == [] then TheSchema(Typeless())
      else if index < |schemas| then TheSchema(schemas[index])
      else if s.additionalItemsSchema.TheSchema? then s.additionalItemsSchema
      else if s.additionalItems then TheSchema(Typeless())
      else NoSchema
  }

  datatype MaybeIndex = NoIndex | Index(i: nat)

  /** `FindPropertyIndex`: the first property of that name. */
  function FindProperty(props: seq<Property>, name: Bytes): (r: MaybeIndex)
    ensures r.Index? ==> r.i < |props| && props[r.i].name == name
    ensures r.Index? ==> forall j :: 0 <= j < r.i ==> props[j].name != name
    ensures r.NoIndex? ==> forall j :: 0 <= j < |props| ==> props[j].name != name
  {
    if props == [] then NoIndex
    else if props[0].name == name then Index(0)
    else
      match FindProperty(props[1..], name)
      case NoIndex => assert forall j :: 1 <= j < |props| ==> props[j] == props[1..][j - 1]; NoIndex
      case Index(i) => assert forall j :: 1 <= j <= i + 1 ==> props[j] == props[1..][j - 1]; Index(i + 1)
  }

  /** The schema for the member called `name`; none when additionalProperties forbids it. */
  function MemberSchema(s: Schema, name: Bytes): MaybeSchema {
    match FindProperty(s.properties, name)
    case Index(i) => TheSchema(s.properties[i].schema)
    case NoIndex =>
      if s.additionalPropertiesSchema.TheSchema? then s.additionalPropertiesSchema
      else if s.additionalProperties then TheSchema(Typeless())
      else NoSchema
  }

  /** Some member is the one recorded under property `i`. */
  predicate Seen(s: Schema, ms: seq<Member>, i: nat) {
    exists k :: 0 <= k < |ms| && FindProperty(s.properties, ms[k].name) == Index(i)
  }

  /** Property names are gathered without repetition. */
  predicate UniqueNames(s: Schema) {
    forall i, j :: 0 <= i < j < |s.properties| ==> s.properties[i].name != s.properties[j].name
  }

  /** With unique names, a property is seen exactly when some member carries its name. */
  lemma SeenMeansNamed(s: Schema, ms: seq<Member>, i: nat)
    requires UniqueNames(s) && i < |s.properties|
    ensures Seen(s, ms, i) <==> exists k :: 0 <= k < |ms| && ms[k].name == s.properties[i].name
  {
    if k :| 0 <= k < |ms| && ms[k].name == s.properties[i].name {
      assert FindProperty(s.properties, ms[k].name) == Index(i);
    }
  }

  predicate DependencyOk(s: Schema, ms: seq<Member>, i: nat)
    requires i < |s.properties|
  {
    var d := s.properties[i].dependency;
    d.OnProperties? && Seen(s, ms, i) ==>
      forall j :: 0 <= j < |d.targets| && d.targets[j] ==> Seen(s, ms, j)
  }

  predicate Distinct(hs: seq<HashCode>) {
    forall i, j :: 0 <= i < j < |hs| ==> hs[i] != hs[j]
  }

  // ---------------------------------------------------------------- validity

  /** How many of the schemas the value satisfies. */
  function CountValid(ss: seq<Schema>, v: Value): (n: nat)
    decreases v, ss, 0
  {
    if ss == [] then 0 else (if Valid(ss[0], v) then 1 else 0) + CountValid(ss[1..], v)
  }

  /** The recursive reading of a schema: the simple form the event machine must agree with. */
  predicate Valid(s: Schema, v: Value)
    decreases v, s, 2
  {
    Combined(s, v) && Shaped(s, v)
  }

  /** enum, allOf, anyOf, oneOf and not. */
  predicate Combined(s: Schema, v: Value)
    decreases v, s, 1
  {
    && (s.enumHashes == [] || TreeHash(v) in s.enumHashes)
    && (forall i :: 0 <= i < |s.allOf| ==> Valid(s.allOf[i], v))
    && (s.anyOf == [] || exists i :: 0 <= i < |s.anyOf| && Valid(s.anyOf[i], v))
    && (s.oneOf == [] || CountValid(s.oneOf, v) == 1)
    && (s.not_.TheSchema? ==> !Valid(s.not_.schema, v))
  }

  /** type and the keywords of each type. */
  predicate Shaped(s: Schema, v: Value)
    decreases v, s, 1
  {
    match v
    case Null => NullT in s.types
    case Bool(_) => BooleanT in s.types
    case Integer(n) => NumberOk(s, n)
    case Double(_) => NumberT in s.types
    case String(_) => StringT in s.types
    case Array(elements) =>
      && ArrayT in s.types
      && Within(|elements|, s.minItems, s.maxItems)
      && (s.uniqueItems ==> Distinct(ElementHashes(elements)))
      && forall i :: 0 <= i < |elements| ==>
           ItemSchema(s, i).TheSchema? && Valid(ItemSchema(s, i).schema, elements[i])
    case Object(members) =>
      && ObjectT in s.types
      && Within(|members|, s.minProperties, s.maxProperties)
      && (forall i :: 0 <= i < |members| ==>
            MemberSchema(s, members[i].name).TheSchema?
            && Valid(MemberSchema(s, members[i].name).schema, members[i].value))
      && (forall i :: 0 <= i < |s.properties| && s.properties[i].required ==> Seen(s, members, i))
      && (forall i :: 0 <= i < |s.properties| ==> DependencyOk(s, members, i))
      && (forall i :: 0 <= i < |s.properties| && Seen(s, members, i) && s.properties[i].dependency.OnSchema? ==>
            Valid(s.properties[i].dependency.schema, v))
  }
}
