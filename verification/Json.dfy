/**
  Bytes, JSON trees and SAX events shared by the reader, the writers, the document builder,
  the schema validator and the JSON Pointer model.
 */
module Json {

  /** A `char` code unit of the UTF-8 instantiations, seen as `unsigned char`. */
  type Byte = b: int | 0 <= b < 0x100

  type Bytes = seq<Byte>

  datatype Option<+T> = None | Some(value: T)

  predicate IsHex(b: int) {
    0x30 <= b <= 0x39 || 0x41 <= b <= 0x46 || 0x61 <= b <= 0x66
  }

  function HexValue(b: int): (d: nat)
    requires IsHex(b)
    ensures d < 16
  {
    if b <= 0x39 then b - 0x30 else if b <= 0x46 then b - 0x37 else b - 0x57
  }

  function HexDigit(d: nat): Byte
    requires d < 16
  {
    if d < 10 then 0x30 + d else 0x37 + d
  }

  const INT32_MIN := -0x8000_0000
  const INT32_MAX := 0x7FFF_FFFF
  const UINT32_MAX := 0xFFFF_FFFF
  const INT64_MIN := -0x8000_0000_0000_0000
  const INT64_MAX := 0x7FFF_FFFF_FFFF_FFFF
  const UINT64_MAX := 0xFFFF_FFFF_FFFF_FFFF

  /** The integers a number cell can hold without falling back to `double`. */
  type JsonInt = n: int | -0x8000_0000_0000_0000 <= n <= 0xFFFF_FFFF_FFFF_FFFF

  /**
    A DOM tree (`GenericValue`). Doubles are kept as their literal, since their conversion is not modelled.
    Object members are an ordered list that may repeat a name, as in the source.
   */
  datatype Value =
    | Null
    | Bool(b: bool)
    | Integer(n: JsonInt)
    | Double(lexeme: Bytes)
    | String(s: Bytes)
    | Array(elements: seq<Value>)
    | Object(members: seq<Member>)

  datatype Member = Member(name: Bytes, value: Value)

  /** Which of the four integer callbacks of the Handler concept is used. */
  datatype NumKind = Int | Uint | Int64 | Uint64

  datatype Event =
    | NullE
    | BoolE(b: bool)
    | NumE(kind: NumKind, n: JsonInt)
    | DoubleE(lexeme: Bytes)
    | StringE(s: Bytes)
    | StartObject
    | Key(name: Bytes)
    | EndObject(memberCount: nat)
    | StartArray
    | EndArray(elementCount: nat)

  /** The argument range of each integer callback. */
  predicate InKind(kind: NumKind, n: int) {
    match kind
    case Int => INT32_MIN <= n <= INT32_MAX
    case Uint => 0 <= n <= UINT32_MAX
    case Int64 => INT64_MIN <= n <= INT64_MAX
    case Uint64 => 0 <= n <= UINT64_MAX
  }

  /** The two producers of events: `GenericValue::Accept` and the text reader. */
  datatype Producer = Visitor | TextReader

  /**
    The callback each producer picks for an integer. `Accept` asks IsInt, IsUint, IsInt64 in that order;
    the reader uses the unsigned callbacks for literals without a minus sign.
   */
  function KindFor(p: Producer, n: JsonInt): (kind: NumKind)
    ensures InKind(kind, n)
  {
    match p
    case Visitor =>
      if INT32_MIN <= n <= INT32_MAX then Int
      else if 0 <= n <= UINT32_MAX then Uint
      else if n <= INT64_MAX then Int64
      else Uint64
    case TextReader =>
      if 0 <= n then (if n <= UINT32_MAX then Uint else Uint64)
      else (if INT32_MIN <= n then Int else Int64)
  }

  /** The events of a tree, in document order. */
  function Events(p: Producer, v: Value): (es: seq<Event>)
    ensures es != []
    decreases v
  {
    match v
    case Null => [NullE]
    case Bool(b) => [BoolE(b)]
    case Integer(n) => [NumE(KindFor(p, n), n)]
    case Double(lexeme) => [DoubleE(lexeme)]
    case String(s) => [StringE(s)]
    case Array(elements) => [StartArray] + ElementEvents(p, elements) + [EndArray(|elements|)]
    case Object(members) => [StartObject] + MemberEvents(p, members) + [EndObject(|members|)]
  }

  function ElementEvents(p: Producer, vs: seq<Value>): seq<Event>
    decreases vs
  {
    if vs == [] then [] else Events(p, vs[0]) + ElementEvents(p, vs[1..])
  }

  function MemberEvents(p: Producer, ms: seq<Member>): seq<Event>
    decreases ms
  {
    if ms == [] then [] else [Key(ms[0].name)] + Events(p, ms[0].value) + MemberEvents(p, ms[1..])
  }

  /** No double anywhere in the tree. */
  predicate NoDoubles(v: Value)
    decreases v
  {
    match v
    case Double(_) => false
    case Array(elements) => forall i :: 0 <= i < |elements| ==> NoDoubles(elements[i])
    case Object(members) => forall i :: 0 <= i < |members| ==> NoDoubles(members[i].value)
    case _ => true
  }
}
