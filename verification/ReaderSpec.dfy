/**
  The JSON grammar as the recursive-descent reader understands it, as functions on the unread text.
  Every function takes the text still to be read and answers with the events produced and the text left;
  an error is located by the number of bytes left when it was raised.
 */
module ReaderSpec {
  import opened Json
  import opened Numbers

  /** The parse flags that shape the grammar (reader.h, enum ParseFlag). */
  datatype Flags = Flags(comments: bool, trailingCommas: bool, stopWhenDone: bool)

  datatype Outcome =
    | Good(events: seq<Event>, rest: Bytes)
    | Bad(events: seq<Event>, code: ErrorCode, left: int)

  /** The outcome when `es` had been delivered before. */
  function Prepend(es: seq<Event>, o: Outcome): Outcome {
    match o
    case Good(fs, rest) => Good(es + fs, rest)
    case Bad(fs, code, left) => Bad(es + fs, code, left)
  }

  // ---------------------------------------------------------------- white space and comments

  predicate IsBlank(b: int) {
    b == 0x20 || b == 0x0A || b == 0x0D || b == 0x09
  }

  function SkipBlanks(s: Bytes): (r: Bytes)
    ensures |r| <= |s|
    ensures !IsBlank(Peek(r))
  {
    if s != [] && IsBlank(s[0]) then SkipBlanks(s[1..]) else s
  }

  datatype Skipped = Skipped(rest: Bytes) | SkipError(left: nat)

  /** The text after the first "*" "/" pair. */
  function BlockCommentEnd(s: Bytes): (r: Skipped)
    ensures r.Skipped? ==> |r.rest| <= |s|
  {
    if Peek(s) == 0 then SkipError(|s|)
    else if s[0] == 0x2A && Peek(s[1..]) == 0x2F then Skipped(s[2..])
    else BlockCommentEnd(s[1..])
  }

  /** The text after the line feed, or at the terminator. */
  function LineCommentEnd(s: Bytes): (r: Bytes)
    ensures |r| <= |s|
  {
    if Peek(s) == 0 then s
    else if s[0] == 0x0A then s[1..]
    else LineCommentEnd(s[1..])
  }

  function SkipComments(s: Bytes): (r: Skipped)
    ensures r.Skipped? ==> |r.rest| <= |s|
    decreases |s|
  {
    if Peek(s) != 0x2F then Skipped(s)
    else if Peek(s[1..]) == 0x2A then
      match BlockCommentEnd(s[2..])
      case SkipError(left) => SkipError(left)
      case Skipped(rest) => SkipComments(SkipBlanks(rest))
    else if Peek(s[1..]) == 0x2F then SkipComments(SkipBlanks(LineCommentEnd(s[2..])))
    else SkipError(|s| - 1)
  }

  function Skip(f: Flags, s: Bytes): (r: Skipped)
    ensures r.Skipped? ==> |r.rest| <= |s|
  {
    if f.comments then SkipComments(SkipBlanks(s)) else Skipped(SkipBlanks(s))
  }

  // ---------------------------------------------------------------- strings

  /** The nonzero entries of the reader's escape table, other than 'u'. */
  function Unescape(e: int): Byte {
    if e == 0x22 then 0x22
    else if e == 0x2F then 0x2F
    else if e == 0x5C then 0x5C
    else if e == 0x62 then 0x08
    else if e == 0x66 then 0x0C
    else if e == 0x6E then 0x0A
    else if e == 0x72 then 0x0D
    else if e == 0x74 then 0x09
    else 0
  }

  predicate HasHex4(s: Bytes) {
    |s| >= 4 && IsHex(s[0]) && IsHex(s[1]) && IsHex(s[2]) && IsHex(s[3])
  }

  function Hex4(s: Bytes): (c: nat)
    requires HasHex4(s)
    ensures c <= 0xFFFF
  {
    ((HexValue(s[0]) * 16 + HexValue(s[1])) * 16 + HexValue(s[2])) * 16 + HexValue(s[3])
  }

  /** `UTF8::Encode`. */
  function Utf8(c: nat): (bs: Bytes)
    requires c <= 0x10FFFF
    ensures 1 <= |bs| <= 4
  {
    if c <= 0x7F then [c]
    else if c <= 0x7FF then [0xC0 + c / 64, 0x80 + c % 64]
    else if c <= 0xFFFF then [0xE0 + c / 4096, 0x80 + c / 64 % 64, 0x80 + c % 64]
    else [0xF0 + c / 262144, 0x80 + c / 4096 % 64, 0x80 + c / 64 % 64, 0x80 + c % 64]
  }

  /** One unit of string text: the bytes it denotes, the closing quote, or an error. */
  datatype Unit =
    | Chunk(bytes: Bytes, rest: Bytes)
    | Close(rest: Bytes)
    | UnitError(code: ErrorCode, left: nat)

  predicate IsLead(c: nat) {
    0xD800 <= c <= 0xDBFF
  }

  predicate IsTrail(c: nat) {
    0xDC00 <= c <= 0xDFFF
  }

  /** After a \\u escape that named a leading surrogate; errors belong to the start of that escape. */
  function PairAt(lead: nat, s: Bytes, left: nat): (u: Unit)
    requires IsLead(lead)
    ensures !u.Close?
    ensures u.UnitError? ==> u.left == left
    ensures u.Chunk? ==> |s| >= 6 && |u.bytes| <= 4 && u.rest == s[6..]
  {
    if Peek(s) != 0x5C || Peek(s[1..]) != 0x75 then UnitError(StringUnicodeSurrogateInvalid, left)
    else if !HasHex4(s[2..]) then UnitError(StringUnicodeEscapeInvalidHex, left)
    else if !IsTrail(Hex4(s[2..])) then UnitError(StringUnicodeSurrogateInvalid, left)
    else Chunk(Utf8((lead - 0xD800) * 1024 + (Hex4(s[2..]) - 0xDC00) + 0x10000), s[6..])
  }

  /** The body of the loop in `ParseStringToStream`. */
  function UnitAt(s: Bytes): (u: Unit)
    ensures u.Chunk? ==> |u.rest| < |s| && 1 <= |u.bytes| <= |s| - |u.rest|
    ensures u.Close? ==> |u.rest| == |s| - 1
    ensures u.Chunk? ==> u.rest == s[|s| - |u.rest|..]
    ensures u.Close? ==> u.rest == s[1..]
  {
    if Peek(s) == 0x5C then
      if Unescape(Peek(s[1..])) != 0 then Chunk([Unescape(Peek(s[1..]))], s[2..])
      else if Peek(s[1..]) == 0x75 then
        if !HasHex4(s[2..]) then UnitError(StringUnicodeEscapeInvalidHex, |s|)
        else if !IsLead(Hex4(s[2..])) then Chunk(Utf8(Hex4(s[2..])), s[6..])
        else PairAt(Hex4(s[2..]), s[6..], |s|)
      else UnitError(StringEscapeInvalid, |s|)
    else if Peek(s) == 0x22 then Close(s[1..])
    else if Peek(s) < 0x20 then
      UnitError(if Peek(s) == 0 then StringMissQuotationMark else StringEscapeInvalid, |s|)
    else Chunk([s[0]], s[1..])
  }

  datatype StringText = StringText(content: Bytes, rest: Bytes) | StringError(code: ErrorCode, left: nat)

  function Extend(bytes: Bytes, t: StringText): StringText {
    match t
    case StringText(content, rest) => StringText(bytes + content, rest)
    case StringError(_, _) => t
  }

  lemma ExtendExtend(a: Bytes, b: Bytes, t: StringText)
    ensures Extend(a, Extend(b, t)) == Extend(a + b, t)
  {
    if t.StringText? {
      assert a + (b + t.content) == a + b + t.content;
    }
  }

  /** The string whose opening quote has been read. */
  function StringAt(s: Bytes): (t: StringText)
    ensures t.StringText? ==> |t.rest| < |s|
    decreases |s|
  {
    match UnitAt(s)
    case Chunk(bytes, rest) => Extend(bytes, StringAt(rest))
    case Close(rest) => StringText([], rest)
    case UnitError(code, left) => StringError(code, left)
  }

  /** `ParseString`, the quote included. */
  function StringEventAt(s: Bytes, isKey: bool): (o: Outcome)
    requires Peek(s) == 0x22
    ensures o.Good? ==> |o.rest| < |s|
  {
    match StringAt(s[1..])
    case StringText(content, rest) => Good([if isKey then Key(content) else StringE(content)], rest)
    case StringError(code, left) => Bad([], code, left)
  }

  // ---------------------------------------------------------------- values

  /** Length of the common prefix of the text and a keyword. */
  function Matched(s: Bytes, word: Bytes): (k: nat)
    ensures k <= |word| && k <= |s|
  {
    if s != [] && word != [] && s[0] == word[0] then 1 + Matched(s[1..], word[1..]) else 0
  }

  const NULL_TEXT: Bytes := [0x6E, 0x75, 0x6C, 0x6C]
  const TRUE_TEXT: Bytes := [0x74, 0x72, 0x75, 0x65]
  const FALSE_TEXT: Bytes := [0x66, 0x61, 0x6C, 0x73, 0x65]

  function KeywordAt(s: Bytes, word: Bytes, event: Event): (o: Outcome)
    requires word != []
    ensures o.Good? ==> |o.rest| < |s|
  {
    if Matched(s, word) == |word| then Good([event], s[|word|..])
    else Bad([], ValueInvalid, |s| - Matched(s, word))
  }

  /** Everything but arrays and objects. */
  function ScalarAt(s: Bytes): (o: Outcome)
    ensures o.Good? ==> |o.rest| < |s|
  {
    if Peek(s) == 0x6E then KeywordAt(s, NULL_TEXT, NullE)
    else if Peek(s) == 0x74 then KeywordAt(s, TRUE_TEXT, BoolE(true))
    else if Peek(s) == 0x66 then KeywordAt(s, FALSE_TEXT, BoolE(false))
    else if Peek(s) == 0x22 then StringEventAt(s, false)
    else
      match NumberAt(s)
      case Scalar(event, rest) => Good([event], rest)
      case ScalarError(code, left) => Bad([], code, left)
  }

  function ValueAt(f: Flags, s: Bytes): (o: Outcome)
    ensures o.Good? ==> |o.rest| < |s|
    decreases |s|, 0
  {
    if Peek(s) == 0x7B then
      (match Skip(f, s[1..])
       case SkipError(left) => Bad([StartObject], UnspecificSyntaxError, left)
       case Skipped(t) => Prepend([StartObject], AtObjectInitial(f, t)))
    else if Peek(s) == 0x5B then
      (match Skip(f, s[1..])
       case SkipError(left) => Bad([StartArray], UnspecificSyntaxError, left)
       case Skipped(t) => Prepend([StartArray], AtArrayInitial(f, t)))
    else ScalarAt(s)
  }

  // Arrays. Each function below picks up right after white space has been skipped.

  function AtArrayInitial(f: Flags, s: Bytes): (o: Outcome)
    ensures o.Good? ==> |o.rest| < |s|
    decreases |s|, 2
  {
    if Peek(s) == 0x5D then Good([EndArray(0)], s[1..]) else AtElement(f, s, 0)
  }

  /** At the first byte of an element that follows `count` others. */
  function AtElement(f: Flags, s: Bytes, count: nat): (o: Outcome)
    ensures o.Good? ==> |o.rest| < |s|
    decreases |s|, 1
  {
    match ValueAt(f, s)
    case Bad(es, code, left) => Bad(es, code, left)
    case Good(es, r) =>
      match Skip(f, r)
      case SkipError(left) => Bad(es, UnspecificSyntaxError, left)
      case Skipped(t) => Prepend(es, AtElementEnd(f, t, count))
  }

  /** After an element that follows `count` others. */
  function AtElementEnd(f: Flags, s: Bytes, count: nat): (o: Outcome)
    ensures o.Good? ==> |o.rest| < |s|
    decreases |s|, 3
  {
    if Peek(s) == 0x2C then
      match Skip(f, s[1..])
      case SkipError(left) => Bad([], UnspecificSyntaxError, left)
      case Skipped(t) => AtElementDelimiter(f, t, count + 1)
    else if Peek(s) == 0x5D then Good([EndArray(count + 1)], s[1..])
    else Bad([], ArrayMissCommaOrSquareBracket, |s|)
  }

  /** After the comma that follows `count` elements. */
  function AtElementDelimiter(f: Flags, s: Bytes, count: nat): (o: Outcome)
    ensures o.Good? ==> |o.rest| < |s|
    decreases |s|, 2
  {
    if f.trailingCommas && Peek(s) == 0x5D then Good([EndArray(count)], s[1..]) else AtElement(f, s, count)
  }

  // Objects.

  function AtObjectInitial(f: Flags, s: Bytes): (o: Outcome)
    ensures o.Good? ==> |o.rest| < |s|
    decreases |s|, 2
  {
    if Peek(s) == 0x7D then Good([EndObject(0)], s[1..]) else AtKey(f, s, 0)
  }

  function AtKey(f: Flags, s: Bytes, count: nat): (o: Outcome)
    ensures o.Good? ==> |o.rest| < |s|
    decreases |s|, 1
  {
    if Peek(s) != 0x22 then Bad([], ObjectMissName, |s|)
    else
      match StringEventAt(s, true)
      case Bad(es, code, left) => Bad(es, code, left)
      case Good(es, r) =>
        match Skip(f, r)
        case SkipError(left) => Bad(es, UnspecificSyntaxError, left)
        case Skipped(t) => Prepend(es, AtKeyEnd(f, t, count))
  }

  function AtKeyEnd(f: Flags, s: Bytes, count: nat): (o: Outcome)
    ensures o.Good? ==> |o.rest| < |s|
    decreases |s|, 3
  {
    if Peek(s) != 0x3A then Bad([], ObjectMissColon, |s|)
    else
      match Skip(f, s[1..])
      case SkipError(left) => Bad([], UnspecificSyntaxError, left)
      case Skipped(t) => AtMemberValue(f, t, count)
  }

  function AtMemberValue(f: Flags, s: Bytes, count: nat): (o: Outcome)
    ensures o.Good? ==> |o.rest| < |s|
    decreases |s|, 1
  {
    match ValueAt(f, s)
    case Bad(es, code, left) => Bad(es, code, left)
    case Good(es, r) =>
      match Skip(f, r)
      case SkipError(left) => Bad(es, UnspecificSyntaxError, left)
      case Skipped(t) => Prepend(es, AtMemberEnd(f, t, count))
  }

  function AtMemberEnd(f: Flags, s: Bytes, count: nat): (o: Outcome)
    ensures o.Good? ==> |o.rest| < |s|
    decreases |s|, 3
  {
    if Peek(s) == 0x2C then
      match Skip(f, s[1..])
      case SkipError(left) => Bad([], UnspecificSyntaxError, left)
      case Skipped(t) => AtMemberDelimiter(f, t, count + 1)
    else if Peek(s) == 0x7D then Good([EndObject(count + 1)], s[1..])
    else Bad([], ObjectMissCommaOrCurlyBracket, |s|)
  }

  function AtMemberDelimiter(f: Flags, s: Bytes, count: nat): (o: Outcome)
    ensures o.Good? ==> |o.rest| < |s|
    decreases |s|, 2
  {
    if f.trailingCommas && Peek(s) == 0x7D then Good([EndObject(count)], s[1..]) else AtKey(f, s, count)
  }

  // ---------------------------------------------------------------- documents

  /** After the root value. */
  function AtRootEnd(f: Flags, s: Bytes): Outcome {
    if f.stopWhenDone then Good([], s)
    else
      match Skip(f, s)
      case SkipError(left) => Bad([], UnspecificSyntaxError, left)
      case Skipped(t) => if Peek(t) != 0 then Bad([], DocumentRootNotSingular, |t|) else Good([], t)
  }

  /** `Parse` without the iterative flag. */
  function DocumentAt(f: Flags, s: Bytes): Outcome {
    match Skip(f, s)
    case SkipError(left) => Bad([], UnspecificSyntaxError, left)
    case Skipped(t) =>
      if Peek(t) == 0 then Bad([], DocumentEmpty, |t|)
      else
        match ValueAt(f, t)
        case Bad(es, code, left) => Bad(es, code, left)
        case Good(es, r) => Prepend(es, AtRootEnd(f, r))
  }

  /** A structural byte that cannot start a value: ',' ':' ']' '}'. */
  predicate IsStray(b: int) {
    b == 0x2C || b == 0x3A || b == 0x5D || b == 0x7D
  }

  /** Whether the first byte that is neither blank nor comment is a stray structural byte. */
  predicate StartsStray(f: Flags, s: Bytes) {
    Skip(f, s).Skipped? && IsStray(Peek(Skip(f, s).rest))
  }

  /** What the iterative parser answers: the same, but a stray first byte counts as an empty document. */
  function IterativeAt(f: Flags, s: Bytes): Outcome {
    if StartsStray(f, s) then Bad([], DocumentEmpty, |Skip(f, s).rest|) else DocumentAt(f, s)
  }
}
