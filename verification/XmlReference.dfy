/**
  Character data and attribute values by the grammar of XML 1.0: characters, the predefined entities of section 4.6 and
  the character references of section 4.1, with their text and meaning, and the other markup by its bytes.
 */
module XmlReference {
  import opened Json
  import opened Numbers
  import opened XmlSpec
  import opened XmlRoundTrip
  import R = ReaderSpec

  // ---------------------------------------------------------------- references

  datatype Item =
    | Itself(c: Byte)
    | LessThan
    | GreaterThan
    | Ampersand
    | Apostrophe
    | Quotation
    | DecimalCode(digits: Bytes)
    | HexCode(digits: Bytes)

  /** "&lt;", "&gt;", "&amp;", "&apos;", "&quot;", "&#...;" and "&#x...;". */
  function ItemText(t: Item): Bytes {
    match t
    case Itself(c) => [c]
    case LessThan => [0x26, 0x6C, 0x74, 0x3B]
    case GreaterThan => [0x26, 0x67, 0x74, 0x3B]
    case Ampersand => [0x26, 0x61, 0x6D, 0x70, 0x3B]
    case Apostrophe => [0x26, 0x61, 0x70, 0x6F, 0x73, 0x3B]
    case Quotation => [0x26, 0x71, 0x75, 0x6F, 0x74, 0x3B]
    case DecimalCode(digits) => [0x26, 0x23] + digits + [0x3B]
    case HexCode(digits) => [0x26, 0x23, 0x78] + digits + [0x3B]
  }

  /** The number that digits stand for, read after others. */
  function Number(base: nat, before: nat, digits: Bytes): nat
    requires forall i :: 0 <= i < |digits| ==> IsHex(digits[i])
    decreases digits
  {
    if digits == [] then before else Number(base, before * base + HexValue(digits[0]), digits[1..])
  }

  /** The code points that character references may name. */
  predicate LegalItem(k: CharClass, t: Item) {
    match t
    case Itself(c) => In(k, c) && c != 0x26
    case DecimalCode(digits) =>
      digits != [] && (forall i :: 0 <= i < |digits| ==> 0x30 <= digits[i] <= 0x39) && Number(10, 0, digits) <= 0x10FFFF
    case HexCode(digits) =>
      digits != [] && (forall i :: 0 <= i < |digits| ==> IsHex(digits[i])) && Number(16, 0, digits) <= 0x10FFFF
    case _ => true
  }

  /** The bytes an item denotes: '<', '>', '&', ''', '"', or the character of a code point in UTF-8. */
  function ItemBytes(k: CharClass, t: Item): Bytes
    requires LegalItem(k, t)
  {
    match t
    case Itself(c) => [c]
    case LessThan => [0x3C]
    case GreaterThan => [0x3E]
    case Ampersand => [0x26]
    case Apostrophe => [0x27]
    case Quotation => [0x22]
    case DecimalCode(digits) => R.Utf8(Number(10, 0, digits))
    case HexCode(digits) => R.Utf8(Number(16, 0, digits))
  }

  predicate LegalItems(k: CharClass, ts: seq<Item>) {
    forall i :: 0 <= i < |ts| ==> LegalItem(k, ts[i])
  }

  function ItemsText(ts: seq<Item>): Bytes {
    if ts == [] then [] else ItemText(ts[0]) + ItemsText(ts[1..])
  }

  function ItemsBytes(k: CharClass, ts: seq<Item>): Bytes
    requires LegalItems(k, ts)
  {
    if ts == [] then [] else ItemBytes(k, ts[0]) + ItemsBytes(k, ts[1..])
  }

  // ---------------------------------------------------------------- reading them

  lemma {:induction false} NumberGrows(base: nat, before: nat, digits: Bytes)
    requires base > 0 && forall i :: 0 <= i < |digits| ==> IsHex(digits[i])
    ensures before <= Number(base, before, digits)
    decreases digits
  {
    if digits != [] {
      NumberGrows(base, before * base + HexValue(digits[0]), digits[1..]);
      assert before <= before * base;
    }
  }

  lemma {:induction false} ReadDigits(base: nat, before: nat, digits: Bytes, rest: Bytes)
    requires (base == 10 || base == 16) && (forall i :: 0 <= i < |digits| ==> IsHex(digits[i])) && !IsHex(Peek(rest))
    requires Number(base, before, digits) < 0x1_0000_0000_0000_0000
    ensures CodeOf(base, before, digits + rest) == (Number(base, before, digits), rest)
    decreases digits
  {
    var s := digits + rest;
    if digits == [] {
      assert s == rest;
    } else {
      var next := before * base + HexValue(digits[0]);
      NumberGrows(base, next, digits[1..]);
      assert s[0] == digits[0] && s[1..] == digits[1..] + rest;
      ReadDigits(base, next, digits[1..], rest);
      assert NextCode(base, before, s[0]) == next;
    }
  }

  lemma ReadCode(base: nat, digits: Bytes, after: Bytes, left: nat)
    requires (base == 10 || base == 16) && (forall i :: 0 <= i < |digits| ==> IsHex(digits[i]))
    requires Number(base, 0, digits) < 0x1_0000_0000_0000_0000
    ensures NumericAt(base, digits + ([0x3B] + after), left)
         == if Number(base, 0, digits) <= 0x10FFFF then Piece(R.Utf8(Number(base, 0, digits)), after)
            else PieceError(InvalidNumericEntity, left)
  {
    hide CodeOf, R.Utf8, Number;
    ReadDigits(base, 0, digits, [0x3B] + after);
    assert ([0x3B] + after)[1..] == after;
  }

  lemma Starts(s: Bytes, p: Bytes, after: Bytes)
    requires s == p + after
    ensures p <= s && s[|p|..] == after
  {
  }

  lemma ReadNamed(t: Item, after: Bytes)
    requires t.LessThan? || t.GreaterThan? || t.Ampersand? || t.Apostrophe? || t.Quotation?
    ensures PieceAt(ItemText(t) + after) == Piece(ItemBytes(TextChars, t), after)
  {
    hide NumericAt;
    var s := ItemText(t) + after;
    Starts(s, ItemText(t), after);
    assert s[1] == ItemText(t)[1] && s[2] == ItemText(t)[2] && s[3] == ItemText(t)[3];
  }

  lemma CodeBranch(s: Bytes)
    requires |s| >= 3 && s[0] == 0x26 && s[1] == 0x23
    ensures PieceAt(s) == if s[2] == 0x78 then NumericAt(16, s[3..], |s|) else NumericAt(10, s[2..], |s|)
  {
    hide NumericAt;
    assert Peek(s[1..]) == 0x23 && Peek(s[2..]) == s[2];
  }

  /** A character reference, also one beyond Unicode. */
  lemma ReadReference(hex: bool, digits: Bytes, after: Bytes)
    requires digits != [] && forall i :: 0 <= i < |digits| ==> if hex then IsHex(digits[i]) else 0x30 <= digits[i] <= 0x39
    requires Number(if hex then 16 else 10, 0, digits) < 0x1_0000_0000_0000_0000
    ensures var s := ItemText(if hex then HexCode(digits) else DecimalCode(digits)) + after;
            var code := Number(if hex then 16 else 10, 0, digits);
            PieceAt(s) == if code <= 0x10FFFF then Piece(R.Utf8(code), after) else PieceError(InvalidNumericEntity, |s|)
  {
    hide NumericAt, R.Utf8, Number, PieceAt;
    var s := ItemText(if hex then HexCode(digits) else DecimalCode(digits)) + after;
    if hex {
      assert s == [0x26, 0x23, 0x78] + (digits + ([0x3B] + after));
      assert s[2] == 0x78 && s[3..] == digits + ([0x3B] + after);
      ReadCode(16, digits, after, |s|);
    } else {
      assert s == [0x26, 0x23] + (digits + ([0x3B] + after));
      assert s[2] == digits[0] && s[2..] == digits + ([0x3B] + after);
      ReadCode(10, digits, after, |s|);
    }
    CodeBranch(s);
  }

  lemma ReadItself(c: Byte, after: Bytes)
    requires c != 0x26
    ensures PieceAt([c] + after) == Piece([c], after)
  {
    hide NumericAt;
    var s := [c] + after;
    assert s[0] == c && s[1..] == after;
  }

  lemma ReadItem(k: CharClass, t: Item, after: Bytes)
    requires LegalItem(k, t)
    ensures PieceAt(ItemText(t) + after) == Piece(ItemBytes(k, t), after)
  {
    hide PieceAt, R.Utf8, Number, In;
    match t
    case Itself(c) => ReadItself(c, after);
    case DecimalCode(digits) => ReadReference(false, digits, after);
    case HexCode(digits) => ReadReference(true, digits, after);
    case _ => ReadNamed(t, after);
  }

  /** Character data up to '<', or an attribute value up to its quote. */
  predicate IsValueClass(k: CharClass) {
    k == TextChars || k == ValueChars(0x27) || k == ValueChars(0x22)
  }

  lemma ItemStarts(k: CharClass, t: Item)
    requires IsValueClass(k) && LegalItem(k, t)
    ensures ItemText(t) != [] && In(k, ItemText(t)[0])
  {
    hide Number;
  }

  lemma ExpandOne(k: CharClass, s: Bytes, bytes: Bytes, rest: Bytes, more: Bytes, tail: Bytes)
    requires s != [] && In(k, s[0]) && PieceAt(s) == Piece(bytes, rest) && Expand(k, rest) == Piece(more, tail)
    ensures Expand(k, s) == Piece(bytes + more, tail)
  {
    hide PieceAt, In;
  }

  /**
    Characters and references are expanded to what they denote, up to what ends the run: in character data as in
    attribute values.
   */
  lemma {:induction false} ExpandMeans(k: CharClass, ts: seq<Item>, tail: Bytes)
    requires IsValueClass(k) && LegalItems(k, ts) && Stops(k, tail)
    ensures Expand(k, ItemsText(ts) + tail) == Piece(ItemsBytes(k, ts), tail)
    decreases ts
  {
    hide PieceAt, In, Expand, LegalItem, ItemText, ItemBytes;
    if ts == [] {
      ExpandNothing(k, tail);
      assert ItemsText(ts) + tail == tail;
    } else {
      var after := ItemsText(ts[1..]) + tail;
      assert ItemsText(ts) + tail == ItemText(ts[0]) + after;
      ItemStarts(k, ts[0]);
      ReadItem(k, ts[0], after);
      ExpandMeans(k, ts[1..], tail);
      ExpandOne(k, ItemText(ts[0]) + after, ItemBytes(k, ts[0]), after, ItemsBytes(k, ts[1..]), tail);
    }
  }

  // ---------------------------------------------------------------- writing them

  /** The item the printer writes for a character. */
  function Spelling(c: Byte, noexpand: Byte): Item {
    if c == noexpand then Itself(c)
    else if c == 0x3C then LessThan
    else if c == 0x3E then GreaterThan
    else if c == 0x27 then Apostrophe
    else if c == 0x22 then Quotation
    else if c == 0x26 then Ampersand
    else Itself(c)
  }

  function SpellingOf(s: Bytes, noexpand: Byte): seq<Item> {
    if s == [] then [] else [Spelling(s[0], noexpand)] + SpellingOf(s[1..], noexpand)
  }

  lemma SpellingMeans(k: CharClass, c: Byte, noexpand: Byte, s: Bytes)
    requires c != 0 && c in s && Suits(k, noexpand, s)
    ensures LegalItem(k, Spelling(c, noexpand)) && ItemBytes(k, Spelling(c, noexpand)) == [c]
    ensures ItemText(Spelling(c, noexpand)) == Escaped(c, noexpand)
  {
  }

  lemma {:induction false} SpellingText(s: Bytes, noexpand: Byte)
    ensures ItemsText(SpellingOf(s, noexpand)) == EscapedText(s, noexpand)
    decreases s
  {
    hide ItemText, Escaped, Spelling;
    if s != [] {
      SpellingIsEscaped(s[0], noexpand);
      SpellingText(s[1..], noexpand);
      assert SpellingOf(s, noexpand)[1..] == SpellingOf(s[1..], noexpand);
    }
  }

  lemma SpellingIsEscaped(c: Byte, noexpand: Byte)
    ensures ItemText(Spelling(c, noexpand)) == Escaped(c, noexpand)
  {
  }

  /** What the printer writes is a sequence of characters and references that denotes the original. */
  lemma {:induction false} EscapedMeans(k: CharClass, s: Bytes, noexpand: Byte)
    requires 0 !in s && Suits(k, noexpand, s)
    ensures var ts := SpellingOf(s, noexpand);
            LegalItems(k, ts) && ItemsText(ts) == EscapedText(s, noexpand) && ItemsBytes(k, ts) == s
    decreases s
  {
    hide LegalItem, ItemText, ItemBytes, Escaped, Spelling;
    if s != [] {
      SpellingMeans(k, s[0], noexpand, s);
      EscapedMeans(k, s[1..], noexpand);
      var ts, more := SpellingOf(s, noexpand), SpellingOf(s[1..], noexpand);
      assert ts[0] == Spelling(s[0], noexpand) && ts[1..] == more;
      assert s == [s[0]] + s[1..];
    }
  }

  // ---------------------------------------------------------------- the lookup tables

  /** The characters each of the parser's tables leaves out. */
  lemma Tables(c: Byte)
    ensures In(Space, c) <==> c in {0x09, 0x0A, 0x0D, 0x20}
    ensures In(NodeName, c) <==> c !in {0x00, 0x09, 0x0A, 0x0D, 0x20, 0x2F, 0x3E, 0x3F}
    ensures In(AttributeName, c) <==> c !in {0x00, 0x09, 0x0A, 0x0D, 0x20, 0x21, 0x2F, 0x3C, 0x3D, 0x3E, 0x3F}
    ensures In(TextChars, c) <==> c !in {0x00, 0x3C}
    ensures In(ValueChars(0x27), c) <==> c !in {0x00, 0x27}
    ensures In(ValueChars(0x22), c) <==> c !in {0x00, 0x22}
  {
  }
}
