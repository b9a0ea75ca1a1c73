/**
  JSON Pointers (RFC 6901): parsing and writing, in plain form and as URI fragments.
 */
module Pointer {
  import opened Json
  import opened Numbers
  import opened Utf

  const INVALID_INDEX := 0xFFFF_FFFF
  const SIZE_RANGE := 0x1_0000_0000

  const SLASH: Byte := 0x2F
  const TILDE: Byte := 0x7E
  const PERCENT: Byte := 0x25
  const HASH: Byte := 0x23

  datatype PointerError =
    | TokenMustBeginWithSolidus
    | InvalidEscape
    | InvalidPercentEncoding
    | CharacterMustPercentEncode

  datatype Token = Token(name: Bytes, index: nat)

  // ---------------------------------------------------------------- array indices

  /** RFC 6901 array-index: digits without a leading zero. */
  predicate LooksLikeIndex(name: Bytes) {
    name != [] && AllDigits(name) && (|name| > 1 ==> name[0] != 0x30)
  }

  /** The conversion loop: 32-bit sums, given up when a sum is smaller than the one before it. */
  function Accumulated(n: nat, digits: Bytes): nat
    requires AllDigits(digits)
    decreases digits
  {
    if digits == [] then n
    else
      var m := (n * 10 + (digits[0] - 0x30)) % SIZE_RANGE;
      if m < n then INVALID_INDEX else Accumulated(m, digits[1..])
  }

  function IndexOf(name: Bytes): nat {
    if LooksLikeIndex(name) then Accumulated(0, name) else INVALID_INDEX
  }

  /** The value of the first `k` digits, modulo 2^32. */
  function Wrapped(name: Bytes, k: nat): (w: nat)
    requires AllDigits(name) && k <= |name|
    ensures w < SIZE_RANGE
  {
    DecValue(name[..k]) % SIZE_RANGE
  }

  /** The loop notices an overflow exactly when some prefix wraps to less than the prefix before it. */
  predicate Dips(name: Bytes)
    requires AllDigits(name)
  {
    exists k :: 0 < k <= |name| && Wrapped(name, k) < Wrapped(name, k - 1)
  }

  lemma Remainder(x: nat, q: nat, r: nat)
    requires x == q * SIZE_RANGE + r && r < SIZE_RANGE
    ensures x % SIZE_RANGE == r
  {
  }

  lemma WrapStep(v: nat, d: nat)
    ensures (v % SIZE_RANGE * 10 + d) % SIZE_RANGE == (v * 10 + d) % SIZE_RANGE
  {
    var sum := v % SIZE_RANGE * 10 + d;
    Remainder(v * 10 + d, v / SIZE_RANGE * 10 + sum / SIZE_RANGE, sum % SIZE_RANGE);
  }

  lemma {:induction false} AccumulatedFrom(name: Bytes, k: nat)
    requires AllDigits(name) && k <= |name|
    ensures Accumulated(Wrapped(name, k), name[k..])
         == if exists j :: k < j <= |name| && Wrapped(name, j) < Wrapped(name, j - 1) then INVALID_INDEX
            else Wrapped(name, |name|)
    decreases |name| - k
  {
    if k < |name| {
      DecValueStep(name, k);
      WrapStep(DecValue(name[..k]), name[k] - 0x30);
      assert name[k..][0] == name[k] && name[k..][1..] == name[k + 1..];
      AccumulatedFrom(name, k + 1);
      if Wrapped(name, k + 1) >= Wrapped(name, k) {
        assert forall j :: k < j <= |name| && Wrapped(name, j) < Wrapped(name, j - 1) ==> k + 1 < j;
      }
    }
  }

  /** What the conversion computes: the value modulo 2^32, unless some prefix shrank. */
  lemma IndexIsWrapped(name: Bytes)
    requires LooksLikeIndex(name)
    ensures IndexOf(name) == if Dips(name) then INVALID_INDEX else Wrapped(name, |name|)
  {
    AccumulatedFrom(name, 0);
    assert name[..0] == [] && name[0..] == name;
    NoValue();
  }

  /** A value that fits is the index. */
  lemma FittingIndex(name: Bytes)
    requires LooksLikeIndex(name) && DecValue(name) < SIZE_RANGE
    ensures IndexOf(name) == DecValue(name)
  {
    hide DecValue, Accumulated;
    IndexIsWrapped(name);
    assert name[..|name|] == name;
    forall k | 0 < k <= |name| ensures Wrapped(name, k - 1) <= Wrapped(name, k) {
      DecValuePrefix(name, k);
      DecValueStep(name, k - 1);
    }
  }

  /**
    The documentation says a value beyond the index range leaves the token without an index. That holds for a
    token exactly when its value fits, or some prefix shrank, or the value happens to wrap to the invalid index.
   */
  lemma OversizeIndex(name: Bytes)
    requires LooksLikeIndex(name) && DecValue(name) >= SIZE_RANGE
    ensures IndexOf(name) == INVALID_INDEX <==> Dips(name) || DecValue(name) % SIZE_RANGE == INVALID_INDEX
  {
    IndexIsWrapped(name);
    assert name[..|name|] == name;
  }

  function FiveBillion(): Bytes {
    [0x35, 0x30, 0x30, 0x30, 0x30, 0x30, 0x30, 0x30, 0x30, 0x30]
  }

  lemma FiveBillionValue()
    ensures AllDigits(FiveBillion()) && DecValue(FiveBillion()) == 5000000000 && DecValue(FiveBillion()[..9]) == 500000000
  {
    hide DecValue;
    var name := FiveBillion();
    ValueSoFar(name, 0, 0);
    ValueSoFar(name, 1, 5);
    ValueSoFar(name, 2, 50);
    ValueSoFar(name, 3, 500);
    ValueSoFar(name, 4, 5000);
    ValueSoFar(name, 5, 50000);
    ValueSoFar(name, 6, 500000);
    ValueSoFar(name, 7, 5000000);
    ValueSoFar(name, 8, 50000000);
    ValueSoFar(name, 9, 500000000);
    assert name[..10] == name;
  }

  /** 5000000000 does not fit, yet is taken for the index 705032704. */
  lemma OversizeExample()
    ensures LooksLikeIndex(FiveBillion()) && DecValue(FiveBillion()) == 5000000000
    ensures IndexOf(FiveBillion()) == 705032704
  {
    hide DecValue, Accumulated;
    FiveBillionValue();
    var name := FiveBillion();
    IndexIsWrapped(name);
    assert name[..10] == name;
    forall k | 0 < k <= 10 ensures Wrapped(name, k - 1) <= Wrapped(name, k) {
      if k < 10 {
        assert name[..9][..k] == name[..k] && name[..k][..k - 1] == name[..k - 1];
        DecValuePrefix(name[..9], k);
        DecValuePrefix(name[..k], k - 1);
      }
    }
  }

  lemma ValueSoFar(name: Bytes, k: nat, v: nat)
    requires AllDigits(name) && k < |name| && (if k == 0 then v == 0 else DecValue(name[..k]) == v)
    ensures DecValue(name[..k]) == v
    ensures DecValue(name[..k + 1]) == v * 10 + (name[k] - 0x30)
  {
    if k == 0 {
      assert name[..0] == [];
      NoValue();
    }
    DecValueStep(name, k);
  }

  // ---------------------------------------------------------------- parsing

  /** Unreserved characters of section 2.3 of RFC 3986 need no percent-encoding. */
  predicate NeedPercentEncode(c: Byte) {
    !(0x30 <= c <= 0x39 || 0x41 <= c <= 0x5A || 0x61 <= c <= 0x7A || c == 0x2D || c == 0x2E || c == 0x5F || c == TILDE)
  }

  /** A %XY triplet at the head of the text. */
  predicate IsTriplet(s: Bytes) {
    |s| >= 3 && s[0] == PERCENT && IsHex(s[1]) && IsHex(s[2])
  }

  /** The bytes of up to `count` triplets (`PercentDecodeStream`). */
  function Triplets(s: Bytes, count: nat): (t: Bytes)
    ensures |t| <= count && 3 * |t| <= |s|
  {
    if count == 0 || !IsTriplet(s) then []
    else [HexValue(s[1]) * 16 + HexValue(s[2])] + Triplets(s[3..], count - 1)
  }

  /** A part of a name, with what is left of the text; or an error, with what was left where it is reported. */
  datatype Part = Part(bytes: Bytes, rest: Bytes) | PartError(code: PointerError, left: nat)

  /** "~0" and "~1"; `c` is the character already taken. */
  function Unescaped(c: Byte, s: Bytes): Part {
    if c != TILDE then Part([c], s)
    else if s == [] then PartError(InvalidEscape, 0)
    else if s[0] == 0x30 then Part([TILDE], s[1..])
    else if s[0] == 0x31 then Part([SLASH], s[1..])
    else PartError(InvalidEscape, |s|)
  }

  /** A percent-encoded character, which must be well-formed UTF-8. */
  function PercentAt(s: Bytes): (p: Part)
    ensures p.Part? ==> |p.rest| < |s| && 1 <= |p.bytes| <= |s| - |p.rest|
  {
    var t := Triplets(s, 4);
    var v := Validate(t);
    if v.taken > |t| || !v.ok then PartError(InvalidPercentEncoding, |s|)
    else if v.taken == 1 then Unescaped(t[0], s[3..])
    else Part(t[..v.taken], s[3 * v.taken..])
  }

  /** One turn of the inner loop of `Parse`. */
  function PartAt(fragment: bool, s: Bytes): (p: Part)
    requires s != [] && s[0] != SLASH
    ensures p.Part? ==> |p.rest| < |s| && 1 <= |p.bytes| <= |s| - |p.rest|
  {
    if fragment && s[0] == PERCENT then PercentAt(s)
    else if fragment && NeedPercentEncode(s[0]) then PartError(CharacterMustPercentEncode, |s|)
    else Unescaped(s[0], s[1..])
  }

  /** A name up to the next '/' or the end. */
  function NameAt(fragment: bool, s: Bytes): (p: Part)
    ensures p.Part? ==> |p.bytes| <= |s| - |p.rest| && |p.rest| <= |s|
    ensures p.Part? ==> p.rest == [] || p.rest[0] == SLASH
    decreases |s|
  {
    if s == [] || s[0] == SLASH then Part([], s)
    else
      var first := PartAt(fragment, s);
      if first.PartError? then first
      else
        var more := NameAt(fragment, first.rest);
        if more.PartError? then more else Part(first.bytes + more.bytes, more.rest)
  }

  datatype Parsed = Names(names: seq<Bytes>) | ParseError(code: PointerError, left: nat)

  function NamesAt(fragment: bool, s: Bytes): (r: Parsed)
    requires s == [] || s[0] == SLASH
    decreases |s|
  {
    if s == [] then Names([])
    else
      var name := NameAt(fragment, s[1..]);
      if name.PartError? then ParseError(name.code, name.left)
      else
        var more := NamesAt(fragment, name.rest);
        if more.ParseError? then more else Names([name.bytes] + more.names)
  }

  predicate IsFragment(source: Bytes) {
    source != [] && source[0] == HASH
  }

  /** `Parse`, up to the indices. */
  function ParseNames(source: Bytes): Parsed {
    var body := if IsFragment(source) then source[1..] else source;
    if body != [] && body[0] != SLASH then ParseError(TokenMustBeginWithSolidus, |body|)
    else NamesAt(IsFragment(source), body)
  }

  // ---------------------------------------------------------------- writing

  /** `PercentEncodeStream`. */
  function PercentEncoded(bytes: Bytes): Bytes {
    if bytes == [] then []
    else [PERCENT, HexDigit(bytes[0] / 16), HexDigit(bytes[0] % 16)] + PercentEncoded(bytes[1..])
  }

  function EscapedChar(c: Byte): Bytes {
    if c == TILDE then [TILDE, 0x30] else if c == SLASH then [TILDE, 0x31] else [c]
  }

  predicate WrittenPlain(fragment: bool, c: Byte) {
    c == TILDE || c == SLASH || !(fragment && NeedPercentEncode(c))
  }

  /** A name; a fragment cannot spell a name that is not UTF-8. */
  function NameText(fragment: bool, name: Bytes): Transcoded<Byte>
    decreases |name|
  {
    if name == [] then Text([])
    else if WrittenPlain(fragment, name[0]) then Cons(EscapedChar(name[0]), NameText(fragment, name[1..]))
    else
      var v := Validate(name);
      if !v.ok then Malformed
      else
        ValidateIsDecode(name);
        DecodeIsGrammar(name);
        Cons(PercentEncoded(v.put), NameText(fragment, name[v.taken..]))
  }

  function NamesText(fragment: bool, names: seq<Bytes>): Transcoded<Byte> {
    if names == [] then Text([])
    else Cons([SLASH], Append(NameText(fragment, names[0]), NamesText(fragment, names[1..])))
  }

  function Append(a: Transcoded<Byte>, b: Transcoded<Byte>): Transcoded<Byte> {
    match a
    case Malformed => Malformed
    case Text(units) => Cons(units, b)
  }

  /** `Stringify`. */
  function Stringify(fragment: bool, names: seq<Bytes>): Transcoded<Byte> {
    if fragment then Cons([HASH], NamesText(true, names)) else NamesText(false, names)
  }

  // ---------------------------------------------------------------- round trips

  /** Where a name can stop. */
  predicate AtNameEnd(tail: Bytes) {
    tail == [] || tail[0] == SLASH
  }

  lemma ReadUnescaped(fragment: bool, c: Byte, rest: Bytes)
    requires WrittenPlain(fragment, c)
    ensures var text := EscapedChar(c) + rest;
            text != [] && text[0] != SLASH && PartAt(fragment, text) == Part([c], rest)
  {
    var text := EscapedChar(c) + rest;
    assert text[1..] == (if c == TILDE then [0x30] else if c == SLASH then [0x31] else []) + rest;
    if c == TILDE || c == SLASH {
      assert text[1..][1..] == rest;
    }
  }

  lemma ReadHexPair(b: Byte)
    ensures IsHex(HexDigit(b / 16)) && IsHex(HexDigit(b % 16))
    ensures HexValue(HexDigit(b / 16)) * 16 + HexValue(HexDigit(b % 16)) == b
  {
  }

  lemma ReadTriplet(b: Byte, rest: Bytes, count: nat)
    ensures Triplets([PERCENT, HexDigit(b / 16), HexDigit(b % 16)] + rest, count + 1) == [b] + Triplets(rest, count)
  {
    hide HexDigit, IsHex, HexValue;
    ReadHexPair(b);
    assert ([PERCENT, HexDigit(b / 16), HexDigit(b % 16)] + rest)[3..] == rest;
  }

  lemma {:induction false} ReadTriplets(bytes: Bytes, rest: Bytes, count: nat)
    requires |bytes| <= count
    ensures Triplets(PercentEncoded(bytes) + rest, count) == bytes + Triplets(rest, count - |bytes|)
    decreases bytes
  {
    hide HexDigit, Triplets;
    var text := PercentEncoded(bytes) + rest;
    if bytes == [] {
      assert text == rest && bytes + Triplets(rest, count) == Triplets(rest, count);
    } else {
      var b := bytes[0];
      var after := PercentEncoded(bytes[1..]) + rest;
      assert text == [PERCENT, HexDigit(b / 16), HexDigit(b % 16)] + after;
      ReadTriplet(b, after, count - 1);
      ReadTriplets(bytes[1..], rest, count - 1);
      assert bytes == [b] + bytes[1..];
    }
  }

  lemma {:induction false} PercentEncodedLength(bytes: Bytes)
    ensures |PercentEncoded(bytes)| == 3 * |bytes|
    decreases bytes
  {
    if bytes != [] {
      PercentEncodedLength(bytes[1..]);
    }
  }

  lemma ReadPercent(bytes: Bytes, rest: Bytes)
    requires Utf8Char(bytes) && bytes[0] != TILDE
    ensures PercentAt(PercentEncoded(bytes) + rest) == Part(bytes, rest)
  {
    hide Utf8Char, Validate, Decode;
    var text := PercentEncoded(bytes) + rest;
    CharLength(bytes);
    ReadTriplets(bytes, rest, 4);
    PercentEncodedLength(bytes);
    var t := Triplets(text, 4);
    assert t[..|bytes|] == bytes;
    DecodeIsGrammar(t);
    ValidateIsDecode(t);
    assert text[3 * |bytes|..] == rest;
  }

  lemma CharLength(bytes: Bytes)
    requires Utf8Char(bytes)
    ensures 1 <= |bytes| <= 4
  {
  }

  /** A name that a fragment can spell. */
  predicate Spellable(fragment: bool, name: Bytes) {
    fragment ==> WellFormed(name)
  }

  lemma ReadPart(fragment: bool, text: Bytes, first: Bytes, after: Bytes, more: Bytes, tail: Bytes)
    requires text != [] && text[0] != SLASH
    requires PartAt(fragment, text) == Part(first, after) && NameAt(fragment, after) == Part(more, tail)
    ensures NameAt(fragment, text) == Part(first + more, tail)
  {
    hide PartAt;
  }

  /** Well-formedness can be peeled off the front. */
  lemma PeelAscii(name: Bytes)
    requires WellFormed(name) && name != [] && name[0] < 0x80
    ensures WellFormed(name[1..])
  {
    hide Utf8Char, Decode;
    To16IsGrammar(name);
    assert Utf8Char(name[..1]) by { OneByte(name); }
    DecodeFirst(name, 1);
    To16IsGrammar(name[1..]);
  }

  lemma OneByte(name: Bytes)
    requires name != [] && name[0] < 0x80
    ensures Utf8Char(name[..1])
  {
  }

  /** The character a fragment percent-encodes next. */
  lemma NextChar(name: Bytes)
    requires name != []
    ensures var v := Validate(name);
            v.ok ==> 1 <= v.taken <= |name| && v.put == name[..v.taken] && Utf8Char(v.put)
                     && (WellFormed(name) <==> WellFormed(name[v.taken..]))
    ensures WellFormed(name) ==> Validate(name).ok
  {
    hide Utf8Char, Validate, Decode;
    ValidateIsDecode(name);
    DecodeIsGrammar(name);
    To16IsGrammar(name);
    if Decode(name).ok {
      EncodeDecoded(name);
      To16IsGrammar(name[Decode(name).taken..]);
    }
  }

  /** A name written in either form is read back, whatever token follows. */
  lemma {:induction false} NameRoundTrip(fragment: bool, name: Bytes, tail: Bytes)
    requires AtNameEnd(tail) && Spellable(fragment, name)
    ensures NameText(fragment, name).Text?
    ensures NameAt(fragment, NameText(fragment, name).units + tail) == Part(name, tail)
    decreases |name|
  {
    hide WellFormed, Validate, Utf8Char, PartAt, PercentEncoded, WrittenPlain, PercentAt, EscapedChar, NameAt;
    if name == [] {
      assert NameText(fragment, name).units + tail == tail;
      NoMoreName(fragment, tail);
    } else {
      var c := name[0];
      var plain := WrittenPlain(fragment, c);
      NextChar(name);
      PlainIsAscii(c);
      if fragment && plain {
        PeelAscii(name);
      }
      var n := if plain then 1 else Validate(name).taken;
      var head := if plain then EscapedChar(c) else PercentEncoded(name[..n]);
      NameRoundTrip(fragment, name[n..], tail);
      var after := NameText(fragment, name[n..]).units + tail;
      assert NameText(fragment, name).units + tail == head + after;
      if plain {
        ReadUnescaped(fragment, c, after);
        assert name[..1] == [c];
      } else {
        ReadPercent(name[..n], after);
        PercentPart(name[..n], after);
      }
      ReadPart(fragment, head + after, name[..n], after, name[n..], tail);
      assert name[..n] + name[n..] == name;
    }
  }

  lemma PlainIsAscii(c: Byte)
    ensures WrittenPlain(true, c) ==> c < 0x80
    ensures !WrittenPlain(true, c) ==> c != TILDE
    ensures WrittenPlain(false, c)
  {
  }

  lemma NoMoreName(fragment: bool, tail: Bytes)
    requires AtNameEnd(tail)
    ensures NameAt(fragment, tail) == Part([], tail)
  {
  }

  lemma PercentPart(bytes: Bytes, rest: Bytes)
    requires bytes != []
    ensures var text := PercentEncoded(bytes) + rest;
            text != [] && text[0] != SLASH && PartAt(true, text) == PercentAt(text)
  {
    hide PercentAt;
  }

  lemma {:induction false} NamesRoundTrip(fragment: bool, names: seq<Bytes>)
    requires forall i :: 0 <= i < |names| ==> Spellable(fragment, names[i])
    ensures NamesText(fragment, names).Text? && AtNameEnd(NamesText(fragment, names).units)
    ensures NamesAt(fragment, NamesText(fragment, names).units) == Names(names)
    decreases names
  {
    hide NameText, NameAt, Spellable;
    if names != [] {
      NamesRoundTrip(fragment, names[1..]);
      var more := NamesText(fragment, names[1..]).units;
      NameRoundTrip(fragment, names[0], more);
      var text := NamesText(fragment, names).units;
      assert text[1..] == NameText(fragment, names[0]).units + more;
    }
  }

  /**
    Parsing what `Stringify` writes gives the pointer back: in plain form for any names, as a URI fragment
    whenever the names are UTF-8.
   */
  lemma PointerRoundTrip(fragment: bool, names: seq<Bytes>)
    requires forall i :: 0 <= i < |names| ==> Spellable(fragment, names[i])
    ensures Stringify(fragment, names).Text?
    ensures ParseNames(Stringify(fragment, names).units) == Names(names)
  {
    hide NamesText, NamesAt, Spellable;
    NamesRoundTrip(fragment, names);
    var body := NamesText(fragment, names).units;
    if fragment {
      assert Stringify(fragment, names).units[1..] == body;
    }
  }

  lemma {:induction false} NameFails(name: Bytes)
    requires NameText(true, name).Text?
    ensures WellFormed(name)
    decreases |name|
  {
    hide WellFormed, Validate, Utf8Char, PercentEncoded, WrittenPlain;
    if name == [] {
      EmptyIsWellFormed();
    } else {
      var c := name[0];
      NextChar(name);
      PlainIsAscii(c);
      if WrittenPlain(true, c) {
        NameFails(name[1..]);
        PutAscii(name);
      } else {
        NameFails(name[Validate(name).taken..]);
      }
    }
  }

  lemma EmptyIsWellFormed()
    ensures WellFormed([])
  {
  }

  lemma PutAscii(name: Bytes)
    requires name != [] && name[0] < 0x80 && WellFormed(name[1..])
    ensures WellFormed(name)
  {
    hide Utf8Char;
    OneByte(name);
  }

  /** The fragment form exists exactly for names that are UTF-8. */
  lemma {:induction false} FragmentExists(names: seq<Bytes>)
    ensures Stringify(true, names).Text? <==> forall i :: 0 <= i < |names| ==> WellFormed(names[i])
    decreases names
  {
    hide WellFormed, NameText;
    if names != [] {
      FragmentExists(names[1..]);
      if NameText(true, names[0]).Text? {
        NameFails(names[0]);
      }
      if WellFormed(names[0]) {
        NameRoundTrip(true, names[0], []);
      }
      assert forall i :: 1 <= i < |names| ==> names[i] == names[1..][i - 1];
    }
  }

  lemma UnescapedBack(s: Bytes)
    requires s != [] && s[0] != SLASH && Unescaped(s[0], s[1..]).Part?
    ensures var p := Unescaped(s[0], s[1..]);
            p == PartAt(false, s) && |p.bytes| == 1 && |p.rest| < |s| && s == EscapedChar(p.bytes[0]) + p.rest
  {
    assert s == [s[0]] + s[1..];
    if s[0] == TILDE {
      assert s[1..] == [s[1]] + s[2..];
      assert s[1..][1..] == s[2..];
    }
  }

  lemma UnescapedPart(s: Bytes)
    requires s != [] && s[0] != SLASH && NameAt(false, s).Part?
    ensures var first := Unescaped(s[0], s[1..]);
            && first.Part? && NameAt(false, first.rest).Part?
            && NameAt(false, s) == Part(first.bytes + NameAt(false, first.rest).bytes, NameAt(false, first.rest).rest)
  {
  }

  lemma PlainStep(c: Byte, name: Bytes)
    ensures NameText(false, [c] + name) == Cons(EscapedChar(c), NameText(false, name))
  {
    hide EscapedChar, Validate;
    assert ([c] + name)[1..] == name;
  }

  lemma EmptyName()
    ensures NameText(false, []) == Text([])
  {
  }

  /** An accepted plain name is the text of what it denotes. */
  lemma {:induction false} NameBack(s: Bytes)
    requires NameAt(false, s).Part?
    ensures NameText(false, NameAt(false, s).bytes).Text?
    ensures s == NameText(false, NameAt(false, s).bytes).units + NameAt(false, s).rest
    decreases |s|
  {
    hide EscapedChar, WrittenPlain, PartAt, Unescaped, Validate, NameAt, NameText;
    if s == [] || s[0] == SLASH {
      NoMoreName(false, s);
      EmptyName();
    } else {
      UnescapedPart(s);
      UnescapedBack(s);
      var first := Unescaped(s[0], s[1..]);
      NameBack(first.rest);
      var more := NameAt(false, first.rest).bytes;
      PlainStep(first.bytes[0], more);
      assert first.bytes == [first.bytes[0]];
      assert EscapedChar(first.bytes[0]) + (NameText(false, more).units + NameAt(false, first.rest).rest)
          == EscapedChar(first.bytes[0]) + NameText(false, more).units + NameAt(false, first.rest).rest;
    }
  }

  lemma {:induction false} NamesBack(s: Bytes)
    requires AtNameEnd(s) && NamesAt(false, s).Names?
    ensures NamesText(false, NamesAt(false, s).names) == Text(s)
    decreases |s|
  {
    hide NameText, NameAt;
    if s != [] {
      var name := NameAt(false, s[1..]);
      NameBack(s[1..]);
      NameRest(s[1..]);
      NamesBack(name.rest);
      assert NamesAt(false, s).names[1..] == NamesAt(false, name.rest).names;
      assert s == [SLASH] + s[1..];
    }
  }

  lemma NameRest(s: Bytes)
    requires NameAt(false, s).Part?
    ensures AtNameEnd(NameAt(false, s).rest) && |NameAt(false, s).rest| <= |s|
  {
  }

  /** The converse: an accepted plain text is the text of its own names, so pointers and plain texts match one to one. */
  lemma PlainTextIsCanonical(source: Bytes)
    requires !IsFragment(source) && ParseNames(source).Names?
    ensures Stringify(false, ParseNames(source).names) == Text(source)
  {
    NamesBack(source);
  }
}
