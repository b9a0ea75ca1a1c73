/**
  The `Writer` with an ASCII target: characters outside ASCII leave as \uXXXX escapes, in pairs where needed.
 */
module AsciiWriter {
  import opened Json
  import opened ReaderSpec
  import opened Writer
  import opened RoundTrip
  import opened Utf

  function HexFour(u: Unit16): (h: Bytes)
    ensures |h| == 4
  {
    [HexDigit(u / 4096), HexDigit(u / 256 % 16), HexDigit(u / 16 % 16), HexDigit(u % 16)]
  }

  /** The escape of one character: one \uXXXX, or two naming its surrogates. */
  function CharEscape(c: nat): Bytes
    requires IsScalar(c)
  {
    var us := Utf16(c);
    [0x5C, 0x75] + HexFour(us[0]) + if |us| == 1 then [] else [0x5C, 0x75] + HexFour(us[1])
  }

  /** The text between the quotes; writing stops with a failure at malformed UTF-8. */
  function AsciiText(s: Bytes): Transcoded<Byte>
    decreases |s|
  {
    if s == [] then Text([])
    else if s[0] < 0x80 then Cons(EscapedByte(s[0]), AsciiText(s[1..]))
    else if !Decode(s).ok then Malformed
    else
      EncodeDecoded(s);
      Cons(CharEscape(Decode(s).codepoint), AsciiText(s[Decode(s).taken..]))
  }

  lemma ReadHexFour(u: Unit16, rest: Bytes)
    ensures HasHex4(HexFour(u) + rest) && Hex4(HexFour(u) + rest) == u
    ensures (HexFour(u) + rest)[4..] == rest
  {
    hide HexDigit, HexValue, IsHex;
    var t := HexFour(u) + rest;
    assert forall i :: 0 <= i < 4 ==> t[i] == HexFour(u)[i];
    DigitMeans(u / 4096);
    DigitMeans(u / 256 % 16);
    DigitMeans(u / 16 % 16);
    DigitMeans(u % 16);
    HexSum(u);
  }

  lemma HexSum(u: nat)
    ensures ((u / 4096 * 16 + u / 256 % 16) * 16 + u / 16 % 16) * 16 + u % 16 == u
  {
    assert u / 16 == u / 256 * 16 + u / 16 % 16;
    assert u / 256 == u / 4096 * 16 + u / 256 % 16;
  }

  lemma DigitMeans(d: nat)
    requires d < 16
    ensures IsHex(HexDigit(d)) && HexValue(HexDigit(d)) == d
  {
  }

  lemma ReadOne(u: Unit16, rest: Bytes)
    requires !IsLead(u)
    ensures UnitAt([0x5C, 0x75] + HexFour(u) + rest) == Chunk(Utf8(u), rest)
  {
    hide HexFour, Utf8, Hex4, HasHex4, PairAt;
    var text := [0x5C, 0x75] + HexFour(u) + rest;
    ReadHexFour(u, rest);
    assert text[2..] == HexFour(u) + rest;
    assert text[6..] == rest;
  }

  lemma ReadTrail(lead: nat, u: Unit16, rest: Bytes, left: nat)
    requires IsLead(lead) && IsTrail(u)
    ensures PairAt(lead, [0x5C, 0x75] + HexFour(u) + rest, left)
         == Chunk(Utf8((lead - 0xD800) * 1024 + (u as int - 0xDC00) + 0x10000), rest)
  {
    hide HexFour, Utf8, Hex4, HasHex4;
    var text := [0x5C, 0x75] + HexFour(u) + rest;
    ReadHexFour(u, rest);
    assert text[2..] == HexFour(u) + rest;
    assert text[6..] == rest;
  }

  lemma ReadTwo(lead: Unit16, trail: Unit16, rest: Bytes)
    requires IsLead(lead) && IsTrail(trail)
    ensures UnitAt([0x5C, 0x75] + HexFour(lead) + ([0x5C, 0x75] + HexFour(trail) + rest))
         == Chunk(Utf8((lead as int - 0xD800) * 1024 + (trail as int - 0xDC00) + 0x10000), rest)
  {
    hide HexFour, Utf8, Hex4, HasHex4, PairAt;
    var tail := [0x5C, 0x75] + HexFour(trail) + rest;
    var text := [0x5C, 0x75] + HexFour(lead) + tail;
    ReadHexFour(lead, tail);
    assert text[2..] == HexFour(lead) + tail;
    assert text[6..] == tail;
    ReadTrail(lead, trail, rest, |text|);
  }

  /** The reader undoes the escape of any character. */
  lemma ReadCharEscape(c: nat, rest: Bytes)
    requires IsScalar(c)
    ensures UnitAt(CharEscape(c) + rest) == Chunk(Utf8(c), rest)
  {
    hide HexFour, Utf8, UnitAt, PairAt;
    var us := Utf16(c);
    if |us| == 1 {
      ReadOne(c, rest);
      assert CharEscape(c) + rest == [0x5C, 0x75] + HexFour(c) + rest;
    } else {
      var lead, trail := us[0], us[1];
      ReadTwo(lead, trail, rest);
      assert CharEscape(c) + rest == [0x5C, 0x75] + HexFour(lead) + ([0x5C, 0x75] + HexFour(trail) + rest);
      assert (lead as int - 0xD800) * 1024 + (trail as int - 0xDC00) + 0x10000 == c;
    }
  }

  /** Writing succeeds exactly on well-formed UTF-8. */
  lemma {:induction false} AsciiIsGrammar(s: Bytes)
    ensures AsciiText(s).Text? <==> WellFormed(s)
    decreases |s|
  {
    hide CharEscape, EscapedByte, Utf8Char;
    To16IsGrammar(s);
    if s != [] {
      DecodeIsGrammar(s);
      if Decode(s).ok {
        EncodeDecoded(s);
        To16IsGrammar(s[Decode(s).taken..]);
        AsciiIsGrammar(s[Decode(s).taken..]);
      }
    }
  }

  predicate Ascii(s: Bytes) {
    forall i :: 0 <= i < |s| ==> 0x20 <= s[i] < 0x80
  }

  lemma EscapesAreAscii(c: Byte, u: nat)
    ensures c < 0x80 ==> Ascii(EscapedByte(c))
    ensures IsScalar(u) ==> Ascii(CharEscape(u))
  {
  }

  /** The output is printable ASCII, whatever the input. */
  lemma {:induction false} AsciiIsAscii(s: Bytes)
    requires AsciiText(s).Text?
    ensures Ascii(AsciiText(s).units)
    decreases |s|
  {
    hide Decode, CharEscape, EscapedByte;
    if s != [] {
      if s[0] < 0x80 {
        EscapesAreAscii(s[0], 0);
        AsciiIsAscii(s[1..]);
      } else {
        EncodeDecoded(s);
        EscapesAreAscii(s[0], Decode(s).codepoint);
        AsciiIsAscii(s[Decode(s).taken..]);
      }
    }
  }

  lemma ReadThen(head: Bytes, bytes: Bytes, after: Bytes, content: Bytes, tail: Bytes)
    requires UnitAt(head + after) == Chunk(bytes, after) && StringAt(after) == StringText(content, tail)
    ensures StringAt(head + after) == StringText(bytes + content, tail)
  {
    hide UnitAt;
  }

  /** Reading an ASCII-escaped string gives back its bytes, whatever follows the closing quote. */
  lemma {:induction false} AsciiRoundTrip(s: Bytes, tail: Bytes)
    requires WellFormed(s)
    ensures AsciiText(s).Text?
    ensures StringAt(AsciiText(s).units + [0x22] + tail) == StringText(s, tail)
    decreases |s|
  {
    hide CharEscape, EscapedByte, UnitAt, Utf8Char, Utf8, StringAt, Decode, WellFormed;
    AsciiIsGrammar(s);
    if s == [] {
      ReadClose(tail);
      assert AsciiText(s).units + [0x22] + tail == [0x22] + tail;
    } else {
      if s[0] >= 0x80 {
        EncodeDecoded(s);
      }
      var n := if s[0] < 0x80 then 1 else Decode(s).taken;
      var head := if s[0] < 0x80 then EscapedByte(s[0]) else CharEscape(Decode(s).codepoint);
      var rest := s[n..];
      AsciiIsGrammar(rest);
      AsciiRoundTrip(rest, tail);
      var after := AsciiText(rest).units + [0x22] + tail;
      assert AsciiText(s).units + [0x22] + tail == head + after;
      if s[0] < 0x80 {
        ReadEscapedByte(s[0], after);
      } else {
        ReadCharEscape(Decode(s).codepoint, after);
      }
      assert s == s[..n] + rest;
      ReadThen(head, s[..n], after, rest, tail);
    }
  }

  lemma ReadClose(tail: Bytes)
    ensures StringAt([0x22] + tail) == StringText([], tail)
  {
    assert ([0x22] + tail)[1..] == tail;
  }

  lemma AsciiStep(s: Bytes)
    requires s != []
    ensures s[0] < 0x80 ==> AsciiText(s) == Cons(EscapedByte(s[0]), AsciiText(s[1..]))
    ensures s[0] >= 0x80 && !Decode(s).ok ==> AsciiText(s) == Malformed
    ensures s[0] >= 0x80 && Decode(s).ok ==>
              IsScalar(Decode(s).codepoint) && Decode(s).taken <= |s|
              && AsciiText(s) == Cons(CharEscape(Decode(s).codepoint), AsciiText(s[Decode(s).taken..]))
  {
    hide CharEscape, EscapedByte, Decode;
    if Decode(s).ok {
      EncodeDecoded(s);
    }
  }

  lemma Regrouped(a: Bytes, b: Bytes, c: Bytes)
    ensures a + (b + c) == a + b + c
  {
  }

  lemma NothingLeft()
    ensures AsciiText([]) == Text([])
  {
  }

  /** `WriteString` for an ASCII target. */
  method WriteString(s: Bytes) returns (out: Bytes, ok: bool)
    ensures ok <==> WellFormed(s)
    ensures ok ==> AsciiText(s).Text? && out == [0x22] + AsciiText(s).units + [0x22]
  {
    hide CharEscape, EscapedByte, Decode, AsciiText, WellFormed;
    AsciiIsGrammar(s);
    out := [0x22];
    assert s[0..] == s;
    var i := 0;
    while i < |s|
      invariant 0 <= i <= |s|
      invariant AsciiText(s).Text? <==> AsciiText(s[i..]).Text?
      invariant AsciiText(s).Text? ==> out + AsciiText(s[i..]).units == [0x22] + AsciiText(s).units
    {
      var rest := s[i..];
      var head: Bytes;
      var n := 1;
      AsciiStep(rest);
      if rest[0] >= 0x80 {
        var d := Decode(rest);
        if !d.ok {
          return out, false;
        }
        EncodeDecoded(rest);
        n := d.taken;
        head := CharEscape(d.codepoint);
      } else {
        head := EscapedByte(rest[0]);
      }
      assert rest[n..] == s[i + n..];
      if AsciiText(s).Text? {
        Regrouped(out, head, AsciiText(s[i + n..]).units);
      }
      out := out + head;
      i := i + n;
    }
    assert s[i..] == [];
    NothingLeft();
    out := out + [0x22];
    ok := true;
  }
}
