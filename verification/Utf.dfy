/**
  The UTF-8 and UTF-16 codecs: a range-table decoder, proved against the grammar of section 4 of RFC 3629.
 */
module Utf {
  import opened Json
  import opened ReaderSpec

  // ---------------------------------------------------------------- UTF-8 decoding

  /** What one call of `UTF8::Decode` leaves: its result, the code point and the number of bytes taken. */
  datatype Decoded = Decoded(ok: bool, codepoint: nat, taken: nat)

  /** A stream reads 0 past its last byte. */
  function At(s: Bytes, i: nat): Byte {
    if i < |s| then s[i] else 0
  }

  /** `GetRange`. The continuation classes are distinct bits so that a mask can test several at once. */
  function Range(c: Byte): bv8 {
    if c < 0x80 then 0
    else if c < 0x90 then 0x10
    else if c < 0xA0 then 0x40
    else if c < 0xC0 then 0x20
    else if c < 0xC2 then 8
    else if c < 0xE0 then 2
    else if c == 0xE0 then 10
    else if c == 0xED then 4
    else if c < 0xF0 then 3
    else if c == 0xF0 then 11
    else if c < 0xF4 then 6
    else if c == 0xF4 then 5
    else 8
  }

  /** TRANS(mask). */
  predicate InRange(c: Byte, mask: bv8) {
    Range(c) & mask != 0
  }

  /** The mask for the second byte and the number of bytes, by the class of the first byte. */
  function SecondMask(kind: bv8): bv8 {
    if kind == 4 then 0x50 else if kind == 5 then 0x10 else if kind == 10 then 0x20 else if kind == 11 then 0x60 else 0x70
  }

  function Length(kind: bv8): nat {
    if kind == 2 then 2
    else if kind == 3 || kind == 4 || kind == 10 then 3
    else if kind == 5 || kind == 6 || kind == 11 then 4
    else 1
  }

  /** The low bits of the first byte, (0xFF >> type) & c. */
  function LeadBits(kind: bv8, c: Byte): nat {
    if kind == 2 then c % 64
    else if kind == 3 then c % 32
    else if kind == 4 then c % 16
    else if kind == 5 then c % 8
    else if kind == 6 then c % 4
    else 0
  }

  /** `UTF8::Decode`. */
  function Decode(s: Bytes): Decoded {
    var c := At(s, 0);
    if c < 0x80 then Decoded(true, c, 1)
    else
      var kind := Range(c);
      var c1, c2, c3 := At(s, 1), At(s, 2), At(s, 3);
      var second := InRange(c1, SecondMask(kind));
      if Length(kind) == 1 then Decoded(false, 0, 1)
      else if Length(kind) == 2 then Decoded(second, LeadBits(kind, c) * 64 + c1 % 64, 2)
      else if Length(kind) == 3 then
        Decoded(second && InRange(c2, 0x70), (LeadBits(kind, c) * 64 + c1 % 64) * 64 + c2 % 64, 3)
      else
        Decoded(second && InRange(c2, 0x70) && InRange(c3, 0x70),
                ((LeadBits(kind, c) * 64 + c1 % 64) * 64 + c2 % 64) * 64 + c3 % 64, 4)
  }

  datatype Validated = Validated(ok: bool, put: Bytes, taken: nat)

  /** `UTF8::Validate`: the same walk, copying what it takes. */
  function Validate(s: Bytes): Validated {
    var c := At(s, 0);
    if c < 0x80 then Validated(true, [c], 1)
    else
      var kind := Range(c);
      var c1, c2, c3 := At(s, 1), At(s, 2), At(s, 3);
      var second := InRange(c1, SecondMask(kind));
      if Length(kind) == 1 then Validated(false, [c], 1)
      else if Length(kind) == 2 then Validated(second, [c, c1], 2)
      else if Length(kind) == 3 then Validated(second && InRange(c2, 0x70), [c, c1, c2], 3)
      else Validated(second && InRange(c2, 0x70) && InRange(c3, 0x70), [c, c1, c2, c3], 4)
  }

  // ---------------------------------------------------------------- the grammar

  predicate Tail(b: Byte) {
    0x80 <= b <= 0xBF
  }

  /** UTF8-char of section 4 of RFC 3629. */
  predicate Utf8Char(s: Bytes) {
    || (|s| == 1 && s[0] <= 0x7F)
    || (|s| == 2 && 0xC2 <= s[0] <= 0xDF && Tail(s[1]))
    || (|s| == 3 && Tail(s[2])
        && ((s[0] == 0xE0 && 0xA0 <= s[1] <= 0xBF)
            || (0xE1 <= s[0] <= 0xEC && Tail(s[1]))
            || (s[0] == 0xED && 0x80 <= s[1] <= 0x9F)
            || (0xEE <= s[0] <= 0xEF && Tail(s[1]))))
    || (|s| == 4 && Tail(s[2]) && Tail(s[3])
        && ((s[0] == 0xF0 && 0x90 <= s[1] <= 0xBF)
            || (0xF1 <= s[0] <= 0xF3 && Tail(s[1]))
            || (s[0] == 0xF4 && 0x80 <= s[1] <= 0x8F)))
  }

  /** Unicode scalar values. */
  predicate IsScalar(c: int) {
    0 <= c <= 0x10FFFF && !(0xD800 <= c <= 0xDFFF)
  }

  /** What each mask admits. */
  lemma MaskMeans(c: Byte)
    ensures InRange(c, 0x70) <==> Tail(c)
    ensures InRange(c, 0x50) <==> 0x80 <= c <= 0x9F
    ensures InRange(c, 0x10) <==> 0x80 <= c <= 0x8F
    ensures InRange(c, 0x20) <==> 0xA0 <= c <= 0xBF
    ensures InRange(c, 0x60) <==> 0x90 <= c <= 0xBF
  {
  }

  /** The decoder accepts exactly the characters of the grammar, and takes exactly their bytes. */
  lemma DecodeIsGrammar(s: Bytes)
    requires s != []
    ensures Decode(s).ok ==> Decode(s).taken <= |s| && Utf8Char(s[..Decode(s).taken])
    ensures forall n :: 1 <= n <= |s| && Utf8Char(s[..n]) ==> Decode(s).ok && Decode(s).taken == n
  {
    hide InRange;
    MaskMeans(At(s, 1));
    MaskMeans(At(s, 2));
    MaskMeans(At(s, 3));
  }

  lemma ValidateIsDecode(s: Bytes)
    requires s != []
    ensures Validate(s).ok == Decode(s).ok && Validate(s).taken == Decode(s).taken
    ensures Validate(s).ok ==> Validate(s).put == s[..Validate(s).taken]
  {
    hide InRange;
    MaskMeans(At(s, 1));
    MaskMeans(At(s, 2));
    MaskMeans(At(s, 3));
  }

  // ---------------------------------------------------------------- mutual inverses, one character

  /** How six-bit groups rebuild a number. */
  lemma SixBits(c: nat)
    ensures c == c / 64 * 64 + c % 64
    ensures c / 64 == c / 4096 * 64 + c / 64 % 64
    ensures c / 4096 == c / 262144 * 64 + c / 4096 % 64
  {
  }

  lemma DecodeTwo(s: Bytes, c: nat)
    requires 0x80 <= c <= 0x7FF && At(s, 0) == 0xC0 + c / 64 && At(s, 1) == 0x80 + c % 64
    ensures Decode(s) == Decoded(true, c, 2)
  {
    hide InRange;
    SixBits(c);
    MaskMeans(At(s, 1));
  }

  lemma DecodeThree(s: Bytes, c: nat)
    requires 0x800 <= c <= 0xFFFF && IsScalar(c)
    requires At(s, 0) == 0xE0 + c / 4096 && At(s, 1) == 0x80 + c / 64 % 64 && At(s, 2) == 0x80 + c % 64
    ensures Decode(s) == Decoded(true, c, 3)
  {
    hide InRange;
    SixBits(c);
    MaskMeans(At(s, 1));
    MaskMeans(At(s, 2));
    assert LeadBits(Range(At(s, 0)), At(s, 0)) == c / 4096;
    assert (c / 4096 * 64 + c / 64 % 64) * 64 + c % 64 == c;
  }

  lemma DecodeFour(s: Bytes, c: nat)
    requires 0x1_0000 <= c <= 0x10_FFFF
    requires At(s, 0) == 0xF0 + c / 262144 && At(s, 1) == 0x80 + c / 4096 % 64
    requires At(s, 2) == 0x80 + c / 64 % 64 && At(s, 3) == 0x80 + c % 64
    ensures Decode(s) == Decoded(true, c, 4)
  {
    hide InRange;
    SixBits(c);
    MaskMeans(At(s, 1));
    MaskMeans(At(s, 2));
    MaskMeans(At(s, 3));
    assert LeadBits(Range(At(s, 0)), At(s, 0)) == c / 262144;
    assert ((c / 262144 * 64 + c / 4096 % 64) * 64 + c / 64 % 64) * 64 + c % 64 == c;
  }

  /** Decoding undoes `UTF8::Encode` on every scalar value, whatever follows. */
  lemma DecodeEncoded(c: nat, tail: Bytes)
    requires IsScalar(c)
    ensures Decode(Utf8(c) + tail) == Decoded(true, c, |Utf8(c)|)
  {
    var s := Utf8(c) + tail;
    assert forall i :: 0 <= i < |Utf8(c)| ==> At(s, i) == Utf8(c)[i];
    hide Decode;
    if c <= 0x7F {
      assert Decode(s) == Decoded(true, c, 1) by { DecodeOne(s, c); }
    } else if c <= 0x7FF {
      DecodeTwo(s, c);
    } else if c <= 0xFFFF {
      DecodeThree(s, c);
    } else {
      DecodeFour(s, c);
    }
  }

  lemma DecodeOne(s: Bytes, c: nat)
    requires c <= 0x7F && At(s, 0) == c
    ensures Decode(s) == Decoded(true, c, 1)
  {
  }

  lemma Groups(x: nat, y: nat, z: nat)
    requires y < 64 && z < 64
    ensures var c := (x * 64 + y) * 64 + z;
            c / 4096 == x && c / 64 % 64 == y && c % 64 == z && c / 64 == x * 64 + y
  {
  }

  lemma FourGroups(w: nat, x: nat, y: nat, z: nat)
    requires x < 64 && y < 64 && z < 64
    ensures var c := ((w * 64 + x) * 64 + y) * 64 + z;
            c / 262144 == w && c / 4096 % 64 == x && c / 64 % 64 == y && c % 64 == z
  {
    Groups(w * 64 + x, y, z);
  }

  lemma LeadMeans(b: Byte)
    ensures 0xC2 <= b <= 0xDF ==> Length(Range(b)) == 2 && LeadBits(Range(b), b) == b as int - 0xC0
    ensures 0xE0 <= b <= 0xEF ==> Length(Range(b)) == 3 && LeadBits(Range(b), b) == b as int - 0xE0
    ensures 0xF0 <= b <= 0xF4 ==> Length(Range(b)) == 4 && LeadBits(Range(b), b) == b as int - 0xF0
  {
  }

  lemma EncodeTwo(b0: Byte, b1: Byte)
    requires Utf8Char([b0, b1])
    ensures var c := (b0 as int - 0xC0) * 64 + b1 % 64; 0x80 <= c <= 0x7FF && Utf8(c) == [b0, b1]
  {
  }

  lemma EncodeThree(b0: Byte, b1: Byte, b2: Byte)
    requires Utf8Char([b0, b1, b2])
    ensures var c := ((b0 as int - 0xE0) * 64 + b1 % 64) * 64 + b2 % 64;
            IsScalar(c) && c > 0x7FF && Utf8(c) == [b0, b1, b2]
  {
    Groups(b0 as int - 0xE0, b1 % 64, b2 % 64);
  }

  lemma EncodeFour(b0: Byte, b1: Byte, b2: Byte, b3: Byte)
    requires Utf8Char([b0, b1, b2, b3])
    ensures var c := (((b0 as int - 0xF0) * 64 + b1 % 64) * 64 + b2 % 64) * 64 + b3 % 64;
            IsScalar(c) && c > 0xFFFF && Utf8(c) == [b0, b1, b2, b3]
  {
    FourGroups(b0 as int - 0xF0, b1 % 64, b2 % 64, b3 % 64);
  }

  /** Encoding undoes every successful decoding: there is no second spelling of a character. */
  lemma EncodeDecoded(s: Bytes)
    requires s != [] && Decode(s).ok
    ensures IsScalar(Decode(s).codepoint) && Decode(s).taken <= |s|
    ensures Utf8(Decode(s).codepoint) == s[..Decode(s).taken]
  {
    DecodeIsGrammar(s);
    LeadMeans(s[0]);
    hide InRange, Range, Length, LeadBits;
    var d := Decode(s);
    if d.taken == 2 {
      hide Utf8;
      assert s[..2] == [s[0], s[1]];
      EncodeTwo(s[0], s[1]);
    } else if d.taken == 3 {
      hide Utf8;
      assert s[..3] == [s[0], s[1], s[2]];
      EncodeThree(s[0], s[1], s[2]);
    } else if d.taken == 4 {
      hide Utf8;
      assert s[..4] == [s[0], s[1], s[2], s[3]];
      EncodeFour(s[0], s[1], s[2], s[3]);
    }
  }

  /** The table of section 3 of RFC 3629: the bits of a code point in the bytes of its encoding. */
  lemma Utf8Means(c: nat)
    requires c <= 0x10FFFF
    ensures c < 0x80 ==> Utf8(c) == [c]
    ensures 0x80 <= c < 0x800 ==>
              && |Utf8(c)| == 2 && 0xC0 <= Utf8(c)[0] < 0xE0 && Tail(Utf8(c)[1])
              && (Utf8(c)[0] as int - 0xC0) * 64 + (Utf8(c)[1] - 0x80) == c
    ensures 0x800 <= c < 0x1_0000 ==>
              && |Utf8(c)| == 3 && 0xE0 <= Utf8(c)[0] < 0xF0 && Tail(Utf8(c)[1]) && Tail(Utf8(c)[2])
              && ((Utf8(c)[0] as int - 0xE0) * 64 + (Utf8(c)[1] - 0x80)) * 64 + (Utf8(c)[2] - 0x80) == c
    ensures 0x1_0000 <= c ==>
              && |Utf8(c)| == 4 && 0xF0 <= Utf8(c)[0] < 0xF8 && Tail(Utf8(c)[1]) && Tail(Utf8(c)[2]) && Tail(Utf8(c)[3])
              && (((Utf8(c)[0] as int - 0xF0) * 64 + (Utf8(c)[1] - 0x80)) * 64 + (Utf8(c)[2] - 0x80)) * 64
                 + (Utf8(c)[3] - 0x80) == c
  {
    SixBits(c);
  }

  // ---------------------------------------------------------------- UTF-16

  type Unit16 = u: int | 0 <= u <= 0xFFFF

  /** `UTF16::Encode`. */
  function Utf16(c: nat): (us: seq<Unit16>)
    requires IsScalar(c)
    ensures 1 <= |us| <= 2
  {
    if c <= 0xFFFF then [c] else [0xD800 + (c - 0x10000) / 1024, 0xDC00 + (c - 0x10000) % 1024]
  }

  /**
    Section 2.1 of RFC 2781: a code point below 0x10000 is its own unit; of the others, less 0x10000, the high ten bits
    follow 0xD800 in the first unit and the low ten bits 0xDC00 in the second.
   */
  lemma Utf16Means(c: nat)
    requires IsScalar(c)
    ensures c < 0x1_0000 ==> Utf16(c) == [c]
    ensures c >= 0x1_0000 ==>
              && |Utf16(c)| == 2 && 0xD800 <= Utf16(c)[0] < 0xDC00 && 0xDC00 <= Utf16(c)[1] < 0xE000
              && (Utf16(c)[0] as int - 0xD800) * 1024 + (Utf16(c)[1] as int - 0xDC00) == c - 0x1_0000
  {
  }

  function At16(s: seq<Unit16>, i: nat): Unit16 {
    if i < |s| then s[i] else 0
  }

  /** `UTF16::Decode`. */
  function Decode16(s: seq<Unit16>): Decoded {
    var c := At16(s, 0);
    if c < 0xD800 || c > 0xDFFF then Decoded(true, c, 1)
    else if c <= 0xDBFF then
      var c1 := At16(s, 1);
      Decoded(0xDC00 <= c1 <= 0xDFFF, c % 1024 * 1024 + c1 % 1024 + 0x10000, 2)
    else Decoded(false, 0, 1)
  }

  lemma Decode16Encoded(c: nat, tail: seq<Unit16>)
    requires IsScalar(c)
    ensures Decode16(Utf16(c) + tail) == Decoded(true, c, |Utf16(c)|)
  {
  }

  lemma Encode16Decoded(s: seq<Unit16>)
    requires s != [] && Decode16(s).ok
    ensures IsScalar(Decode16(s).codepoint) && Decode16(s).taken <= |s|
    ensures Utf16(Decode16(s).codepoint) == s[..Decode16(s).taken]
  {
    var d := Decode16(s);
    if d.taken == 2 {
      var u: seq<int> := s;
      assert d.codepoint - 0x10000 == (u[0] - 0xD800) * 1024 + (u[1] - 0xDC00);
    }
  }

  // ---------------------------------------------------------------- whole strings

  datatype Transcoded<T> = Malformed | Text(units: seq<T>)

  function Cons<T>(head: seq<T>, rest: Transcoded<T>): Transcoded<T> {
    match rest
    case Malformed => Malformed
    case Text(units) => Text(head + units)
  }

  /** `Transcoder<UTF8, UTF16>::Transcode` until the input is used up. */
  function To16(s: Bytes): Transcoded<Unit16>
    decreases |s|
  {
    if s == [] then Text([])
    else if !Decode(s).ok then Malformed
    else
      EncodeDecoded(s);
      Cons(Utf16(Decode(s).codepoint), To16(s[Decode(s).taken..]))
  }

  /** `Transcoder<UTF16, UTF8>::Transcode` until the input is used up. */
  function To8(s: seq<Unit16>): Transcoded<Byte>
    decreases |s|
  {
    if s == [] then Text([])
    else if !Decode16(s).ok then Malformed
    else
      Encode16Decoded(s);
      Cons(Utf8(Decode16(s).codepoint), To8(s[Decode16(s).taken..]))
  }

  /** A string of characters of the grammar. */
  predicate WellFormed(s: Bytes)
    decreases |s|
  {
    s == [] || exists n :: 1 <= n <= |s| && Utf8Char(s[..n]) && WellFormed(s[n..])
  }

  lemma DecodeFirst(s: Bytes, n: nat)
    requires 1 <= n <= |s| && Utf8Char(s[..n])
    ensures Decode(s).ok && Decode(s).taken == n
  {
    DecodeIsGrammar(s);
  }

  /** Exactly the well-formed strings of UTF-8 can be transcoded. */
  lemma {:induction false} To16IsGrammar(s: Bytes)
    ensures To16(s).Text? <==> WellFormed(s)
    decreases |s|
  {
    hide Decode, Utf8Char;
    if s != [] {
      DecodeIsGrammar(s);
      if Decode(s).ok {
        EncodeDecoded(s);
        To16IsGrammar(s[Decode(s).taken..]);
      }
      if n :| 1 <= n <= |s| && Utf8Char(s[..n]) && WellFormed(s[n..]) {
        DecodeFirst(s, n);
      }
    }
  }

  /** UTF-8 to UTF-16 and back is the identity on every well-formed string. */
  lemma {:induction false} ThereAndBack(s: Bytes)
    requires WellFormed(s)
    ensures To16(s).Text? && To8(To16(s).units) == Text(s)
    decreases |s|
  {
    hide Decode, Decode16, Utf8Char, Utf8, Utf16;
    To16IsGrammar(s);
    if s != [] {
      EncodeDecoded(s);
      var c, n := Decode(s).codepoint, Decode(s).taken;
      To16IsGrammar(s[n..]);
      ThereAndBack(s[n..]);
      var more := To16(s[n..]).units;
      var us := Utf16(c) + more;
      Decode16Encoded(c, more);
      assert us[|Utf16(c)|..] == more;
      assert s == s[..n] + s[n..];
    }
  }

  /** UTF-16 to UTF-8 and back is the identity whenever the first leg succeeds; it then yields well-formed UTF-8. */
  lemma {:induction false} BackAndThere(s: seq<Unit16>)
    requires To8(s).Text?
    ensures WellFormed(To8(s).units) && To16(To8(s).units) == Text(s)
    decreases |s|
  {
    hide Decode, Decode16, Utf8Char, Utf8, Utf16;
    if s != [] {
      Encode16Decoded(s);
      var c, n := Decode16(s).codepoint, Decode16(s).taken;
      BackAndThere(s[n..]);
      var more := To8(s[n..]).units;
      var bs := Utf8(c) + more;
      DecodeEncoded(c, more);
      assert bs[|Utf8(c)|..] == more;
      assert s == s[..n] + s[n..];
      To16IsGrammar(bs);
    }
  }
}
