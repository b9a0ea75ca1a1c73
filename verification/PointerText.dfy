/**
  The text of a JSON Pointer, byte by byte: the escapes of section 4 of RFC 6901, the percent-encoding of section 6 of
  RFC 6901 with the unreserved characters of section 2.3 of RFC 3986, and the array-index of section 4 of RFC 6901.
 */
module PointerText {
  import opened Json
  import opened Utf
  import opened Pointer
  import opened WriterLayout

  /** unreserved = ALPHA / DIGIT / "-" / "." / "_" / "~". */
  predicate Unreserved(c: Byte) {
    || 0x41 <= c <= 0x5A || 0x61 <= c <= 0x7A || 0x30 <= c <= 0x39
    || c == 0x2D || c == 0x2E || c == 0x5F || c == 0x7E
  }

  /** A byte of a name: "~0" for '~', "~1" for '/', and in a fragment "%XX" for what is not unreserved. */
  function ByteText(fragment: bool, c: Byte): Bytes {
    if c == 0x7E then [0x7E, 0x30]
    else if c == 0x2F then [0x7E, 0x31]
    else if fragment && !Unreserved(c) then [0x25, HEX[c / 16], HEX[c % 16]]
    else [c]
  }

  function BytesText(fragment: bool, name: Bytes): Bytes {
    if name == [] then [] else ByteText(fragment, name[0]) + BytesText(fragment, name[1..])
  }

  /** '/' and a name for each token. */
  function TokensText(fragment: bool, names: seq<Bytes>): Bytes {
    if names == [] then [] else [0x2F] + BytesText(fragment, names[0]) + TokensText(fragment, names[1..])
  }

  /** A fragment must percent-encode exactly the bytes that are not unreserved. */
  lemma MustEncode(c: Byte)
    ensures NeedPercentEncode(c) <==> !Unreserved(c)
  {
  }

  lemma PlainByte(fragment: bool, c: Byte)
    requires WrittenPlain(fragment, c)
    ensures EscapedChar(c) == ByteText(fragment, c)
  {
    MustEncode(c);
  }

  lemma EncodedByte(c: Byte)
    requires !WrittenPlain(true, c)
    ensures PercentEncoded([c]) == ByteText(true, c)
  {
    MustEncode(c);
    HexDigits(c / 16);
    HexDigits(c % 16);
    assert [c][1..] == [];
    assert PercentEncoded([]) == [];
  }

  lemma {:induction false} PercentJoin(a: Bytes, b: Bytes)
    ensures PercentEncoded(a + b) == PercentEncoded(a) + PercentEncoded(b)
    decreases a
  {
    hide HexDigit;
    if a == [] {
      assert a + b == b;
    } else {
      assert (a + b)[1..] == a[1..] + b;
      PercentJoin(a[1..], b);
    }
  }

  lemma {:induction false} BytesTextJoin(fragment: bool, a: Bytes, b: Bytes)
    ensures BytesText(fragment, a + b) == BytesText(fragment, a) + BytesText(fragment, b)
    decreases a
  {
    hide ByteText;
    if a == [] {
      assert a + b == b;
    } else {
      assert (a + b)[1..] == a[1..] + b;
      BytesTextJoin(fragment, a[1..], b);
    }
  }

  /** The bytes of a character that is written in percent-encoding are all written so. */
  lemma {:induction false} EncodedRun(s: Bytes)
    requires forall i :: 0 <= i < |s| ==> !WrittenPlain(true, s[i])
    ensures PercentEncoded(s) == BytesText(true, s)
    decreases s
  {
    hide ByteText, WrittenPlain, HexDigit;
    if s != [] {
      EncodedByte(s[0]);
      EncodedRun(s[1..]);
      PercentJoin([s[0]], s[1..]);
      assert s == [s[0]] + s[1..];
    }
  }

  lemma HighIsEncoded(c: Byte)
    requires c >= 0x80
    ensures !WrittenPlain(true, c)
  {
  }

  lemma CharRun(s: Bytes)
    requires Utf8Char(s) && !WrittenPlain(true, s[0])
    ensures forall i :: 0 <= i < |s| ==> !WrittenPlain(true, s[i])
  {
    forall i | 0 < i < |s| ensures !WrittenPlain(true, s[i]) {
      HighIsEncoded(s[i]);
    }
  }

  /** The text of a name, where it has one. */
  lemma {:induction false} NameIs(fragment: bool, name: Bytes)
    requires NameText(fragment, name).Text?
    ensures NameText(fragment, name) == Text(BytesText(fragment, name))
    decreases |name|
  {
    hide ByteText, EscapedChar, WrittenPlain, PercentEncoded, Validate, Utf8Char;
    if name != [] {
      if WrittenPlain(fragment, name[0]) {
        PlainByte(fragment, name[0]);
        NameIs(fragment, name[1..]);
      } else {
        NotInPlain(fragment, name[0]);
        ValidateIsDecode(name);
        DecodeIsGrammar(name);
        var n := Validate(name).taken;
        CharRun(name[..n]);
        EncodedRun(name[..n]);
        NameIs(fragment, name[n..]);
        BytesTextJoin(fragment, name[..n], name[n..]);
        assert name == name[..n] + name[n..];
      }
    }
  }

  lemma NotInPlain(fragment: bool, c: Byte)
    requires !WrittenPlain(fragment, c)
    ensures fragment
  {
  }

  lemma {:induction false} NamesAre(fragment: bool, names: seq<Bytes>)
    requires NamesText(fragment, names).Text?
    ensures NamesText(fragment, names) == Text(TokensText(fragment, names))
    decreases names
  {
    hide NameText, BytesText;
    if names != [] {
      NameIs(fragment, names[0]);
      NamesAre(fragment, names[1..]);
      assert [0x2F] + (BytesText(fragment, names[0]) + TokensText(fragment, names[1..])) == TokensText(fragment, names);
    }
  }

  /** The plain form, and the fragment form where there is one, which starts with '#'. */
  lemma StringifyIs(fragment: bool, names: seq<Bytes>)
    requires Stringify(fragment, names).Text?
    ensures Stringify(fragment, names) == Text((if fragment then [0x23] else []) + TokensText(fragment, names))
  {
    hide NamesText, TokensText;
    NamesAre(fragment, names);
    assert [] + TokensText(false, names) == TokensText(false, names);
  }

  /** array-index = "0" / ( %x31-39 *( %x30-39 ) ). */
  lemma IndexSyntax(name: Bytes)
    ensures LooksLikeIndex(name) <==>
              || name == [0x30]
              || (name != [] && 0x31 <= name[0] <= 0x39 && forall i :: 1 <= i < |name| ==> 0x30 <= name[i] <= 0x39)
  {
    if name != [] && name[0] == 0x30 && |name| == 1 {
      assert name == [0x30];
    }
  }
}
