/**
  Base64 (section 4 of RFC 4648) as base64.cpp encodes and decodes it, on unsigned bytes with their bit operations.
 */
module Base64 {
  type Octet = bv8

  const PAD: Octet := 0x3D

  // ---------------------------------------------------------------- the alphabet

  /** `base64_chars[i]`. */
  function CharOf(i: Octet): Octet
    requires i < 64
  {
    if i < 26 then 0x41 + i else if i < 52 then 0x47 + i else if i < 62 then i - 4 else if i == 62 then 0x2B else 0x2F
  }

  predicate IsBase64(c: Octet) {
    0x30 <= c <= 0x39 || 0x41 <= c <= 0x5A || 0x61 <= c <= 0x7A || c == 0x2B || c == 0x2F
  }

  /** `base64_chars.find(c)` kept in an unsigned char: 0xFF when there is none. */
  function Find(c: Octet): Octet {
    if 0x41 <= c <= 0x5A then c - 0x41
    else if 0x61 <= c <= 0x7A then c - 0x47
    else if 0x30 <= c <= 0x39 then c + 4
    else if c == 0x2B then 62
    else if c == 0x2F then 63
    else 0xFF
  }

  lemma FindMeans(c: Octet)
    ensures IsBase64(c) <==> Find(c) < 64
    ensures IsBase64(c) ==> CharOf(Find(c)) == c
    ensures !IsBase64(c) ==> Find(c) == 0xFF
  {
  }

  lemma CharMeans(i: Octet)
    requires i < 64
    ensures IsBase64(CharOf(i)) && Find(CharOf(i)) == i && CharOf(i) != PAD
  {
  }

  // ---------------------------------------------------------------- one group

  function Sextet0(b0: Octet): (s: Octet)
    ensures s < 64
  {
    (b0 & 0xFC) >> 2
  }

  function Sextet1(b0: Octet, b1: Octet): (s: Octet)
    ensures s < 64
  {
    ((b0 & 0x03) << 4) + ((b1 & 0xF0) >> 4)
  }

  function Sextet2(b1: Octet, b2: Octet): (s: Octet)
    ensures s < 64
  {
    ((b1 & 0x0F) << 2) + ((b2 & 0xC0) >> 6)
  }

  function Sextet3(b2: Octet): (s: Octet)
    ensures s < 64
  {
    b2 & 0x3F
  }

  function Octet0(s0: Octet, s1: Octet): Octet {
    (s0 << 2) + ((s1 & 0x30) >> 4)
  }

  function Octet1(s1: Octet, s2: Octet): Octet {
    ((s1 & 0xF) << 4) + ((s2 & 0x3C) >> 2)
  }

  function Octet2(s2: Octet, s3: Octet): Octet {
    ((s2 & 0x3) << 6) + s3
  }

  /** The four sextets are the 24 bits of the group, most significant first. */
  lemma SextetsAreBits(b0: Octet, b1: Octet, b2: Octet)
    ensures (Sextet0(b0) as bv24 << 18) | (Sextet1(b0, b1) as bv24 << 12) | (Sextet2(b1, b2) as bv24 << 6)
            | Sextet3(b2) as bv24
         == (b0 as bv24 << 16) | (b1 as bv24 << 8) | b2 as bv24
  {
  }

  /** The octets come back from their sextets. */
  lemma OctetsBack(b0: Octet, b1: Octet, b2: Octet)
    ensures Octet0(Sextet0(b0), Sextet1(b0, b1)) == b0
    ensures Octet1(Sextet1(b0, b1), Sextet2(b1, b2)) == b1
    ensures Octet2(Sextet2(b1, b2), Sextet3(b2)) == b2
  {
  }

  /** The sextets come back from their octets; in a short group only when the bits past the last octet are zero. */
  lemma SextetsBack(s0: Octet, s1: Octet, s2: Octet, s3: Octet)
    requires s0 < 64 && s1 < 64 && s2 < 64 && s3 < 64
    ensures Sextet0(Octet0(s0, s1)) == s0
    ensures Sextet1(Octet0(s0, s1), Octet1(s1, s2)) == s1
    ensures Sextet2(Octet1(s1, s2), Octet2(s2, s3)) == s2
    ensures Sextet3(Octet2(s2, s3)) == s3
    ensures Sextet1(Octet0(s0, s1), 0) == s1 <==> s1 & 0x0F == 0
    ensures Sextet2(Octet1(s1, s2), 0) == s2 <==> s2 & 0x03 == 0
  {
  }

  // ---------------------------------------------------------------- whole strings

  function Encoded(x: seq<Octet>): (e: seq<Octet>)
    decreases |x|
  {
    if |x| == 0 then []
    else if |x| == 1 then [CharOf(Sextet0(x[0])), CharOf(Sextet1(x[0], 0)), PAD, PAD]
    else if |x| == 2 then [CharOf(Sextet0(x[0])), CharOf(Sextet1(x[0], x[1])), CharOf(Sextet2(x[1], 0)), PAD]
    else
      [CharOf(Sextet0(x[0])), CharOf(Sextet1(x[0], x[1])), CharOf(Sextet2(x[1], x[2])), CharOf(Sextet3(x[2]))]
      + Encoded(x[3..])
  }

  /** The characters decoding looks at: up to the first that is not of the alphabet. */
  function Significant(s: seq<Octet>): seq<Octet>
    decreases |s|
  {
    if s == [] || s[0] == PAD || !IsBase64(s[0]) then [] else [s[0]] + Significant(s[1..])
  }

  function Decoded(c: seq<Octet>): seq<Octet>
    decreases |c|
  {
    if |c| < 2 then []
    else if |c| == 2 then [Octet0(Find(c[0]), Find(c[1]))]
    else if |c| == 3 then [Octet0(Find(c[0]), Find(c[1])), Octet1(Find(c[1]), Find(c[2]))]
    else
      [Octet0(Find(c[0]), Find(c[1])), Octet1(Find(c[1]), Find(c[2])), Octet2(Find(c[2]), Find(c[3]))]
      + Decoded(c[4..])
  }

  /** Four characters for every three octets or part of them. */
  lemma {:induction false} EncodedLength(x: seq<Octet>)
    ensures |Encoded(x)| == (|x| + 2) / 3 * 4
    decreases |x|
  {
    if |x| > 2 {
      EncodedLength(x[3..]);
    }
  }

  /** Six bits a character, whole octets only. */
  lemma {:induction false} DecodedLength(c: seq<Octet>)
    ensures |Decoded(c)| == |c| * 6 / 8
    decreases |c|
  {
    if |c| >= 4 {
      DecodedLength(c[4..]);
    }
  }

  lemma SignificantStep(c: Octet, rest: seq<Octet>)
    ensures Significant([c] + rest) == if IsBase64(c) then [c] + Significant(rest) else []
  {
    assert ([c] + rest)[1..] == rest;
  }

  lemma FromFirst(p: seq<Octet>, rest: seq<Octet>)
    requires p != []
    ensures p + rest == [p[0]] + (p[1..] + rest)
  {
  }

  lemma {:induction false} SignificantPrefix(p: seq<Octet>, rest: seq<Octet>)
    requires forall k :: 0 <= k < |p| ==> IsBase64(p[k])
    ensures Significant(p + rest) == p + Significant(rest)
    decreases p
  {
    hide IsBase64, Significant;
    if p == [] {
      assert p + rest == rest && p + Significant(rest) == Significant(rest);
    } else {
      SignificantPrefix(p[1..], rest);
      SignificantStep(p[0], p[1..] + rest);
      FromFirst(p, rest);
      FromFirst(p, Significant(rest));
    }
  }

  lemma SignificantFour(a: Octet, b: Octet, c: Octet, d: Octet, rest: seq<Octet>)
    requires IsBase64(a) && IsBase64(b)
    ensures var s := Significant([a, b, c, d] + rest);
            if !IsBase64(c) then s == [a, b]
            else if !IsBase64(d) then s == [a, b, c]
            else s == [a, b, c, d] + Significant(rest)
  {
    hide IsBase64, Significant;
    if !IsBase64(c) {
      SignificantPrefix([a, b], [c] + ([d] + rest));
      SignificantStep(c, [d] + rest);
      assert [a, b, c, d] + rest == [a, b] + ([c] + ([d] + rest));
    } else if !IsBase64(d) {
      SignificantPrefix([a, b, c], [d] + rest);
      SignificantStep(d, rest);
      assert [a, b, c, d] + rest == [a, b, c] + ([d] + rest);
    } else {
      SignificantPrefix([a, b, c, d], rest);
    }
  }

  /** Decoding gives back whatever was encoded. */
  lemma {:induction false} RoundTrip(x: seq<Octet>)
    ensures Decoded(Significant(Encoded(x))) == x
    decreases |x|
  {
    hide CharOf, Find, IsBase64, Sextet0, Sextet1, Sextet2, Sextet3, Octet0, Octet1, Octet2;
    if x != [] {
      var b1, b2 := if |x| > 1 then x[1] else 0, if |x| > 2 then x[2] else 0;
      OctetsBack(x[0], b1, b2);
      CharMeans(Sextet0(x[0]));
      CharMeans(Sextet1(x[0], b1));
      CharMeans(Sextet2(b1, b2));
      CharMeans(Sextet3(b2));
      PadIsOutside();
      var e := Encoded(x);
      var rest := if |x| > 2 then Encoded(x[3..]) else [];
      assert e == [e[0], e[1], e[2], e[3]] + rest;
      SignificantFour(e[0], e[1], e[2], e[3], rest);
      if |x| > 2 {
        RoundTrip(x[3..]);
        FourCharacters(e[0], e[1], e[2], e[3], Significant(rest));
        assert x == [x[0], x[1], x[2]] + x[3..];
      }
    }
  }

  lemma FourCharacters(a: Octet, b: Octet, c: Octet, d: Octet, rest: seq<Octet>)
    ensures Decoded([a, b, c, d] + rest)
         == [Octet0(Find(a), Find(b)), Octet1(Find(b), Find(c)), Octet2(Find(c), Find(d))] + Decoded(rest)
  {
    hide Find, Octet0, Octet1, Octet2;
    assert ([a, b, c, d] + rest)[4..] == rest;
  }

  lemma PadIsOutside()
    ensures !IsBase64(PAD)
  {
  }

  /**
    The strings section 3.5 of RFC 4648 calls canonical: groups of four characters, the last one possibly
    padded, with zero bits where padding cut it short.
   */
  predicate Canonical(y: seq<Octet>)
    decreases |y|
  {
    y == [] ||
    (|y| >= 4 && IsBase64(y[0]) && IsBase64(y[1])
     && ((|y| == 4 && y[2] == PAD && y[3] == PAD && Find(y[1]) & 0x0F == 0)
         || (|y| == 4 && IsBase64(y[2]) && y[3] == PAD && Find(y[2]) & 0x03 == 0)
         || (IsBase64(y[2]) && IsBase64(y[3]) && Canonical(y[4..]))))
  }

  lemma {:induction false} EncodedIsCanonical(x: seq<Octet>)
    ensures Canonical(Encoded(x))
    decreases |x|
  {
    hide CharOf, Find, IsBase64, Sextet0, Sextet1, Sextet2, Sextet3;
    if x != [] {
      var b1, b2 := if |x| > 1 then x[1] else 0, if |x| > 2 then x[2] else 0;
      CharMeans(Sextet0(x[0]));
      CharMeans(Sextet1(x[0], b1));
      CharMeans(Sextet2(b1, b2));
      CharMeans(Sextet3(b2));
      PaddingBits(x[0], b1);
      if |x| > 2 {
        EncodedIsCanonical(x[3..]);
        assert Encoded(x)[4..] == Encoded(x[3..]);
      }
    }
  }

  lemma PaddingBits(b0: Octet, b1: Octet)
    ensures Sextet1(b0, 0) & 0x0F == 0 && Sextet2(b1, 0) & 0x03 == 0
  {
  }

  lemma FourChars(b0: Octet, b1: Octet, b2: Octet)
    ensures Chars(Sextets(b0, b1, b2))
         == [CharOf(Sextet0(b0)), CharOf(Sextet1(b0, b1)), CharOf(Sextet2(b1, b2)), CharOf(Sextet3(b2))]
  {
    hide CharOf, Sextet0, Sextet1, Sextet2, Sextet3;
  }

  lemma FullGroup(x: seq<Octet>)
    requires |x| >= 3
    ensures Encoded(x) == Chars(Sextets(x[0], x[1], x[2])) + Encoded(x[3..])
  {
    hide CharOf, Sextet0, Sextet1, Sextet2, Sextet3, Chars, Sextets;
    FourChars(x[0], x[1], x[2]);
  }

  lemma EncodeFirst(x: seq<Octet>, y: seq<Octet>)
    requires |x| >= 3 && |y| >= 4
    requires y[0] == CharOf(Sextet0(x[0])) && y[1] == CharOf(Sextet1(x[0], x[1]))
    requires y[2] == CharOf(Sextet2(x[1], x[2])) && y[3] == CharOf(Sextet3(x[2]))
    requires Encoded(x[3..]) == y[4..]
    ensures Encoded(x) == y
  {
    hide CharOf, Sextet0, Sextet1, Sextet2, Sextet3, Encoded, Chars, Sextets;
    FullGroup(x);
    FourChars(x[0], x[1], x[2]);
    assert y == [y[0], y[1], y[2], y[3]] + y[4..];
  }

  /** Encoding gives back what was decoded exactly when that was canonical. */
  lemma {:induction false} CanonicalRoundTrip(y: seq<Octet>)
    ensures Encoded(Decoded(Significant(y))) == y <==> Canonical(y)
    decreases |y|
  {
    if Encoded(Decoded(Significant(y))) == y {
      EncodedIsCanonical(Decoded(Significant(y)));
    }
    if Canonical(y) && y != [] {
      CanonicalBack(y);
    }
  }

  /** "QR==" has bits left over in its last character: it decodes to "A", which encodes as "QQ==". */
  lemma LeftoverBits()
    ensures var y := [0x51, 0x52, PAD, PAD];
            !Canonical(y) && Decoded(Significant(y)) == [0x41] && Encoded(Decoded(Significant(y))) == [0x51, 0x51, PAD, PAD]
  {
    var y: seq<Octet> := [0x51, 0x52, PAD, PAD];
    assert y[1..] == [0x52, PAD, PAD] && y[1..][1..] == [PAD, PAD];
    assert Significant([PAD, PAD]) == [];
    assert Significant([0x52, PAD, PAD]) == [0x52] + [];
    assert Significant(y) == [0x51, 0x52];
  }

  lemma {:induction false} CanonicalBack(y: seq<Octet>)
    requires Canonical(y)
    ensures Encoded(Decoded(Significant(y))) == y
    decreases |y|
  {
    hide CharOf, Find, IsBase64, Sextet0, Sextet1, Sextet2, Sextet3, Octet0, Octet1, Octet2;
    if y != [] {
      var rest := y[4..];
      assert y == [y[0], y[1], y[2], y[3]] + rest;
      PadIsOutside();
      SignificantFour(y[0], y[1], y[2], y[3], rest);
      FindMeans(y[0]);
      FindMeans(y[1]);
      FindMeans(y[2]);
      FindMeans(y[3]);
      var s2 := if IsBase64(y[2]) then Find(y[2]) else 0;
      var s3 := if IsBase64(y[3]) then Find(y[3]) else 0;
      ZeroIsSmall();
      SextetsBack(Find(y[0]), Find(y[1]), s2, s3);
      if IsBase64(y[3]) && IsBase64(y[2]) {
        CanonicalBack(rest);
        FourCharacters(y[0], y[1], y[2], y[3], Significant(rest));
        var x := Decoded(Significant(y));
        assert x[3..] == Decoded(Significant(rest));
        EncodeFirst(x, y);
      }
    }
  }

  lemma ZeroIsSmall()
    ensures 0 as Octet < 64
  {
  }

  // ---------------------------------------------------------------- base64.cpp

  /** The four sextets of the bytes in the three-byte array. */
  method SplitGroup(a3: array<Octet>, a4: array<Octet>)
    requires a3.Length == 3 && a4.Length == 4 && a3 != a4
    modifies a4
    ensures a4[..] == [Sextet0(a3[0]), Sextet1(a3[0], a3[1]), Sextet2(a3[1], a3[2]), Sextet3(a3[2])]
  {
    a4[0] := (a3[0] & 0xFC) >> 2;
    a4[1] := ((a3[0] & 0x03) << 4) + ((a3[1] & 0xF0) >> 4);
    a4[2] := ((a3[1] & 0x0F) << 2) + ((a3[2] & 0xC0) >> 6);
    a4[3] := a3[2] & 0x3F;
  }

  function Chars(sextets: seq<Octet>): seq<Octet>
    requires forall k :: 0 <= k < |sextets| ==> sextets[k] < 64
  {
    seq(|sextets|, k requires 0 <= k < |sextets| => CharOf(sextets[k]))
  }

  /** Appends the characters of the first `count` sextets. */
  method PutCharacters(a4: array<Octet>, count: nat, out0: seq<Octet>) returns (out: seq<Octet>)
    requires count <= a4.Length && forall k :: 0 <= k < a4.Length ==> a4[k] < 64
    ensures out == out0 + Chars(a4[..count])
  {
    hide CharOf;
    out := out0;
    for j := 0 to count
      invariant out == out0 + Chars(a4[..j])
    {
      assert Chars(a4[..j + 1]) == Chars(a4[..j]) + [CharOf(a4[j])];
      out := out + [CharOf(a4[j])];
    }
  }

  function Sextets(b0: Octet, b1: Octet, b2: Octet): (s: seq<Octet>)
    ensures |s| == 4 && forall k :: 0 <= k < 4 ==> s[k] < 64
  {
    [Sextet0(b0), Sextet1(b0, b1), Sextet2(b1, b2), Sextet3(b2)]
  }

  lemma CharsPrefix(s: seq<Octet>, n: nat)
    requires n <= |s| && forall k :: 0 <= k < |s| ==> s[k] < 64
    ensures |Chars(s)| == |s| && Chars(s[..n]) == Chars(s)[..n]
  {
    hide CharOf;
  }

  lemma ShortGroup(x: seq<Octet>)
    requires 0 < |x| < 3
    ensures Encoded(x)
         == Chars(Sextets(x[0], if |x| == 2 then x[1] else 0, 0)[..|x| + 1]) + (if |x| == 1 then [PAD, PAD] else [PAD])
  {
    hide CharOf, Sextet0, Sextet1, Sextet2, Sextet3, Chars, Sextets;
    var b1 := if |x| == 2 then x[1] else 0;
    CharsPrefix(Sextets(x[0], b1, 0), |x| + 1);
    FourChars(x[0], b1, 0);
  }

  /** The last one or two bytes, filled up with zeros. */
  method EncodeTail(a3: array<Octet>, a4: array<Octet>, i0: nat, group: seq<Octet>, out0: seq<Octet>)
      returns (out: seq<Octet>)
    requires a3.Length == 3 && a4.Length == 4 && a3 != a4 && 0 < i0 < 3 && a3[..i0] == group
    modifies a3, a4
    ensures out == out0 + Encoded(group)
  {
    hide CharOf, Sextet0, Sextet1, Sextet2, Sextet3, Encoded, Chars;
    ShortGroup(group);
    for j := i0 to 3
      invariant a3[..i0] == group
      invariant forall k :: i0 <= k < j ==> a3[k] == 0
    {
      a3[j] := 0;
    }
    assert group[0] == a3[..i0][0] && (i0 == 2 ==> group[1] == a3[..i0][1]);
    SplitGroup(a3, a4);
    assert a4[..] == Sextets(a3[0], a3[1], a3[2]);
    assert forall k :: 0 <= k < 4 ==> a4[k] == a4[..][k];
    assert a4[..i0 + 1] == a4[..][..i0 + 1];
    out := PutCharacters(a4, i0 + 1, out0);
    ghost var text := out;
    var i := i0;
    while i < 3
      invariant i0 <= i <= 3
      invariant out == text + (if i == i0 then [] else if i == i0 + 1 then [PAD] else [PAD, PAD])
    {
      out := out + [PAD];
      i := i + 1;
    }
  }

  /** `base64_encode`. */
  method Encode(bytes: seq<Octet>) returns (out: seq<Octet>)
    ensures out == Encoded(bytes)
  {
    hide CharOf, Sextet0, Sextet1, Sextet2, Sextet3, Encoded, Chars;
    out := [];
    var a3, a4 := new Octet[3], new Octet[4];
    var i: nat := 0;
    var next: nat := 0;
    assert bytes[0..] == bytes;
    while next < |bytes|
      invariant i < 3 && i <= next <= |bytes|
      invariant a3[..i] == bytes[next - i..next]
      invariant out + Encoded(bytes[next - i..]) == Encoded(bytes)
    {
      a3[i] := bytes[next];
      i, next := i + 1, next + 1;
      assert a3[..i] == bytes[next - i..next];
      if i == 3 {
        ghost var group := bytes[next - 3..];
        assert group[0] == a3[..3][0] && group[1] == a3[..3][1] && group[2] == a3[..3][2];
        assert group[3..] == bytes[next..];
        FullGroup(group);
        SplitGroup(a3, a4);
        assert a4[..] == Sextets(a3[0], a3[1], a3[2]);
        assert forall k :: 0 <= k < 4 ==> a4[k] == a4[..][k];
        assert a4[..4] == a4[..];
        ghost var more := Encoded(bytes[next..]);
        assert out + (Chars(a4[..4]) + more) == out + Chars(a4[..4]) + more;
        out := PutCharacters(a4, 4, out);
        i := 0;
      }
    }
    assert bytes[next - i..] == bytes[next - i..next];
    if i > 0 {
      out := EncodeTail(a3, a4, i, bytes[next - i..], out);
    } else {
      NothingEncoded();
    }
  }

  lemma NothingEncoded()
    ensures Encoded([]) == []
  {
  }

  /** The three octets of the sextets in the four-byte array. */
  method JoinGroup(a4: array<Octet>, a3: array<Octet>)
    requires a3.Length == 3 && a4.Length == 4 && a3 != a4
    modifies a3
    ensures a3[..] == [Octet0(a4[0], a4[1]), Octet1(a4[1], a4[2]), Octet2(a4[2], a4[3])]
  {
    a3[0] := (a4[0] << 2) + ((a4[1] & 0x30) >> 4);
    a3[1] := ((a4[1] & 0xF) << 4) + ((a4[2] & 0x3C) >> 2);
    a3[2] := ((a4[2] & 0x3) << 6) + a4[3];
  }

  /** Looks every character up, unused slots included. */
  method FindAll(a4: array<Octet>)
    requires a4.Length == 4
    modifies a4
    ensures forall k :: 0 <= k < 4 ==> a4[k] == Find(old(a4[k]))
  {
    hide Find;
    for i := 0 to 4
      invariant forall k :: 0 <= k < i ==> a4[k] == Find(old(a4[k]))
      invariant forall k :: i <= k < 4 ==> a4[k] == old(a4[k])
    {
      a4[i] := Find(a4[i]);
    }
  }

  lemma SignificantAt(s: seq<Octet>, k: nat)
    requires k < |s|
    ensures Significant(s[k..]) == if IsBase64(s[k]) then [s[k]] + Significant(s[k + 1..]) else []
  {
    hide IsBase64;
    SignificantStep(s[k], s[k + 1..]);
    assert s[k..] == [s[k]] + s[k + 1..];
  }

  lemma DecodedGroup(c: seq<Octet>, rest: seq<Octet>)
    requires |c| == 4
    ensures Decoded(c + rest)
         == [Octet0(Find(c[0]), Find(c[1])), Octet1(Find(c[1]), Find(c[2])), Octet2(Find(c[2]), Find(c[3]))]
            + Decoded(rest)
  {
    assert c == [c[0], c[1], c[2], c[3]];
    FourCharacters(c[0], c[1], c[2], c[3], rest);
  }

  predicate LookedUp(c: seq<Octet>, k: nat, u: Octet) {
    k < |c| ==> u == Find(c[k])
  }

  /** A short last group, whatever is looked up in its unused slots. */
  lemma DecodedTail(c: seq<Octet>, u1: Octet, u2: Octet, u3: Octet)
    requires 0 < |c| < 4
    requires LookedUp(c, 1, u1) && LookedUp(c, 2, u2)
    ensures Decoded(c) == [Octet0(Find(c[0]), u1), Octet1(u1, u2), Octet2(u2, u3)][..|c| - 1]
  {
    hide Find, Octet0, Octet1, Octet2;
  }

  /** Looks up and joins a group of which `used` slots hold characters. */
  method JoinFound(a4: array<Octet>, a3: array<Octet>, group: seq<Octet>)
    requires a3.Length == 3 && a4.Length == 4 && a3 != a4 && 0 < |group| <= 4 && a4[..|group|] == group
    modifies a3, a4
    ensures exists u1, u2, u3 ::
              LookedUp(group, 1, u1) && LookedUp(group, 2, u2) && LookedUp(group, 3, u3)
              && a3[..] == [Octet0(Find(group[0]), u1), Octet1(u1, u2), Octet2(u2, u3)]
  {
    hide Find, Octet0, Octet1, Octet2;
    assert forall k :: 0 <= k < |group| ==> group[k] == a4[..|group|][k];
    FindAll(a4);
    JoinGroup(a4, a3);
    assert a3[..] == [Octet0(a4[0], a4[1]), Octet1(a4[1], a4[2]), Octet2(a4[2], a4[3])];
  }

  /** `base64_decode`. The 0xFF that `find` leaves in unused slots of the last group never reaches the output. */
  method Decode(text: seq<Octet>) returns (out: seq<Octet>)
    ensures out == Decoded(Significant(text))
  {
    hide Find, IsBase64, Octet0, Octet1, Octet2, Decoded, Significant;
    PadIsOutside();
    out := [];
    var a4, a3 := new Octet[4], new Octet[3];
    var i: nat := 0;
    var next: nat := 0;
    ghost var group: seq<Octet> := [];
    assert text[0..] == text && [] + Significant(text) == Significant(text);
    while next < |text| && text[next] != PAD && IsBase64(text[next])
      invariant i < 4 && next <= |text| && a4[..i] == group
      invariant out + Decoded(group + Significant(text[next..])) == Decoded(Significant(text))
    {
      SignificantAt(text, next);
      ghost var after := Significant(text[next + 1..]);
      assert group + ([text[next]] + after) == group + [text[next]] + after;
      group := group + [text[next]];
      a4[i] := text[next];
      next := next + 1;
      i := i + 1;
      assert a4[..i] == group;
      if i == 4 {
        assert a4[..] == group;
        out := DecodeGroup(a4, a3, out, after);
        i := 0;
        group := [];
        assert group + after == after;
      }
    }
    StopsHere(text, next);
    assert group + [] == group;
    if i > 0 {
      out := DecodeTail(a4, a3, i, out);
    } else {
      NothingDecoded();
    }
  }

  /** The last one to three characters. */
  method DecodeTail(a4: array<Octet>, a3: array<Octet>, i: nat, out0: seq<Octet>) returns (out: seq<Octet>)
    requires a3.Length == 3 && a4.Length == 4 && a3 != a4 && 0 < i < 4
    modifies a3, a4
    ensures out == out0 + Decoded(old(a4[..i]))
  {
    hide Find, Octet0, Octet1, Octet2, Decoded;
    var group := a4[..i];
    for j := i to 4
      invariant a4[..i] == group
    {
      a4[j] := 0;
    }
    JoinFound(a4, a3, group);
    ghost var u1, u2, u3 :|
      LookedUp(group, 1, u1) && LookedUp(group, 2, u2) && LookedUp(group, 3, u3)
      && a3[..] == [Octet0(Find(group[0]), u1), Octet1(u1, u2), Octet2(u2, u3)];
    DecodedTail(group, u1, u2, u3);
    assert a3[..i - 1] == a3[..][..i - 1];
    out := PutOctets(a3, i - 1, out0);
  }

  lemma NothingDecoded()
    ensures Decoded([]) == []
  {
  }

  lemma StopsHere(s: seq<Octet>, k: nat)
    requires k <= |s| && (k < |s| ==> s[k] == PAD || !IsBase64(s[k]))
    ensures Significant(s[k..]) == []
  {
  }

  /** A full group of four characters. */
  method DecodeGroup(a4: array<Octet>, a3: array<Octet>, out0: seq<Octet>, ghost after: seq<Octet>)
      returns (out: seq<Octet>)
    requires a4.Length == 4 && a3.Length == 3 && a4 != a3
    modifies a4, a3
    ensures out + Decoded(after) == out0 + Decoded(old(a4[..]) + after)
  {
    hide Find, Octet0, Octet1, Octet2, Decoded;
    DecodedGroup(a4[..], after);
    JoinFound(a4, a3, a4[..]);
    out := PutOctets(a3, 3, out0);
    assert a3[..3] == a3[..];
    assert out0 + (a3[..] + Decoded(after)) == out0 + a3[..] + Decoded(after);
  }

  /** Appends the first `count` octets. */
  method PutOctets(a3: array<Octet>, count: nat, out0: seq<Octet>) returns (out: seq<Octet>)
    requires count <= a3.Length
    ensures out == out0 + a3[..count]
  {
    out := out0;
    for j := 0 to count
      invariant out == out0 + a3[..j]
    {
      out := out + [a3[j]];
    }
  }
}
