/**
  Base64 by Table 1 of RFC 4648: each character is the table's entry for six bits of the input, in order, and each
  octet is eight bits of the entries' numbers.
 */
module Base64Table {
  import opened Base64

  /** Table 1: "A" to "Z", "a" to "z", and "0" to "9", "+", "/". */
  const UPPER: seq<Octet> := [
    0x41, 0x42, 0x43, 0x44, 0x45, 0x46, 0x47, 0x48, 0x49, 0x4A, 0x4B, 0x4C, 0x4D,
    0x4E, 0x4F, 0x50, 0x51, 0x52, 0x53, 0x54, 0x55, 0x56, 0x57, 0x58, 0x59, 0x5A]
  const LOWER: seq<Octet> := [
    0x61, 0x62, 0x63, 0x64, 0x65, 0x66, 0x67, 0x68, 0x69, 0x6A, 0x6B, 0x6C, 0x6D,
    0x6E, 0x6F, 0x70, 0x71, 0x72, 0x73, 0x74, 0x75, 0x76, 0x77, 0x78, 0x79, 0x7A]
  const OTHERS: seq<Octet> := [0x30, 0x31, 0x32, 0x33, 0x34, 0x35, 0x36, 0x37, 0x38, 0x39, 0x2B, 0x2F]
  const TABLE: seq<Octet> := UPPER + LOWER + OTHERS

  lemma UpperRow(i: Octet)
    requires 0 <= i < 13
    ensures 0 <= i as int < 13 && CharOf(i) == UPPER[i as int]
  {
    if i == 0 {
      assert (0 as Octet) as int == 0 && CharOf(0) == UPPER[0];
    } else if i == 1 {
      assert (1 as Octet) as int == 1 && CharOf(1) == UPPER[1];
    } else if i == 2 {
      assert (2 as Octet) as int == 2 && CharOf(2) == UPPER[2];
    } else if i == 3 {
      assert (3 as Octet) as int == 3 && CharOf(3) == UPPER[3];
    } else if i == 4 {
      assert (4 as Octet) as int == 4 && CharOf(4) == UPPER[4];
    } else if i == 5 {
      assert (5 as Octet) as int == 5 && CharOf(5) == UPPER[5];
    } else if i == 6 {
      assert (6 as Octet) as int == 6 && CharOf(6) == UPPER[6];
    } else if i == 7 {
      assert (7 as Octet) as int == 7 && CharOf(7) == UPPER[7];
    } else if i == 8 {
      assert (8 as Octet) as int == 8 && CharOf(8) == UPPER[8];
    } else if i == 9 {
      assert (9 as Octet) as int == 9 && CharOf(9) == UPPER[9];
    } else if i == 10 {
      assert (10 as Octet) as int == 10 && CharOf(10) == UPPER[10];
    } else if i == 11 {
      assert (11 as Octet) as int == 11 && CharOf(11) == UPPER[11];
    } else if i == 12 {
      assert (12 as Octet) as int == 12 && CharOf(12) == UPPER[12];
    }
  }

  lemma UpperEndRow(i: Octet)
    requires 13 <= i < 26
    ensures 13 <= i as int < 26 && CharOf(i) == UPPER[i as int]
  {
    if i == 13 {
      assert (13 as Octet) as int == 13 && CharOf(13) == UPPER[13];
    } else if i == 14 {
      assert (14 as Octet) as int == 14 && CharOf(14) == UPPER[14];
    } else if i == 15 {
      assert (15 as Octet) as int == 15 && CharOf(15) == UPPER[15];
    } else if i == 16 {
      assert (16 as Octet) as int == 16 && CharOf(16) == UPPER[16];
    } else if i == 17 {
      assert (17 as Octet) as int == 17 && CharOf(17) == UPPER[17];
    } else if i == 18 {
      assert (18 as Octet) as int == 18 && CharOf(18) == UPPER[18];
    } else if i == 19 {
      assert (19 as Octet) as int == 19 && CharOf(19) == UPPER[19];
    } else if i == 20 {
      assert (20 as Octet) as int == 20 && CharOf(20) == UPPER[20];
    } else if i == 21 {
      assert (21 as Octet) as int == 21 && CharOf(21) == UPPER[21];
    } else if i == 22 {
      assert (22 as Octet) as int == 22 && CharOf(22) == UPPER[22];
    } else if i == 23 {
      assert (23 as Octet) as int == 23 && CharOf(23) == UPPER[23];
    } else if i == 24 {
      assert (24 as Octet) as int == 24 && CharOf(24) == UPPER[24];
    } else if i == 25 {
      assert (25 as Octet) as int == 25 && CharOf(25) == UPPER[25];
    }
  }

  lemma LowerRow(i: Octet)
    requires 26 <= i < 39
    ensures 26 <= i as int < 39 && CharOf(i) == LOWER[i as int - 26]
  {
    if i == 26 {
      assert (26 as Octet) as int == 26 && CharOf(26) == LOWER[0];
    } else if i == 27 {
      assert (27 as Octet) as int == 27 && CharOf(27) == LOWER[1];
    } else if i == 28 {
      assert (28 as Octet) as int == 28 && CharOf(28) == LOWER[2];
    } else if i == 29 {
      assert (29 as Octet) as int == 29 && CharOf(29) == LOWER[3];
    } else if i == 30 {
      assert (30 as Octet) as int == 30 && CharOf(30) == LOWER[4];
    } else if i == 31 {
      assert (31 as Octet) as int == 31 && CharOf(31) == LOWER[5];
    } else if i == 32 {
      assert (32 as Octet) as int == 32 && CharOf(32) == LOWER[6];
    } else if i == 33 {
      assert (33 as Octet) as int == 33 && CharOf(33) == LOWER[7];
    } else if i == 34 {
      assert (34 as Octet) as int == 34 && CharOf(34) == LOWER[8];
    } else if i == 35 {
      assert (35 as Octet) as int == 35 && CharOf(35) == LOWER[9];
    } else if i == 36 {
      assert (36 as Octet) as int == 36 && CharOf(36) == LOWER[10];
    } else if i == 37 {
      assert (37 as Octet) as int == 37 && CharOf(37) == LOWER[11];
    } else if i == 38 {
      assert (38 as Octet) as int == 38 && CharOf(38) == LOWER[12];
    }
  }

  lemma LowerEndRow(i: Octet)
    requires 39 <= i < 52
    ensures 39 <= i as int < 52 && CharOf(i) == LOWER[i as int - 26]
  {
    if i == 39 {
      assert (39 as Octet) as int == 39 && CharOf(39) == LOWER[13];
    } else if i == 40 {
      assert (40 as Octet) as int == 40 && CharOf(40) == LOWER[14];
    } else if i == 41 {
      assert (41 as Octet) as int == 41 && CharOf(41) == LOWER[15];
    } else if i == 42 {
      assert (42 as Octet) as int == 42 && CharOf(42) == LOWER[16];
    } else if i == 43 {
      assert (43 as Octet) as int == 43 && CharOf(43) == LOWER[17];
    } else if i == 44 {
      assert (44 as Octet) as int == 44 && CharOf(44) == LOWER[18];
    } else if i == 45 {
      assert (45 as Octet) as int == 45 && CharOf(45) == LOWER[19];
    } else if i == 46 {
      assert (46 as Octet) as int == 46 && CharOf(46) == LOWER[20];
    } else if i == 47 {
      assert (47 as Octet) as int == 47 && CharOf(47) == LOWER[21];
    } else if i == 48 {
      assert (48 as Octet) as int == 48 && CharOf(48) == LOWER[22];
    } else if i == 49 {
      assert (49 as Octet) as int == 49 && CharOf(49) == LOWER[23];
    } else if i == 50 {
      assert (50 as Octet) as int == 50 && CharOf(50) == LOWER[24];
    } else if i == 51 {
      assert (51 as Octet) as int == 51 && CharOf(51) == LOWER[25];
    }
  }

  lemma OthersRow(i: Octet)
    requires 52 <= i < 64
    ensures 52 <= i as int < 64 && CharOf(i) == OTHERS[i as int - 52]
  {
    if i == 52 {
      assert (52 as Octet) as int == 52 && CharOf(52) == OTHERS[0];
    } else if i == 53 {
      assert (53 as Octet) as int == 53 && CharOf(53) == OTHERS[1];
    } else if i == 54 {
      assert (54 as Octet) as int == 54 && CharOf(54) == OTHERS[2];
    } else if i == 55 {
      assert (55 as Octet) as int == 55 && CharOf(55) == OTHERS[3];
    } else if i == 56 {
      assert (56 as Octet) as int == 56 && CharOf(56) == OTHERS[4];
    } else if i == 57 {
      assert (57 as Octet) as int == 57 && CharOf(57) == OTHERS[5];
    } else if i == 58 {
      assert (58 as Octet) as int == 58 && CharOf(58) == OTHERS[6];
    } else if i == 59 {
      assert (59 as Octet) as int == 59 && CharOf(59) == OTHERS[7];
    } else if i == 60 {
      assert (60 as Octet) as int == 60 && CharOf(60) == OTHERS[8];
    } else if i == 61 {
      assert (61 as Octet) as int == 61 && CharOf(61) == OTHERS[9];
    } else if i == 62 {
      assert (62 as Octet) as int == 62 && CharOf(62) == OTHERS[10];
    } else if i == 63 {
      assert (63 as Octet) as int == 63 && CharOf(63) == OTHERS[11];
    }
  }

  lemma TableIs(i: Octet)
    requires i < 64
    ensures |TABLE| == 64 && i as int < 64 && CharOf(i) == TABLE[i as int]
  {
    if i < 13 {
      UpperRow(i);
    } else if i < 26 {
      UpperEndRow(i);
    } else if i < 39 {
      LowerRow(i);
    } else if i < 52 {
      LowerEndRow(i);
    } else {
      OthersRow(i);
    }
    hide CharOf;
  }

  // ---------------------------------------------------------------- the bits of a group

  /** The 24 bits of the group at octet `3 * g`, filled up with zeros. */
  function Word(x: seq<Octet>, g: nat): bv24 {
    (OctetAt(x, 3 * g) as bv24 << 16) | (OctetAt(x, 3 * g + 1) as bv24 << 8) | OctetAt(x, 3 * g + 2) as bv24
  }

  function OctetAt(x: seq<Octet>, i: nat): Octet {
    if i < |x| then x[i] else 0
  }

  /** Six of the bits, the most significant first. */
  function Six(w: bv24, j: nat): (s: Octet)
    requires j < 4
    ensures s < 64
  {
    (if j == 0 then w >> 18 else if j == 1 then (w >> 12) & 0x3F else if j == 2 then (w >> 6) & 0x3F else w & 0x3F) as Octet
  }

  /** The 24 bits that the entries' numbers at `4 * g` make up. */
  function NumberWord(ns: seq<Octet>, g: nat): bv24 {
    (OctetAt(ns, 4 * g) as bv24 << 18) | (OctetAt(ns, 4 * g + 1) as bv24 << 12) | (OctetAt(ns, 4 * g + 2) as bv24 << 6)
    | OctetAt(ns, 4 * g + 3) as bv24
  }

  /** Eight of the bits. */
  function Eight(w: bv24, j: nat): Octet
    requires j < 3
  {
    (if j == 0 then w >> 16 else if j == 1 then (w >> 8) & 0xFF else w & 0xFF) as Octet
  }

  lemma SextetsAreSix(b0: Octet, b1: Octet, b2: Octet)
    ensures var w := (b0 as bv24 << 16) | (b1 as bv24 << 8) | b2 as bv24;
            && Sextet0(b0) == Six(w, 0) && Sextet1(b0, b1) == Six(w, 1)
            && Sextet2(b1, b2) == Six(w, 2) && Sextet3(b2) == Six(w, 3)
  {
  }

  lemma OctetsAreEight(n0: Octet, n1: Octet, n2: Octet, n3: Octet)
    requires n0 < 64 && n1 < 64 && n2 < 64 && n3 < 64
    ensures var w := (n0 as bv24 << 18) | (n1 as bv24 << 12) | (n2 as bv24 << 6) | n3 as bv24;
            Octet0(n0, n1) == Eight(w, 0) && Octet1(n1, n2) == Eight(w, 1) && Octet2(n2, n3) == Eight(w, 2)
  {
  }

  // ---------------------------------------------------------------- encoding

  lemma SixOfWord(x: seq<Octet>)
    ensures var b0, b1, b2 := OctetAt(x, 0), OctetAt(x, 1), OctetAt(x, 2);
            && Sextet0(b0) == Six(Word(x, 0), 0) && Sextet1(b0, b1) == Six(Word(x, 0), 1)
            && Sextet2(b1, b2) == Six(Word(x, 0), 2) && Sextet3(b2) == Six(Word(x, 0), 3)
  {
    hide Sextet0, Sextet1, Sextet2, Sextet3, Six;
    SextetsAreSix(OctetAt(x, 0), OctetAt(x, 1), OctetAt(x, 2));
  }

  lemma FirstGroup(x: seq<Octet>, k: nat)
    requires k < 4 && x != []
    ensures k < |Encoded(x)|
    ensures Encoded(x)[k] == if 6 * k < 8 * |x| then CharOf(Six(Word(x, 0), k)) else 0x3D
  {
    hide CharOf, Sextet0, Sextet1, Sextet2, Sextet3, Six, Word;
    SixOfWord(x);
    if |x| > 2 {
      assert Encoded(x)[k] == [CharOf(Sextet0(x[0])), CharOf(Sextet1(x[0], x[1])), CharOf(Sextet2(x[1], x[2])),
                               CharOf(Sextet3(x[2]))][k];
    }
  }

  lemma {:induction false} EncodedSix(x: seq<Octet>, k: nat)
    requires k < |Encoded(x)|
    ensures Encoded(x)[k] == if 6 * k < 8 * |x| then CharOf(Six(Word(x, k / 4), k % 4)) else 0x3D
    decreases |x|
  {
    hide CharOf, Sextet0, Sextet1, Sextet2, Sextet3, Six, Word;
    if k < 4 {
      FirstGroup(x, k);
    } else {
      WordLater(x, k / 4 - 1);
      EncodedSix(x[3..], k - 4);
    }
  }

  /**
    Character `k` of the encoding is the table's entry for the six bits at its place, or "=" when no octet reaches
    there.
   */
  lemma EncodedByTable(x: seq<Octet>, k: nat)
    requires k < |Encoded(x)|
    ensures var s := Six(Word(x, k / 4), k % 4);
            && |TABLE| == 64 && s as int < 64
            && Encoded(x)[k] == if 6 * k < 8 * |x| then TABLE[s as int] else 0x3D
  {
    hide CharOf, Six, Word, Encoded;
    EncodedSix(x, k);
    TableIs(Six(Word(x, k / 4), k % 4));
  }

  lemma WordLater(x: seq<Octet>, g: nat)
    requires |x| >= 3
    ensures Word(x[3..], g) == Word(x, g + 1)
  {
    assert forall i: nat :: OctetAt(x[3..], i) == OctetAt(x, i + 3);
  }

  // ---------------------------------------------------------------- decoding

  /** The characters are the table's entries of these numbers. */
  predicate Entries(c: seq<Octet>, ns: seq<Octet>) {
    |c| == |ns| && forall k :: 0 <= k < |c| ==> ns[k] < 64 && IsEntry(c[k], ns[k])
  }

  predicate IsEntry(c: Octet, n: Octet) {
    n as int < |TABLE| && c == TABLE[n as int]
  }

  lemma EntryFound(c: Octet, n: Octet)
    requires n < 64 && IsEntry(c, n)
    ensures Find(c) == n && IsBase64(c)
  {
    hide CharOf, Find, IsBase64;
    TableIs(n);
    CharMeans(n);
  }

  lemma EntriesFound(c: seq<Octet>, ns: seq<Octet>)
    requires Entries(c, ns)
    ensures forall k :: 0 <= k < |c| ==> Find(c[k]) == ns[k]
  {
    hide Find, IsEntry;
    forall k | 0 <= k < |c| ensures Find(c[k]) == ns[k] {
      EntryFound(c[k], ns[k]);
    }
  }

  lemma EightOfWord(ns: seq<Octet>)
    requires forall k :: 0 <= k < |ns| ==> ns[k] < 64
    ensures var n0, n1, n2, n3 := OctetAt(ns, 0), OctetAt(ns, 1), OctetAt(ns, 2), OctetAt(ns, 3);
            && Octet0(n0, n1) == Eight(NumberWord(ns, 0), 0) && Octet1(n1, n2) == Eight(NumberWord(ns, 0), 1)
            && Octet2(n2, n3) == Eight(NumberWord(ns, 0), 2)
  {
    hide Octet0, Octet1, Octet2, Eight;
    OctetsAreEight(OctetAt(ns, 0), OctetAt(ns, 1), OctetAt(ns, 2), OctetAt(ns, 3));
  }

  lemma {:induction false} DecodedEight(c: seq<Octet>, ns: seq<Octet>, i: nat)
    requires |c| == |ns| && (forall k :: 0 <= k < |c| ==> ns[k] < 64 && Find(c[k]) == ns[k]) && i < |Decoded(c)|
    ensures Decoded(c)[i] == Eight(NumberWord(ns, i / 3), i % 3)
    decreases |c|
  {
    hide Find, Octet0, Octet1, Octet2, Eight, NumberWord, OctetAt;
    if i < 3 {
      EightOfWord(ns);
      DecodedPart(c, ns);
    } else {
      NumberWordLater(ns, i / 3 - 1);
      DecodedEight(c[4..], ns[4..], i - 3);
    }
  }

  /** Octet `i` of the decoding is the eight bits at its place among the six-bit numbers of the characters. */
  lemma DecodedByTable(c: seq<Octet>, ns: seq<Octet>, i: nat)
    requires Entries(c, ns) && i < |Decoded(c)|
    ensures Decoded(c)[i] == Eight(NumberWord(ns, i / 3), i % 3)
  {
    hide Find, Eight, NumberWord, Decoded, IsEntry;
    EntriesFound(c, ns);
    DecodedEight(c, ns, i);
  }

  lemma NumberWordLater(ns: seq<Octet>, g: nat)
    requires |ns| >= 4
    ensures NumberWord(ns[4..], g) == NumberWord(ns, g + 1)
  {
    assert forall i: nat :: OctetAt(ns[4..], i) == OctetAt(ns, i + 4);
  }

  lemma DecodedPart(c: seq<Octet>, ns: seq<Octet>)
    requires |c| == |ns| && forall k :: 0 <= k < |c| ==> Find(c[k]) == ns[k]
    ensures forall i :: 0 <= i < 3 && i < |Decoded(c)| ==>
              Decoded(c)[i] == if i == 0 then Octet0(OctetAt(ns, 0), OctetAt(ns, 1))
                               else if i == 1 then Octet1(OctetAt(ns, 1), OctetAt(ns, 2))
                               else Octet2(OctetAt(ns, 2), OctetAt(ns, 3))
  {
    hide Find, Octet0, Octet1, Octet2;
  }

  // ---------------------------------------------------------------- which characters count

  /** Decoding stops at the first character that is not in the table. */
  lemma InTable(c: Octet)
    ensures IsBase64(c) <==> c in TABLE
  {
    hide CharOf, Find, IsBase64;
    FindMeans(c);
    if IsBase64(c) {
      TableIs(Find(c));
    }
    if c in TABLE {
      TableCounts(c);
    }
  }

  lemma TableCounts(c: Octet)
    requires c in TABLE
    ensures IsBase64(c)
  {
    assert c in UPPER || c in LOWER || c in OTHERS by {
      hide UPPER, LOWER, OTHERS, IsBase64;
    }
    hide TABLE, IsBase64;
    if c in UPPER {
      UpperCounts(c);
    } else if c in LOWER {
      LowerCounts(c);
    } else {
      OthersCount(c);
    }
  }

  lemma UpperCounts(c: Octet)
    requires c in UPPER
    ensures IsBase64(c)
  {
    hide LOWER, OTHERS, TABLE;
  }

  lemma LowerCounts(c: Octet)
    requires c in LOWER
    ensures IsBase64(c)
  {
    hide UPPER, OTHERS, TABLE;
  }

  lemma OthersCount(c: Octet)
    requires c in OTHERS
    ensures IsBase64(c)
  {
    hide UPPER, LOWER, TABLE;
  }
}
