/**
  What the hash of a tree tells apart. Every step of the hash is a bijection in each of its arguments, so trees that
  differ in one place hash alike only when what stands there does.
 */
module SchemaHash {
  import opened Json
  import opened Bits
  import opened SchemaSpec
  import opened SchemaPath
  import opened SchemaKeywords

  // ---------------------------------------------------------------- one step

  /** The FNV prime is odd, so multiplying by it can be undone. */
  function Undo(a: HashCode): HashCode {
    a * 0xCE96_5057_AFF6_957B
  }

  lemma MixUndone(h: HashCode, d: HashCode)
    ensures Undo(Mix(h, d)) == h ^ d
  {
    assert Undo((h ^ d) * 0x100_0000_01B3) == h ^ d;
    hide Undo;
  }

  lemma XorApart(h: HashCode, d: HashCode, e: HashCode)
    ensures h ^ d == h ^ e <==> d == e
    ensures d ^ h == e ^ h <==> d == e
  {
  }

  lemma MixApart(h: HashCode, d: HashCode, e: HashCode)
    ensures Mix(h, d) == Mix(h, e) <==> d == e
    ensures Mix(d, h) == Mix(e, h) <==> d == e
  {
    hide Mix, Undo;
    MixUndone(h, d);
    MixUndone(h, e);
    MixUndone(d, h);
    MixUndone(e, h);
    XorApart(h, d, e);
  }

  // ---------------------------------------------------------------- buffers

  lemma {:induction false} BytesFrom(h: HashCode, g: HashCode, data: Bytes)
    ensures MixBytes(h, data) == MixBytes(g, data) <==> h == g
    decreases data
  {
    hide Mix, Widened;
    if data != [] {
      var d := Widened(data[0]);
      MixApart(d, h, g);
      BytesFrom(Mix(h, d), Mix(g, d), data[1..]);
    }
  }

  lemma {:induction false} BytesAt(h: HashCode, a: Bytes, x: Byte, y: Byte, b: Bytes)
    ensures MixBytes(h, a + [x] + b) == MixBytes(h, a + [y] + b) <==> x == y
    decreases a
  {
    hide Mix, Widened;
    var s, t := a + [x] + b, a + [y] + b;
    if a == [] {
      assert s[0] == x && s[1..] == b && t[0] == y && t[1..] == b;
      var d, e := Widened(x), Widened(y);
      WidenedApart(x, y);
      MixApart(h, d, e);
      BytesFrom(Mix(h, d), Mix(h, e), b);
    } else {
      assert s[0] == a[0] && s[1..] == a[1..] + [x] + b && t[0] == a[0] && t[1..] == a[1..] + [y] + b;
      BytesAt(Mix(h, Widened(a[0])), a[1..], x, y, b);
    }
  }

  /** Strings that differ in exactly one byte have different hashes. */
  lemma StringsApart(a: Bytes, x: Byte, y: Byte, b: Bytes)
    ensures TreeHash(String(a + [x] + b)) == TreeHash(String(a + [y] + b)) <==> x == y
  {
    hide MixBytes, Mix;
    BytesAt(Mix(FNV_BASIS, STRING_TYPE), a, x, y, b);
  }

  /** null, false and true have different hashes. */
  lemma LiteralsApart()
    ensures TreeHash(Null) != TreeHash(Bool(false)) && TreeHash(Null) != TreeHash(Bool(true))
    ensures TreeHash(Bool(false)) != TreeHash(Bool(true))
  {
    hide Mix;
    MixApart(FNV_BASIS, NULL_TYPE, FALSE_TYPE);
    MixApart(FNV_BASIS, NULL_TYPE, TRUE_TYPE);
    MixApart(FNV_BASIS, FALSE_TYPE, TRUE_TYPE);
  }

  /** FNV-1a of the type byte alone, from the basis the code starts with; and of empty arrays and objects, from 0. */
  lemma KnownHash()
    ensures TreeHash(Null) == 0x789E_9D39_8D40_976C
    ensures TreeHash(Bool(false)) == 0x789E_9E39_8D40_991F
    ensures TreeHash(Bool(true)) == 0x789E_9F39_8D40_9AD2
    ensures TreeHash(Object([])) == 0x0000_0300_0000_0519
    ensures TreeHash(Array([])) == 0x0000_0400_0000_06CC
  {
  }

  /** FNV-1a of the type byte 5 and the letter "a". */
  lemma KnownStringHash()
    ensures TreeHash(String([0x61])) == 0x3612_41CB_04B8_6AF6
  {
    hide Mix, MixBytes, Widened, TreeHash;
    StringHashIs([0x61]);
    OneByte(Mix(FNV_BASIS, STRING_TYPE), 0x61);
    WidenedLetter();
    FirstStep();
    SecondStep();
  }

  lemma StringHashIs(s: Bytes)
    ensures TreeHash(String(s)) == MixBytes(Mix(FNV_BASIS, STRING_TYPE), s)
  {
    hide Mix, MixBytes;
  }

  lemma OneByte(h: HashCode, b: Byte)
    ensures MixBytes(h, [b]) == Mix(h, Widened(b))
  {
    hide Mix, Widened;
    assert [b][1..] == [];
    assert MixBytes(Mix(h, Widened(b)), []) == Mix(h, Widened(b));
  }

  lemma FirstStep()
    ensures Mix(FNV_BASIS, STRING_TYPE) == 0x789E_9A39_8D40_9253
  {
  }

  lemma SecondStep()
    ensures Mix(0x789E_9A39_8D40_9253, 0x61) == 0x3612_41CB_04B8_6AF6
  {
  }

  // ---------------------------------------------------------------- arrays

  lemma {:induction false} ElementsFrom(h: HashCode, g: HashCode, es: seq<HashCode>)
    ensures ArrayHash(h, es) == ArrayHash(g, es) <==> h == g
    decreases es
  {
    hide Mix;
    if es != [] {
      MixApart(es[0], h, g);
      ElementsFrom(Mix(h, es[0]), Mix(g, es[0]), es[1..]);
    }
  }

  lemma {:induction false} ElementsAt(h: HashCode, a: seq<HashCode>, x: HashCode, y: HashCode, b: seq<HashCode>)
    ensures ArrayHash(h, a + [x] + b) == ArrayHash(h, a + [y] + b) <==> x == y
    decreases a
  {
    hide Mix;
    var s, t := a + [x] + b, a + [y] + b;
    if a == [] {
      assert s[0] == x && s[1..] == b && t[0] == y && t[1..] == b;
      MixApart(h, x, y);
      ElementsFrom(Mix(h, x), Mix(h, y), b);
    } else {
      assert s[0] == a[0] && s[1..] == a[1..] + [x] + b && t[0] == a[0] && t[1..] == a[1..] + [y] + b;
      ElementsAt(Mix(h, a[0]), a[1..], x, y, b);
    }
  }

  lemma {:induction false} ElementHashesAround(a: seq<Value>, v: Value, b: seq<Value>)
    ensures ElementHashes(a + [v] + b) == ElementHashes(a) + [TreeHash(v)] + ElementHashes(b)
    decreases a
  {
    hide TreeHash;
    var s := a + [v] + b;
    if a == [] {
      assert s[0] == v && s[1..] == b;
    } else {
      assert s[0] == a[0] && s[1..] == a[1..] + [v] + b;
      ElementHashesAround(a[1..], v, b);
    }
  }

  /** Arrays that differ in one element hash alike exactly when those elements do. */
  lemma ArraysApart(a: seq<Value>, v: Value, w: Value, b: seq<Value>)
    ensures TreeHash(Array(a + [v] + b)) == TreeHash(Array(a + [w] + b)) <==> TreeHash(v) == TreeHash(w)
  {
    hide ArrayHash, Mix, ElementHashes;
    ElementHashesAround(a, v, b);
    ElementHashesAround(a, w, b);
    ElementsAt(Mix(0, ARRAY_TYPE), ElementHashes(a), TreeHash(v), TreeHash(w), ElementHashes(b));
    ArrayHashIs(a + [v] + b);
    ArrayHashIs(a + [w] + b);
  }

  lemma ArrayHashIs(vs: seq<Value>)
    ensures TreeHash(Array(vs)) == ArrayHash(Mix(0, ARRAY_TYPE), ElementHashes(vs))
  {
    hide ArrayHash, Mix, ElementHashes;
  }

  // ---------------------------------------------------------------- objects

  lemma {:induction false} MembersFrom(h: HashCode, g: HashCode, ms: seq<Member>)
    ensures XorAll(h, ms) == XorAll(g, ms) <==> h == g
    decreases ms
  {
    hide MemberMix, Xor;
    if ms != [] {
      XorFirst(MemberMix(ms[0]), h, g);
      MembersFrom(Xor(h, MemberMix(ms[0])), Xor(g, MemberMix(ms[0])), ms[1..]);
    }
  }

  lemma XorFirst(h: HashCode, d: HashCode, e: HashCode)
    ensures Xor(d, h) == Xor(e, h) <==> d == e
    ensures Xor(h, d) == Xor(h, e) <==> d == e
  {
    XorApart(h, d, e);
  }

  lemma OneMember(a: seq<Member>, m: Member, n: Member, b: seq<Member>)
    ensures TreeHash(Object(a + [m] + b)) == TreeHash(Object(a + [n] + b)) <==> MemberMix(m) == MemberMix(n)
  {
    hide XorAll, Xor, MemberMix, ObjectHash, Mix, MemberHashes;
    var h := Mix(0, OBJECT_TYPE);
    ObjectHashIs(a + [m] + b);
    ObjectHashIs(a + [n] + b);
    ObjectHashIsXor(h, a + [m] + b);
    ObjectHashIsXor(h, a + [n] + b);
    XorPull(h, a, m, b);
    XorPull(h, a, n, b);
    MembersFrom(Xor(h, MemberMix(m)), Xor(h, MemberMix(n)), a + b);
    XorFirst(h, MemberMix(m), MemberMix(n));
  }

  lemma ObjectHashIs(ms: seq<Member>)
    ensures TreeHash(Object(ms)) == ObjectHash(Mix(0, OBJECT_TYPE), MemberHashes(ms))
  {
    hide ObjectHash, Mix, MemberHashes;
  }

  /** Objects that differ in the value of one member hash alike exactly when those values do. */
  lemma MemberValuesApart(a: seq<Member>, name: Bytes, v: Value, w: Value, b: seq<Member>)
    ensures TreeHash(Object(a + [Member(name, v)] + b)) == TreeHash(Object(a + [Member(name, w)] + b))
       <==> TreeHash(v) == TreeHash(w)
  {
    hide TreeHash, MemberMix, Mix, BufferHash;
    OneMember(a, Member(name, v), Member(name, w), b);
    MemberMixMeans(Member(name, v));
    MemberMixMeans(Member(name, w));
    MixApart(BufferHash(STRING_TYPE, name), TreeHash(v), TreeHash(w));
  }

  /** Objects that differ in the name of one member hash alike exactly when the names do, as strings. */
  lemma MemberNamesApart(a: seq<Member>, name: Bytes, other: Bytes, v: Value, b: seq<Member>)
    ensures TreeHash(Object(a + [Member(name, v)] + b)) == TreeHash(Object(a + [Member(other, v)] + b))
       <==> TreeHash(String(name)) == TreeHash(String(other))
  {
    hide MemberMix, Mix, BufferHash;
    OneMember(a, Member(name, v), Member(other, v), b);
    MemberMixMeans(Member(name, v));
    MemberMixMeans(Member(other, v));
    MixApart(TreeHash(v), BufferHash(STRING_TYPE, name), BufferHash(STRING_TYPE, other));
  }

  // ---------------------------------------------------------------- what uniqueItems and enum make of it

  /** {"uniqueItems": true} accepts an array of two elements exactly when their hashes differ. */
  lemma UniquePair(p: Producer, v: Value, w: Value)
    ensures Accepts(p, Typeless().(uniqueItems := true), Array([v, w])) <==> TreeHash(v) != TreeHash(w)
  {
    hide Accepts, TreeHash;
    var s := Typeless().(uniqueItems := true);
    ElementsJudged(p, s, [v, w]);
    assert forall i :: 0 <= i < 2 ==> ElementAccepted(p, s, i, [v, w][i]);
    assert (forall i, j :: 0 <= i < j < |[v, w]| ==> TreeHash([v, w][i]) != TreeHash([v, w][j])) <==>
           TreeHash([v, w][0]) != TreeHash([v, w][1]);
  }

  /** Two strings that differ in exactly one byte are unique. */
  lemma UniqueStrings(p: Producer, a: Bytes, x: Byte, y: Byte, b: Bytes)
    requires x != y
    ensures Accepts(p, Typeless().(uniqueItems := true), Array([String(a + [x] + b), String(a + [y] + b)]))
  {
    hide Accepts, TreeHash;
    StringsApart(a, x, y, b);
    UniquePair(p, String(a + [x] + b), String(a + [y] + b));
  }

  /** An enum compiled from one tree accepts exactly the trees that hash like it. */
  lemma EnumOfOne(p: Producer, v: Value, w: Value)
    ensures Accepts(p, Typeless().(enumHashes := [TreeHash(v)]), w) <==> TreeHash(w) == TreeHash(v)
  {
    hide Accepts, TreeHash;
    var s := Typeless().(enumHashes := [TreeHash(v)]);
    AcceptsMeans(p, s, w);
    EnumOnly(s, w);
    hide Allows;
    assert s.enumHashes[0] == TreeHash(v);
  }

  /** Adding an enum to {} adds its condition and nothing else. */
  lemma EnumOnly(s: Schema, w: Value)
    requires s == Typeless().(enumHashes := s.enumHashes)
    ensures Allows(s, w) <==> EnumAllows(s, w)
  {
    hide TreeHash, EnumAllows;
    if w.Array? {
      assert forall i :: 0 <= i < |w.elements| ==> ElementAllows(s, i, w.elements[i]);
    }
    if w.Object? {
      assert forall k :: 0 <= k < |w.members| ==> MemberAllows(s, w.members[k]);
    }
  }

  // ---------------------------------------------------------------- integers

  lemma {:induction false} LittleEndianApart(x: nat, y: nat, count: nat)
    requires x < Power(count) && y < Power(count)
    ensures |LittleEndian(x, count)| == count
    ensures LittleEndian(x, count) == LittleEndian(y, count) <==> x == y
    decreases count
  {
    if count > 0 {
      var a, b := LittleEndian(x / 256, count - 1), LittleEndian(y / 256, count - 1);
      LittleEndianApart(x / 256, y / 256, count - 1);
      LittleEndianApart(y / 256, x / 256, count - 1);
      assert ([x % 256] + a)[0] == x % 256 && ([x % 256] + a)[1..] == a;
      assert ([y % 256] + b)[0] == y % 256 && ([y % 256] + b)[1..] == b;
    }
  }

  function Power(count: nat): nat {
    if count == 0 then 1 else 256 * Power(count - 1)
  }

  lemma PowerEight()
    ensures Power(8) == 0x1_0000_0000_0000_0000
  {
    assert Power(4) == 0x1_0000_0000;
  }

  lemma {:induction false} BitLengthBounds(m: nat)
    ensures m < Pow2(BitLength(m)) && (m > 0 ==> Pow2(BitLength(m) - 1) <= m)
    decreases m
  {
    if m > 0 {
      BitLengthBounds(m / 2);
    }
  }

  lemma {:induction false} Pow2Monotone(a: nat, b: nat)
    requires a <= b
    ensures Pow2(a) <= Pow2(b)
    decreases b
  {
    if a < b {
      Pow2Monotone(a, b - 1);
    }
  }

  lemma {:induction false} Pow2Sum(a: nat, b: nat)
    ensures Pow2(a + b) == Pow2(a) * Pow2(b)
    decreases a
  {
    if a > 0 {
      Pow2Sum(a - 1, b);
    }
  }

  lemma SmallPowers()
    ensures Pow2(1) == 2 && Pow2(3) == 8 && Pow2(5) == 32
  {
    assert Pow2(2) == 4 && Pow2(4) == 16;
  }

  lemma KnownPowers()
    ensures Pow2(53) == 0x20_0000_0000_0000 && Pow2(64) == 0x1_0000_0000_0000_0000
  {
    hide Pow2;
    SmallPowers();
    Pow2Sum(5, 5);
    Pow2Sum(10, 10);
    Pow2Sum(20, 20);
    Pow2Sum(40, 10);
    Pow2Sum(3, 50);
    Pow2Sum(1, 10);
    Pow2Sum(11, 53);
  }

  /** The significand, of 53 bits, before the rounding carries. */
  lemma Significand(m: nat, length: nat)
    requires 0 < m < Pow2(64) && length == BitLength(m)
    ensures 1 <= length <= 64
    ensures length <= 53 ==> m * Pow2(53 - length) <= Pow2(53)
    ensures length > 53 ==> m / Pow2(length - 53) < Pow2(53)
  {
    BitLengthBounds(m);
    if length > 64 {
      Pow2Monotone(64, length - 1);
    }
    if length <= 53 {
      Pow2Sum(length, 53 - length);
      Product(m, Pow2(length), Pow2(53 - length));
    } else {
      Pow2Sum(length - 53, 53);
      Quotient(m, Pow2(length - 53), Pow2(53));
    }
  }

  lemma Product(a: nat, b: nat, c: nat)
    requires a < b
    ensures a * c <= b * c
  {
  }

  lemma Quotient(m: nat, unit: nat, q: nat)
    requires unit > 0 && m < unit * q
    ensures m / unit < q
  {
    var r := m / unit;
    assert m == r * unit + m % unit;
    if q <= r {
      ProductMonotone(q, r, unit);
    }
  }

  lemma ProductMonotone(a: nat, b: nat, c: nat)
    requires a <= b
    ensures a * c <= b * c
  {
  }

  /**
    The double of an integer: the sign bit, the exponent that its length calls for, and the 53-bit significand nearest
    to it, the even one of two that are equally near.
   */
  lemma NearestDouble(n: JsonInt) returns (length: nat, significand: nat)
    requires n != 0
    ensures var m: nat := if n < 0 then -n else n;
            && 1 <= length && Pow2(length - 1) <= m < Pow2(length)
            && DoubleBits(n) == (if n < 0 then 0x8000_0000_0000_0000 else 0)
                                + (length + 1022) * 0x10_0000_0000_0000 + significand - 0x10_0000_0000_0000
            && (length <= 53 ==> significand == m * Pow2(53 - length))
            && (length > 53 ==> Nearest(m, Pow2(length - 53), significand))
  {
    hide Pow2, BitLength, Nearest;
    var m: nat := if n < 0 then -n else n;
    length := BitLength(m);
    BitLengthBounds(m);
    NoLength(m);
    if length <= 53 {
      significand := m * Pow2(53 - length);
    } else {
      significand := Rounded(m, Pow2(length - 53));
    }
  }

  /** The multiple of the unit that is nearest to `m`, or the even one of two. */
  predicate Nearest(m: int, unit: int, q: int) {
    var off := m - q * unit;
    0 - unit <= 2 * off <= unit && (2 * off == unit || 2 * off == 0 - unit ==> q % 2 == 0)
  }

  lemma Rounded(m: nat, unit: nat) returns (s: nat)
    requires unit > 0
    ensures var q, twice := m / unit, 2 * (m % unit);
            s == if twice > unit || (twice == unit && q % 2 == 1) then q + 1 else q
    ensures Nearest(m, unit, s)
  {
    hide Nearest;
    var q, r := m / unit, m % unit;
    s := if 2 * r > unit || (2 * r == unit && q % 2 == 1) then q + 1 else q;
    assert m == q * unit + r;
    if s == q {
      RoundedDown(m, unit, q, r);
    } else {
      RoundedUp(m, unit, q, r);
    }
  }

  lemma RoundedDown(m: int, unit: int, q: int, r: int)
    requires m == q * unit + r && 0 <= 2 * r <= unit && (2 * r == unit ==> q % 2 == 0)
    ensures Nearest(m, unit, q)
  {
  }

  lemma RoundedUp(m: int, unit: int, q: int, r: int)
    requires m == q * unit + r && 0 < unit <= 2 * r < 2 * unit && (2 * r == unit ==> q % 2 == 1)
    ensures Nearest(m, unit, q + 1)
  {
    assert (q + 1) * unit == q * unit + unit;
  }

  lemma NoLength(m: nat)
    ensures BitLength(m) == 0 <==> m == 0
  {
  }

  /** The sign is the top bit of the double. */
  lemma SignBit(n: JsonInt)
    ensures DoubleBits(n) < 0x1_0000_0000_0000_0000
    ensures n < 0 <==> DoubleBits(n) >= 0x8000_0000_0000_0000
  {
    hide Pow2, BitLength;
    if n != 0 {
      var m: nat := if n < 0 then -n else n;
      KnownPowers();
      Significand(m, BitLength(m));
    }
  }

  /** Different integers are hashed from different bytes. */
  lemma IntegerImagesApart(m: JsonInt, n: JsonInt)
    ensures NumberImage(m) == NumberImage(n) <==> m == n
  {
    hide DoubleBits, LittleEndian;
    var x := if m < 0 then m + 0x1_0000_0000_0000_0000 else m;
    var y := if n < 0 then n + 0x1_0000_0000_0000_0000 else n;
    PowerEight();
    SignBit(m);
    SignBit(n);
    LittleEndianApart(x, y, 8);
    LittleEndianApart(y, x, 8);
    LittleEndianApart(DoubleBits(m), DoubleBits(n), 8);
    LittleEndianApart(DoubleBits(n), DoubleBits(m), 8);
    assert NumberImage(m)[..8] == LittleEndian(x, 8) && NumberImage(n)[..8] == LittleEndian(y, 8);
    assert NumberImage(m)[8..] == LittleEndian(DoubleBits(m), 8) && NumberImage(n)[8..] == LittleEndian(DoubleBits(n), 8);
  }
}
