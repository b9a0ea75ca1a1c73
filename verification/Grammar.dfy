/**
  The JSON grammar of RFC 8259, written as derivations with their text and their meaning, and the reader measured
  against it: sound and complete.
 */
module Grammar {
  import opened Json
  import opened Numbers
  import opened ReaderSpec
  import opened RoundTrip

  // ---------------------------------------------------------------- white space (section 2)

  /** ws = *( %x20 / %x09 / %x0A / %x0D ). */
  predicate WhiteSpace(s: Bytes) {
    forall i :: 0 <= i < |s| ==> s[i] == 0x20 || s[i] == 0x09 || s[i] == 0x0A || s[i] == 0x0D
  }

  lemma WhiteSpaceIsBlank(s: Bytes)
    ensures WhiteSpace(s) <==> AllBlank(s)
  {
  }

  // ---------------------------------------------------------------- numbers (section 6)

  datatype Fraction = NoFraction | Fraction(digits: Bytes)

  datatype Exponent = NoExponent | Exponent(e: Byte, sign: Bytes, digits: Bytes)

  datatype Num = Num(minus: bool, whole: Bytes, fraction: Fraction, exponent: Exponent)

  predicate LegalFraction(f: Fraction) {
    f.Fraction? ==> f.digits != [] && AllDigits(f.digits)
  }

  predicate LegalExponent(x: Exponent) {
    x.Exponent? ==>
      && (x.e == 0x65 || x.e == 0x45)
      && (x.sign == [] || x.sign == [0x2B] || x.sign == [0x2D])
      && x.digits != [] && AllDigits(x.digits)
  }

  predicate LegalNum(n: Num) {
    && n.whole != [] && AllDigits(n.whole) && (n.whole[0] == 0x30 ==> |n.whole| == 1)
    && LegalFraction(n.fraction) && LegalExponent(n.exponent)
  }

  function FractionText(f: Fraction): Bytes {
    if f.NoFraction? then [] else [0x2E] + f.digits
  }

  function ExponentText(x: Exponent): Bytes {
    if x.NoExponent? then [] else [x.e] + (x.sign + x.digits)
  }

  function SignText(minus: bool): Bytes {
    if minus then [0x2D] else []
  }

  function NumText(n: Num): Bytes {
    SignText(n.minus) + (n.whole + (FractionText(n.fraction) + ExponentText(n.exponent)))
  }

  /** An integer literal within 64 bits is reported exactly; anything else as a double. */
  function NumEvent(n: Num): Event
    requires LegalNum(n)
  {
    if n.fraction.NoFraction? && n.exponent.NoExponent? && !ExceedsInteger(n.minus, DecValue(n.whole)) then
      IntegerEvent(n.minus, DecValue(n.whole))
    else DoubleE(NumText(n))
  }

  /** How far a positive exponent may go beyond 308: one for each fraction digit folded into the significand. */
  function Room(big: bool, whole: nat, intDigits: nat, f: Fraction): nat
    requires 0 < intDigits && LegalFraction(f)
  {
    if big || f.NoFraction? then 0 else CountedFraction(whole, intDigits - 1, f.digits)
  }

  /** An exponent, not negative, that goes beyond `maxExp`. */
  predicate TooFar(x: Exponent, maxExp: nat)
    requires LegalExponent(x)
  {
    x.Exponent? && x.sign != [0x2D] && DecValue(x.digits) > maxExp
  }

  /** The literals refused for their magnitude: integer digits beyond the guard, or too large an exponent. */
  predicate Refused(n: Num)
    requires LegalNum(n)
  {
    var whole := DecValue(n.whole);
    var big := ExceedsInteger(n.minus, whole);
    || (big && whole / 10 >= DoubleGuard())
    || TooFar(n.exponent, 308 + Room(big, whole, |n.whole|, n.fraction))
  }

  lemma Associate(a: Bytes, b: Bytes, c: Bytes)
    ensures a + b + c == a + (b + c)
  {
  }

  lemma HeadTail(s: Bytes)
    requires s != []
    ensures s == [s[0]] + s[1..] && Peek(s) == s[0]
  {
  }

  lemma DropHead(a: Bytes, s: Bytes)
    ensures (a + s)[|a|..] == s && (a + s)[..|a|] == a && (a != [] ==> Peek(a + s) == a[0])
    ensures |a| == 1 ==> (a + s)[1..] == s
  {
  }

  lemma RunSplit(s: Bytes)
    ensures var k := DigitRun(s); s == s[..k] + s[k..] && AllDigits(s[..k])
  {
  }

  lemma SignedSound(maxExp: nat, u: Bytes, start: int) returns (sign: Bytes, d: Bytes)
    requires ExponentTail(maxExp, u, start).Tail?
    ensures u == sign + d + ExponentTail(maxExp, u, start).rest && ExponentTail(maxExp, u, start).isDouble
    ensures (sign == [] || sign == [0x2B] || sign == [0x2D]) && d != [] && AllDigits(d)
  {
    hide DecValue, DigitRun, AllDigits;
    var t := if Peek(u) == 0x2B || Peek(u) == 0x2D then u[1..] else u;
    var k := DigitRun(t);
    RunSplit(t);
    d := t[..k];
    if Peek(u) == 0x2B || Peek(u) == 0x2D {
      HeadTail(u);
      sign := [u[0]];
      Associate(sign, d, t[k..]);
    } else {
      sign := [];
      assert [] + d == d;
    }
  }

  lemma ExponentSound(isDouble: bool, maxExp: nat, s: Bytes, start: int) returns (x: Exponent)
    requires ExponentAt(isDouble, maxExp, s, start).Tail?
    ensures LegalExponent(x) && s == ExponentText(x) + ExponentAt(isDouble, maxExp, s, start).rest
    ensures ExponentAt(isDouble, maxExp, s, start).isDouble == (isDouble || x.Exponent?)
  {
    hide ExponentTail, AllDigits;
    if Peek(s) == 0x65 || Peek(s) == 0x45 {
      HeadTail(s);
      var sign, d := SignedSound(maxExp, s[1..], start);
      x := Exponent(s[0], sign, d);
      Associate([s[0]], sign + d, ExponentTail(maxExp, s[1..], start).rest);
    } else {
      x := NoExponent;
      assert [] + s == s;
    }
  }

  lemma FractionSound(big: bool, whole: nat, intDigits: nat, s: Bytes, start: int) returns (f: Fraction, x: Exponent)
    requires 0 < intDigits && FractionAt(big, whole, intDigits, s, start).Tail?
    ensures LegalFraction(f) && LegalExponent(x)
    ensures var t := FractionAt(big, whole, intDigits, s, start);
            && s == FractionText(f) + ExponentText(x) + t.rest
            && (t.isDouble <==> big || f.Fraction? || x.Exponent?)
  {
    hide ExponentAt, ExponentText, CountedFraction, DigitRun, AllDigits, LegalExponent;
    if Peek(s) != 0x2E {
      f := NoFraction;
      x := ExponentSound(big, 308, s, start);
      assert FractionText(f) + ExponentText(x) == ExponentText(x);
    } else {
      HeadTail(s);
      var u := s[1..];
      var k := DigitRun(u);
      RunSplit(u);
      f := Fraction(u[..k]);
      var room := if big then 0 else CountedFraction(whole, intDigits - 1, u[..k]);
      assert s[1 + k..] == u[k..];
      x := ExponentSound(true, 308 + room, u[k..], start);
      Associate([0x2E], u[..k], u[k..]);
      Associate(FractionText(f), ExponentText(x), ExponentAt(true, 308 + room, u[k..], start).rest);
    }
  }

  lemma NumTextSplit(n: Num, rest: Bytes)
    ensures NumText(n) + rest
         == SignText(n.minus) + (n.whole + (FractionText(n.fraction) + ExponentText(n.exponent) + rest))
  {
    hide SignText, FractionText, ExponentText;
    var more := FractionText(n.fraction) + ExponentText(n.exponent);
    Associate(SignText(n.minus), n.whole + more, rest);
    Associate(n.whole, more, rest);
  }

  lemma WholePart(body: Bytes)
    requires IsDigit(Peek(body))
    ensures var k := IntDigits(body);
            && body == body[..k] + body[k..] && body[..k] != [] && AllDigits(body[..k])
            && (body[..k][0] == 0x30 ==> k == 1)
  {
  }

  /** What `NumberAt` does after the integer part. */
  function AfterInteger(s: Bytes, minus: bool, whole: nat, t: Tail): Scalar
    requires t.Tail? && !t.isDouble ==> !ExceedsInteger(minus, whole)
    requires t.Tail? ==> |t.rest| <= |s|
  {
    match t
    case TailError(code, left) => ScalarError(code, left)
    case Tail(isDouble, rest) =>
      if isDouble then Scalar(DoubleE(s[..|s| - |rest|]), rest) else Scalar(IntegerEvent(minus, whole), rest)
  }

  lemma NumberMeans(s: Bytes, minus: bool, body: Bytes)
    requires minus == (Peek(s) == 0x2D) && body == (if minus then s[1..] else s)
    ensures !IsDigit(Peek(body)) ==> NumberAt(s).ScalarError?
    ensures IsDigit(Peek(body)) ==>
              var k := IntDigits(body);
              var whole := DecValue(body[..k]);
              var big := ExceedsInteger(minus, whole);
              if big && whole / 10 >= DoubleGuard() then NumberAt(s) == ScalarError(NumberTooBig, |s|)
              else NumberAt(s) == AfterInteger(s, minus, whole, FractionAt(big, whole, k, body[k..], |s|))
  {
    hide FractionAt, DecValue, DoubleGuard, IntegerEvent, IntDigits;
  }

  /** Every number the reader takes is a number of the grammar, and is reported as its meaning. */
  lemma NumberSound(s: Bytes) returns (n: Num)
    requires NumberAt(s).Scalar?
    ensures LegalNum(n) && s == NumText(n) + NumberAt(s).rest && NumberAt(s).event == NumEvent(n)
  {
    hide FractionAt, FractionText, ExponentText, DecValue, DoubleGuard, IntegerEvent, IntDigits, NumberAt, AllDigits,
         LegalExponent, LegalFraction, NumText, ExceedsInteger;
    var minus := Peek(s) == 0x2D;
    var body := if minus then s[1..] else s;
    NumberMeans(s, minus, body);
    WholePart(body);
    var k := IntDigits(body);
    var whole := DecValue(body[..k]);
    var f, x := FractionSound(ExceedsInteger(minus, whole), whole, k, body[k..], |s|);
    n := Num(minus, body[..k], f, x);
    NumTextSplit(n, NumberAt(s).rest);
    if minus {
      HeadTail(s);
    } else {
      assert SignText(false) + body == body;
    }
    DropHead(NumText(n), NumberAt(s).rest);
  }

  lemma SignedComplete(maxExp: nat, sign: Bytes, d: Bytes, tail: Bytes, start: int)
    requires EndsNumber(tail) && (sign == [] || sign == [0x2B] || sign == [0x2D]) && d != [] && AllDigits(d)
    ensures ExponentTail(maxExp, sign + d + tail, start)
         == if sign != [0x2D] && DecValue(d) > maxExp then TailError(NumberTooBig, start) else Tail(true, tail)
  {
    hide DecValue, DigitRun;
    var u := sign + d + tail;
    var t := d + tail;
    Associate(sign, d, tail);
    DropHead(sign, t);
    DropHead(d, tail);
    RunOf(d, tail);
    assert sign == [] ==> u == t;
  }

  lemma ExponentComplete(isDouble: bool, maxExp: nat, x: Exponent, tail: Bytes, start: int)
    requires EndsNumber(tail) && LegalExponent(x)
    ensures ExponentAt(isDouble, maxExp, ExponentText(x) + tail, start)
         == if TooFar(x, maxExp) then TailError(NumberTooBig, start) else Tail(isDouble || x.Exponent?, tail)
  {
    hide ExponentTail;
    if x.NoExponent? {
      assert ExponentText(x) + tail == tail;
    } else {
      SignedComplete(maxExp, x.sign, x.digits, tail, start);
      Associate([x.e], x.sign + x.digits, tail);
      DropHead([x.e], x.sign + x.digits + tail);
    }
  }

  lemma ExponentStarts(x: Exponent, tail: Bytes)
    requires EndsNumber(tail) && LegalExponent(x)
    ensures Peek(ExponentText(x) + tail) != 0x2E && !IsDigit(Peek(ExponentText(x) + tail))
  {
    if x.NoExponent? {
      assert ExponentText(x) + tail == tail;
    }
  }

  lemma PointMeans(big: bool, whole: nat, intDigits: nat, d: Bytes, u: Bytes, start: int)
    requires 0 < intDigits && d != [] && AllDigits(d) && !IsDigit(Peek(u))
    ensures var room := if big then 0 else CountedFraction(whole, intDigits - 1, d);
            FractionAt(big, whole, intDigits, [0x2E] + (d + u), start) == ExponentAt(true, 308 + room, u, start)
  {
    hide ExponentAt, CountedFraction, DigitRun, AllDigits;
    var s := [0x2E] + (d + u);
    DropHead([0x2E], d + u);
    DropHead(d, u);
    RunOf(d, u);
    assert s[1 + |d|..] == u;
  }

  lemma FractionComplete(big: bool, whole: nat, intDigits: nat, f: Fraction, x: Exponent, tail: Bytes, start: int)
    requires 0 < intDigits && EndsNumber(tail) && LegalFraction(f) && LegalExponent(x)
    ensures FractionAt(big, whole, intDigits, FractionText(f) + ExponentText(x) + tail, start)
         == if TooFar(x, 308 + Room(big, whole, intDigits, f)) then TailError(NumberTooBig, start)
            else Tail(big || f.Fraction? || x.Exponent?, tail)
  {
    hide ExponentAt, ExponentText, CountedFraction, LegalExponent, AllDigits, FractionAt, EndsNumber, TooFar;
    var u := ExponentText(x) + tail;
    ExponentStarts(x, tail);
    Associate(FractionText(f), ExponentText(x), tail);
    if f.NoFraction? {
      assert FractionText(f) + u == u;
      NoPoint(big, whole, intDigits, u, start);
      ExponentComplete(big, 308, x, tail, start);
    } else {
      var d := f.digits;
      Associate([0x2E], d, u);
      PointMeans(big, whole, intDigits, d, u, start);
      var room := if big then 0 else CountedFraction(whole, intDigits - 1, d);
      ExponentComplete(true, 308 + room, x, tail, start);
    }
  }

  lemma NoPoint(big: bool, whole: nat, intDigits: nat, u: Bytes, start: int)
    requires 0 < intDigits && Peek(u) != 0x2E
    ensures FractionAt(big, whole, intDigits, u, start) == ExponentAt(big, 308, u, start)
  {
  }

  lemma AfterWhole(f: Fraction, x: Exponent, tail: Bytes)
    requires EndsNumber(tail) && LegalExponent(x)
    ensures !IsDigit(Peek(FractionText(f) + ExponentText(x) + tail))
  {
    hide ExponentText;
    ExponentStarts(x, tail);
    Associate(FractionText(f), ExponentText(x), tail);
    if f.NoFraction? {
      assert FractionText(f) + (ExponentText(x) + tail) == ExponentText(x) + tail;
    }
  }

  lemma WholeRun(whole: Bytes, more: Bytes)
    requires whole != [] && AllDigits(whole) && (whole[0] == 0x30 ==> |whole| == 1) && !IsDigit(Peek(more))
    ensures IsDigit(Peek(whole + more)) && IntDigits(whole + more) == |whole| && Peek(whole + more) != 0x2D
  {
    hide DigitRun;
    RunOf(whole, more);
  }

  /** Every number of the grammar is reported as its meaning, unless it is one of those refused for their magnitude. */
  lemma NumberComplete(n: Num, tail: Bytes)
    requires LegalNum(n) && EndsNumber(tail)
    ensures NumberAt(NumText(n) + tail)
         == if Refused(n) then ScalarError(NumberTooBig, |NumText(n) + tail|) else Scalar(NumEvent(n), tail)
  {
    hide FractionAt, FractionText, ExponentText, DecValue, DoubleGuard, IntegerEvent, IntDigits, NumberAt, AllDigits,
         LegalExponent, LegalFraction, NumText, ExceedsInteger, EndsNumber, TooFar, Room;
    var s := NumText(n) + tail;
    var more := FractionText(n.fraction) + ExponentText(n.exponent) + tail;
    var body := n.whole + more;
    NumTextSplit(n, tail);
    AfterWhole(n.fraction, n.exponent, tail);
    WholeRun(n.whole, more);
    DropHead(n.whole, more);
    if n.minus {
      DropHead([0x2D], body);
    } else {
      assert SignText(false) + body == body;
    }
    NumberMeans(s, n.minus, body);
    var whole := DecValue(n.whole);
    FractionComplete(ExceedsInteger(n.minus, whole), whole, |n.whole|, n.fraction, n.exponent, tail, |s|);
    DropHead(NumText(n), tail);
  }

  lemma {:induction false} Pow10Sum(a: nat, b: nat)
    ensures Pow10(a + b) == Pow10(a) * Pow10(b)
    decreases a
  {
    if a > 0 {
      Pow10Sum(a - 1, b);
    }
  }

  lemma TenToTheThree()
    ensures Pow10(3) == 1000
  {
  }

  lemma TenToThe291()
    ensures Pow10(291) == 0x669d0918621fd93794670de972af9af5bb6adeb966d46d5cb3922c9cbe2eb226c945b1079c98327bd5b7b3ee0130e199ae8035dc95a3191a629ad83686091f5220e86292839c4d148cd39b48e2f5da29dd70ebefe8000000000000000000000000000000000000000000000000000000000000000000000000
  {
    hide Pow10;
    TenToTheThree();
    Pow10Sum(3, 3);
    Pow10Sum(6, 3);
    Pow10Sum(9, 9);
    Pow10Sum(18, 18);
    Pow10Sum(36, 36);
    Pow10Sum(72, 72);
    Pow10Sum(144, 144);
    Pow10Sum(288, 3);
  }

  /**
    The guard is the largest double to seventeen digits, less one power of ten: with one digit more, what it lets
    pass stays within the largest double, 2^1024 - 2^971.
   */
  lemma GuardMeans()
    ensures var largest := 0xfffffffffffff800000000000000000000000000000000000000000000000000000000000000000000000000000000000000000000000000000000000000000000000000000000000000000000000000000000000000000000000000000000000000000000000000000000000000000000000000000000000000000000000000;
            10 * DoubleGuard() <= largest < 10 * DoubleGuard() + 10 * Pow10(291)
  {
    TenToThe291();
    hide Pow10;
  }

  /**
    Once the significand is beyond 2^53 - 1, fraction digits count until there are seventeen significant ones; up to
    there all count.
   */
  lemma {:induction false} RoomMeans(significand: nat, digits: nat, f: Bytes)
    requires AllDigits(f)
    ensures significand > 0x1F_FFFF_FFFF_FFFF ==>
              CountedFraction(significand, digits, f)
              == if digits >= 17 then 0 else if |f| <= 17 - digits then |f| else 17 - digits
    ensures significand <= 0x1F_FFFF_FFFF_FFFF && f != [] ==>
              CountedFraction(significand, digits, f)
              == 1 + CountedFraction(significand * 10 + (f[0] - 0x30),
                                     if significand == 0 && f[0] == 0x30 then digits else digits + 1, f[1..])
    decreases f
  {
    if f != [] {
      RoomMeans(significand, digits + 1, f[1..]);
    }
  }

  /**
    The exponent is measured by its digits alone: "0e309" is refused, although it is zero, and so is "1e309", while
    "1e308" and "10e308", which no double can hold, are both taken.
   */
  lemma RefusedByExponent()
    ensures Refused(Num(false, [0x30], NoFraction, Exponent(0x65, [], [0x33, 0x30, 0x39])))
    ensures Refused(Num(false, [0x31], NoFraction, Exponent(0x65, [], [0x33, 0x30, 0x39])))
    ensures !Refused(Num(false, [0x31], NoFraction, Exponent(0x65, [], [0x33, 0x30, 0x38])))
    ensures !Refused(Num(false, [0x31, 0x30], NoFraction, Exponent(0x65, [], [0x33, 0x30, 0x38])))
  {
    hide DoubleGuard;
    ThreeDigits(0x39);
    ThreeDigits(0x38);
    ZeroValue();
    assert [0x31, 0x30][..1] == [0x31];
    assert [0x31][..0] == [];
  }

  lemma ThreeDigits(last: Byte)
    requires IsDigit(last)
    ensures DecValue([0x33, 0x30, last]) == 300 + (last - 0x30)
  {
    assert [0x33, 0x30, last][..2] == [0x33, 0x30] && [0x33, 0x30][..1] == [0x33] && [0x33][..0] == [];
  }

  /**
    An integer literal of any length is reported exactly, as Uint, Uint64, Int or Int64 by its sign and range, falls
    to double only beyond 64 bits, and is refused only when it has at least one digit more than the double guard.
   */
  lemma IntegerLiteral(minus: bool, whole: Bytes, tail: Bytes)
    requires whole != [] && AllDigits(whole) && (whole[0] == 0x30 ==> |whole| == 1) && EndsNumber(tail)
    ensures var v: int := if minus then 0 - DecValue(whole) as int else DecValue(whole);
            var r := NumberAt(SignText(minus) + whole + tail);
            && (!minus && v <= 0xFFFF_FFFF ==> r == Scalar(NumE(Uint, v), tail))
            && (!minus && 0xFFFF_FFFF < v <= 0xFFFF_FFFF_FFFF_FFFF ==> r == Scalar(NumE(Uint64, v), tail))
            && (minus && -0x8000_0000 <= v ==> r == Scalar(NumE(Int, v), tail))
            && (minus && -0x8000_0000_0000_0000 <= v < -0x8000_0000 ==> r == Scalar(NumE(Int64, v), tail))
            && ((if minus then v < -0x8000_0000_0000_0000 else v > 0xFFFF_FFFF_FFFF_FFFF) ==>
                  r == if DecValue(whole) < 10 * DoubleGuard() then Scalar(DoubleE(SignText(minus) + whole), tail)
                       else ScalarError(NumberTooBig, |SignText(minus) + whole + tail|))
  {
    hide DecValue, DoubleGuard, IntDigits, NumberAt, AllDigits, FractionAt;
    var n := Num(minus, whole, NoFraction, NoExponent);
    var s := SignText(minus) + whole + tail;
    assert NumText(n) == SignText(minus) + whole;
    NumberComplete(n, tail);
    var body := whole + tail;
    Associate(SignText(minus), whole, tail);
    WholeRun(whole, tail);
    DropHead(whole, tail);
    if minus {
      DropHead([0x2D], body);
    } else {
      assert SignText(false) + body == body;
    }
    NumberMeans(s, minus, body);
    NoPoint(ExceedsInteger(minus, DecValue(whole)), DecValue(whole), |whole|, tail, |s|);
  }

  // ---------------------------------------------------------------- strings (section 7)

  /** One character of a string, on bytes: which bytes make up characters is not the reader's concern. */
  datatype Letter =
    | Plain(b: Byte)
    | Short(e: Byte)
    | Code(hex: Bytes)

  predicate LegalLetter(l: Letter) {
    match l
    case Plain(b) => b >= 0x20 && b != 0x22 && b != 0x5C
    case Short(e) =>
      e == 0x22 || e == 0x5C || e == 0x2F || e == 0x62 || e == 0x66 || e == 0x6E || e == 0x72 || e == 0x74
    case Code(hex) => |hex| == 4 && HasHex4(hex)
  }

  function LetterText(l: Letter): Bytes {
    match l
    case Plain(b) => [b]
    case Short(e) => [0x5C, e]
    case Code(hex) => [0x5C, 0x75] + hex
  }

  /** The bytes a letter denotes by itself. */
  function LetterBytes(l: Letter): Bytes
    requires LegalLetter(l)
  {
    match l
    case Plain(b) => [b]
    case Short(e) =>
      [if e == 0x62 then 0x08 else if e == 0x66 then 0x0C else if e == 0x6E then 0x0A else if e == 0x72 then 0x0D
       else if e == 0x74 then 0x09 else e]
    case Code(hex) => Utf8(Hex4(hex))
  }

  predicate LegalLetters(ls: seq<Letter>) {
    forall i :: 0 <= i < |ls| ==> LegalLetter(ls[i])
  }

  /** An escape that names a leading surrogate. */
  predicate LeadLetter(l: Letter) {
    l.Code? && HasHex4(l.hex) && IsLead(Hex4(l.hex))
  }

  predicate TrailLetter(l: Letter) {
    l.Code? && HasHex4(l.hex) && IsTrail(Hex4(l.hex))
  }

  /** A surrogate pair comes first. */
  predicate PairFirst(ls: seq<Letter>) {
    |ls| >= 2 && LeadLetter(ls[0]) && TrailLetter(ls[1])
  }

  /** From the first leading surrogate that no trailing one follows at once; nothing when all are paired. */
  function FromUnpaired(ls: seq<Letter>): seq<Letter> {
    if ls == [] then []
    else if PairFirst(ls) then FromUnpaired(ls[2..])
    else if LeadLetter(ls[0]) then ls
    else FromUnpaired(ls[1..])
  }

  /** The grammar derives such strings, but they denote no text. */
  predicate Unpaired(ls: seq<Letter>) {
    FromUnpaired(ls) != []
  }

  function LettersText(ls: seq<Letter>): Bytes {
    if ls == [] then [] else LetterText(ls[0]) + LettersText(ls[1..])
  }

  /** The character a surrogate pair names. */
  function PairBytes(lead: Letter, trail: Letter): Bytes
    requires LeadLetter(lead) && TrailLetter(trail)
  {
    Utf8((Hex4(lead.hex) - 0xD800) * 1024 + (Hex4(trail.hex) - 0xDC00) + 0x10000)
  }

  /** The bytes a string denotes, surrogate pairs taken together. */
  function LettersBytes(ls: seq<Letter>): Bytes
    requires LegalLetters(ls)
  {
    if ls == [] then []
    else if PairFirst(ls) then PairBytes(ls[0], ls[1]) + LettersBytes(ls[2..])
    else LetterBytes(ls[0]) + LettersBytes(ls[1..])
  }

  /** The quoted string. */
  function StringLiteral(ls: seq<Letter>): Bytes {
    [0x22] + LettersText(ls) + [0x22]
  }

  lemma FourHex(s: Bytes)
    requires HasHex4(s)
    ensures s == s[..4] + s[4..] && HasHex4(s[..4]) && Hex4(s[..4]) == Hex4(s)
  {
  }

  lemma EscapeSplit(s: Bytes)
    requires |s| >= 2 && s[0] == 0x5C
    ensures s == [0x5C, s[1]] + s[2..] && Peek(s[1..]) == s[1] && s[1..][1..] == s[2..]
  {
  }

  lemma PairSound(lead: nat, s: Bytes, left: nat) returns (trail: Bytes)
    requires IsLead(lead) && PairAt(lead, s, left).Chunk?
    ensures |trail| == 4 && HasHex4(trail) && IsTrail(Hex4(trail))
    ensures s == [0x5C, 0x75] + trail + s[6..] && PairAt(lead, s, left).rest == s[6..]
    ensures PairAt(lead, s, left).bytes == Utf8((lead - 0xD800) * 1024 + (Hex4(trail) - 0xDC00) + 0x10000)
  {
    hide Utf8, Hex4, HasHex4;
    EscapeSplit(s);
    FourHex(s[2..]);
    trail := s[2..][..4];
    assert s[2..][4..] == s[6..];
    Associate([0x5C, 0x75], trail, s[6..]);
  }

  /** What one turn of the reader's loop takes: a letter, or a surrogate pair. */
  lemma LetterSound(s: Bytes) returns (ls: seq<Letter>)
    requires UnitAt(s).Chunk?
    ensures LegalLetters(ls) && s == LettersText(ls) + UnitAt(s).rest
    ensures (|ls| == 1 && !LeadLetter(ls[0]) && UnitAt(s).bytes == LetterBytes(ls[0]))
         || (|ls| == 2 && PairFirst(ls) && UnitAt(s).bytes == PairBytes(ls[0], ls[1]))
  {
    hide Utf8, Hex4, HasHex4, PairAt, LettersText;
    if Peek(s) != 0x5C {
      ls := [Plain(s[0])];
      HeadTail(s);
    } else if Unescape(Peek(s[1..])) != 0 {
      ls := [Short(s[1])];
      EscapeSplit(s);
    } else {
      EscapeSplit(s);
      FourHex(s[2..]);
      var hex := s[2..][..4];
      assert s[2..][4..] == s[6..];
      Associate([0x5C, 0x75], hex, s[6..]);
      if !IsLead(Hex4(s[2..])) {
        ls := [Code(hex)];
      } else {
        var trail := PairSound(Hex4(s[2..]), s[6..], |s|);
        ls := [Code(hex), Code(trail)];
        TwoLetters(ls[0], ls[1]);
        Associate([0x5C, 0x75] + hex, [0x5C, 0x75] + trail, s[6..][6..]);
        return;
      }
    }
    OneLetter(ls[0]);
  }

  lemma OneLetter(l: Letter)
    ensures LettersText([l]) == LetterText(l)
  {
    hide LetterText;
    assert [l][1..] == [] && LettersText([]) == [];
    assert LetterText(l) + [] == LetterText(l);
  }

  lemma TwoLetters(l: Letter, m: Letter)
    ensures LettersText([l, m]) == LetterText(l) + LetterText(m)
  {
    hide LetterText;
    assert [l, m][1..] == [m];
    OneLetter(m);
  }

  lemma {:induction false} LettersTextJoin(a: seq<Letter>, b: seq<Letter>)
    ensures LettersText(a + b) == LettersText(a) + LettersText(b)
    decreases a
  {
    hide LetterText;
    if a == [] {
      assert a + b == b;
    } else {
      assert (a + b)[1..] == a[1..] + b;
      LettersTextJoin(a[1..], b);
      Associate(LetterText(a[0]), LettersText(a[1..]), LettersText(b));
    }
  }

  lemma LettersJoin(ls: seq<Letter>, more: seq<Letter>)
    requires LegalLetters(ls) && LegalLetters(more)
    requires (|ls| == 1 && !LeadLetter(ls[0])) || (|ls| == 2 && PairFirst(ls))
    ensures LegalLetters(ls + more) && FromUnpaired(ls + more) == FromUnpaired(more)
    ensures LettersBytes(ls + more)
         == (if |ls| == 1 then LetterBytes(ls[0]) else PairBytes(ls[0], ls[1])) + LettersBytes(more)
  {
    hide LegalLetter, LetterBytes, PairBytes, LeadLetter, TrailLetter;
    assert (ls + more)[|ls|..] == more;
  }

  /**
    Every string the reader takes is a string of the grammar with its surrogates paired, and denotes what was
    delivered.
   */
  lemma {:induction false} StringSound(s: Bytes) returns (ls: seq<Letter>)
    requires StringAt(s).StringText?
    ensures LegalLetters(ls) && !Unpaired(ls) && s == LettersText(ls) + [0x22] + StringAt(s).rest
    ensures StringAt(s).content == LettersBytes(ls)
    decreases |s|
  {
    hide UnitAt, LegalLetter, LetterText, LetterBytes, PairBytes, LettersBytes, LettersText, FromUnpaired, LeadLetter,
         TrailLetter;
    var u := UnitAt(s);
    if u.Close? {
      ls := [];
      CloseQuote(s);
      NoLetters();
      assert [] + [0x22] == [0x22];
    } else {
      var first := LetterSound(s);
      var more := StringSound(u.rest);
      ls := first + more;
      LettersJoin(first, more);
      LettersTextJoin(first, more);
      var tail := [0x22] + StringAt(u.rest).rest;
      Associate(LettersText(more), [0x22], StringAt(u.rest).rest);
      Associate(LettersText(first), LettersText(more), tail);
      Associate(LettersText(ls), [0x22], StringAt(u.rest).rest);
    }
  }

  lemma NoLetters()
    ensures LegalLetters([]) && LettersText([]) == [] && LettersBytes([]) == [] && FromUnpaired([]) == []
  {
  }

  lemma CloseQuote(s: Bytes)
    requires UnitAt(s).Close?
    ensures s == [0x22] + UnitAt(s).rest
  {
    HeadTail(s);
  }

  lemma HexHead(hex: Bytes, tail: Bytes)
    requires |hex| == 4 && HasHex4(hex)
    ensures HasHex4(hex + tail) && Hex4(hex + tail) == Hex4(hex)
  {
  }

  lemma PairComplete(lead: nat, trail: Bytes, tail: Bytes, left: nat)
    requires IsLead(lead) && |trail| == 4 && HasHex4(trail) && IsTrail(Hex4(trail))
    ensures PairAt(lead, [0x5C, 0x75] + trail + tail, left)
         == Chunk(Utf8((lead - 0xD800) * 1024 + (Hex4(trail) - 0xDC00) + 0x10000), tail)
  {
    hide Utf8, Hex4, HasHex4;
    var s := [0x5C, 0x75] + trail + tail;
    Associate([0x5C, 0x75], trail, tail);
    DropHead([0x5C, 0x75], trail + tail);
    HexHead(trail, tail);
    assert s[6..] == tail && Peek(s[1..]) == 0x75;
  }

  /** A \\u escape, by the text after its four digits. */
  lemma CodeMeans(hex: Bytes, after: Bytes)
    requires |hex| == 4 && HasHex4(hex)
    ensures var s := [0x5C, 0x75] + (hex + after);
            UnitAt(s) == if !IsLead(Hex4(hex)) then Chunk(Utf8(Hex4(hex)), after) else PairAt(Hex4(hex), after, |s|)
  {
    hide Utf8, Hex4, HasHex4, PairAt;
    var s := [0x5C, 0x75] + (hex + after);
    DropHead([0x5C, 0x75], hex + after);
    HexHead(hex, after);
    assert s[6..] == after && Peek(s[1..]) == 0x75;
  }

  lemma LetterComplete(l: Letter, tail: Bytes)
    requires LegalLetter(l) && !LeadLetter(l)
    ensures UnitAt(LetterText(l) + tail) == Chunk(LetterBytes(l), tail)
  {
    hide Utf8, Hex4, HasHex4, PairAt;
    var s := LetterText(l) + tail;
    if l.Code? {
      CodeMeans(l.hex, tail);
      Associate([0x5C, 0x75], l.hex, tail);
    } else {
      DropHead(LetterText(l), tail);
      assert l.Short? ==> Peek(s[1..]) == l.e;
    }
  }

  /** A leading surrogate is taken with what follows it. */
  lemma LeadTaken(l: Letter, tail: Bytes)
    requires LegalLetter(l) && LeadLetter(l)
    ensures UnitAt(LetterText(l) + tail) == PairAt(Hex4(l.hex), tail, |LetterText(l) + tail|)
  {
    hide Utf8, Hex4, HasHex4, PairAt, UnitAt;
    CodeMeans(l.hex, tail);
    Associate([0x5C, 0x75], l.hex, tail);
  }

  lemma CoupleComplete(l: Letter, m: Letter, tail: Bytes)
    requires LegalLetter(l) && LegalLetter(m) && LeadLetter(l) && TrailLetter(m)
    ensures UnitAt(LetterText(l) + (LetterText(m) + tail)) == Chunk(PairBytes(l, m), tail)
  {
    hide Utf8, Hex4, HasHex4, PairAt, UnitAt;
    LeadTaken(l, LetterText(m) + tail);
    PairComplete(Hex4(l.hex), m.hex, tail, |LetterText(l) + (LetterText(m) + tail)|);
  }

  /** A leading surrogate is refused before the closing quote and before any letter but a trailing surrogate. */
  lemma LoneLead(l: Letter, ls: seq<Letter>, tail: Bytes)
    requires LegalLetter(l) && LeadLetter(l) && LegalLetters(ls) && (ls != [] ==> !TrailLetter(ls[0]))
    ensures var s := LetterText(l) + (LettersText(ls) + ([0x22] + tail));
            UnitAt(s) == UnitError(StringUnicodeSurrogateInvalid, |s|)
  {
    hide Utf8, Hex4, UnitAt, LettersText, HasHex4;
    var after := LettersText(ls) + ([0x22] + tail);
    LeadTaken(l, after);
    if ls == [] {
      NoLetters();
      assert after == [0x22] + tail;
    } else {
      var more := LettersText(ls[1..]) + ([0x22] + tail);
      LettersTextStep(ls);
      Associate(LetterText(ls[0]), LettersText(ls[1..]), [0x22] + tail);
      if ls[0].Code? {
        Associate([0x5C, 0x75], ls[0].hex, more);
        DropHead([0x5C, 0x75], ls[0].hex + more);
        HexHead(ls[0].hex, more);
      } else if ls[0].Short? {
        assert Peek(after[1..]) == ls[0].e;
      }
    }
  }

  lemma LettersTextStep(ls: seq<Letter>)
    requires ls != []
    ensures LettersText(ls) == LetterText(ls[0]) + LettersText(ls[1..])
    ensures |ls| >= 2 ==> LettersText(ls) == LetterText(ls[0]) + (LetterText(ls[1]) + LettersText(ls[2..]))
  {
    hide LetterText;
    if |ls| >= 2 {
      assert ls[1..][1..] == ls[2..];
    }
  }

  /** How many bytes are left at the first unpaired leading surrogate. */
  function LeftUnpaired(ls: seq<Letter>, tail: Bytes): nat {
    |LettersText(FromUnpaired(ls))| + 1 + |tail|
  }

  /**
    Every string of the grammar is taken and denotes what is delivered, unless a leading surrogate in it is unpaired;
    then the first of these is the error.
   */
  lemma {:induction false} StringComplete(ls: seq<Letter>, tail: Bytes)
    requires LegalLetters(ls)
    ensures StringAt(LettersText(ls) + [0x22] + tail)
         == if Unpaired(ls) then StringError(StringUnicodeSurrogateInvalid, LeftUnpaired(ls, tail))
            else StringText(LettersBytes(ls), tail)
    decreases ls
  {
    hide UnitAt, LegalLetter, LetterText, LetterBytes, PairBytes, LeadLetter, TrailLetter;
    var quoted := [0x22] + tail;
    Associate(LettersText(ls), [0x22], tail);
    if ls == [] {
      ReadQuote(tail);
      assert LettersText(ls) + quoted == quoted;
    } else if PairFirst(ls) {
      var after := LettersText(ls[2..]) + quoted;
      LettersTextStep(ls);
      Associate(LetterText(ls[0]), LetterText(ls[1]) + LettersText(ls[2..]), quoted);
      Associate(LetterText(ls[1]), LettersText(ls[2..]), quoted);
      CoupleComplete(ls[0], ls[1], after);
      StringComplete(ls[2..], tail);
      Associate(LettersText(ls[2..]), [0x22], tail);
    } else {
      var after := LettersText(ls[1..]) + quoted;
      Associate(LetterText(ls[0]), LettersText(ls[1..]), quoted);
      if LeadLetter(ls[0]) {
        LoneLead(ls[0], ls[1..], tail);
      } else {
        LetterComplete(ls[0], after);
        StringComplete(ls[1..], tail);
        Associate(LettersText(ls[1..]), [0x22], tail);
      }
    }
  }

  /** The string "\\uD800" is one of the grammar, and section 8.2 of RFC 8259 names such; the reader refuses it. */
  lemma LoneSurrogate()
    ensures var ls := [Code([0x44, 0x38, 0x30, 0x30])];
            && LegalLetters(ls) && Unpaired(ls)
            && StringAt(LettersText(ls) + [0x22]) == StringError(StringUnicodeSurrogateInvalid, 7)
  {
    hide StringAt;
    var ls := [Code([0x44, 0x38, 0x30, 0x30])];
    OneLetter(ls[0]);
    StringComplete(ls, []);
    assert LettersText(ls) + [0x22] + [] == LettersText(ls) + [0x22];
  }
}
