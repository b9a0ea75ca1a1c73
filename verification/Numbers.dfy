/**
  The number literals of the reader: what `ParseNumber` must answer for each text,
  stated on digit strings rather than on its accumulators.
 */
module Numbers {
  import opened Json

  datatype ErrorCode =
    | DocumentEmpty
    | DocumentRootNotSingular
    | ValueInvalid
    | ObjectMissName
    | ObjectMissColon
    | ObjectMissCommaOrCurlyBracket
    | ArrayMissCommaOrSquareBracket
    | StringUnicodeEscapeInvalidHex
    | StringUnicodeSurrogateInvalid
    | StringEscapeInvalid
    | StringMissQuotationMark
    | NumberTooBig
    | NumberMissFraction
    | NumberMissExponent
    | UnspecificSyntaxError

  /** A scalar either yields one event and the text after it, or an error at `left` bytes before the end. */
  datatype Scalar = Scalar(event: Event, rest: Bytes) | ScalarError(code: ErrorCode, left: int)

  /** The stream's `Peek`: the terminating NUL is what lies after the text. */
  function Peek(s: Bytes): Byte {
    if s == [] then 0 else s[0]
  }

  predicate IsDigit(b: int) {
    0x30 <= b <= 0x39
  }

  /** Length of the longest prefix made of digits. */
  function DigitRun(s: Bytes): (k: nat)
    ensures k <= |s|
    ensures forall i :: 0 <= i < k ==> IsDigit(s[i])
    ensures !IsDigit(Peek(s[k..]))
  {
    if s != [] && IsDigit(s[0]) then
      assert s[1..][DigitRun(s[1..])..] == s[1 + DigitRun(s[1..])..];
      1 + DigitRun(s[1..])
    else
      0
  }

  predicate AllDigits(d: Bytes) {
    forall i :: 0 <= i < |d| ==> IsDigit(d[i])
  }

  function DecValue(d: Bytes): nat
    requires AllDigits(d)
  {
    if d == [] then 0 else DecValue(d[..|d| - 1]) * 10 + (d[|d| - 1] - 0x30)
  }

  lemma NoValue()
    ensures DecValue([]) == 0
  {
  }

  lemma ZeroValue()
    ensures DecValue([0x30]) == 0
  {
    NoValue();
  }

  lemma DecValueStep(d: Bytes, k: nat)
    requires k < |d| && AllDigits(d[..k + 1])
    ensures AllDigits(d[..k]) && IsDigit(d[k])
    ensures DecValue(d[..k + 1]) == DecValue(d[..k]) * 10 + (d[k] - 0x30)
  {
    assert d[..k + 1][..k] == d[..k];
    assert d[..k + 1][k] == d[k];
  }

  /** A digit found `k` bytes into the text extends the run of the first `k`. */
  lemma NextDigit(d: Bytes, k: nat)
    requires k <= DigitRun(d) && IsDigit(Peek(d[k..]))
    ensures k < DigitRun(d) && Peek(d[k..]) == d[k] && d[k..][1..] == d[k + 1..]
    ensures DecValue(d[..k + 1]) == DecValue(d[..k]) * 10 + (d[k] - 0x30)
  {
    DecValueStep(d, k);
  }

  /** Reading digits until none follows reads the whole run. */
  lemma RunEnds(d: Bytes, k: nat)
    requires k <= DigitRun(d) && !IsDigit(Peek(d[k..]))
    ensures k == DigitRun(d)
  {
  }

  lemma {:induction false} DecValuePrefix(d: Bytes, j: nat)
    requires AllDigits(d) && j <= |d|
    ensures DecValue(d[..j]) <= DecValue(d)
    decreases |d|
  {
    if j < |d| {
      DecValuePrefix(d[..|d| - 1], j);
      assert d[..|d| - 1][..j] == d[..j];
    } else {
      assert d[..j] == d;
    }
  }

  /** A proper prefix is worth at most a tenth. */
  lemma DecValueProperPrefix(d: Bytes, j: nat)
    requires AllDigits(d) && j < |d|
    ensures DecValue(d[..j]) <= DecValue(d) / 10
  {
    DecValuePrefix(d[..|d| - 1], j);
    assert d[..|d| - 1][..j] == d[..j];
  }

  function Pow10(n: nat): nat {
    if n == 0 then 1 else 10 * Pow10(n - 1)
  }

  lemma {:induction false} DecValueBound(d: Bytes)
    requires AllDigits(d)
    ensures DecValue(d) < Pow10(|d|)
  {
    if d != [] {
      DecValueBound(d[..|d| - 1]);
    }
  }

  lemma {:induction false} Pow10Monotone(m: nat, n: nat)
    requires m <= n
    ensures Pow10(m) <= Pow10(n)
  {
    if m < n {
      Pow10Monotone(m, n - 1);
    }
  }

  /** Beyond the 64-bit range there are at least nineteen digits. */
  lemma BigHasManyDigits(d: Bytes)
    requires AllDigits(d) && DecValue(d) > 0x7FFF_FFFF_FFFF_FFFF
    ensures |d| >= 19
  {
    assert Pow10(6) == 1000000 && Pow10(12) == 1000000000000 && Pow10(18) == 1000000000000000000;
    DecValueBound(d);
    if |d| < 19 {
      Pow10Monotone(|d|, 18);
    }
  }

  /** 1.7976931348623157e307, the guard of the big-integer loop. */
  function DoubleGuard(): nat {
    17976931348623157 * Pow10(291)
  }

  const FAST_PATH_MAX := 0x1F_FFFF_FFFF_FFFF
  const SIGNIFICAND_MAX := 17

  /**
    How many fraction digits `ParseNumber` folds into its significand: all while the 64-bit significand
    is at most 2^53 - 1, and from then on only up to seventeen significant digits.
   */
  function CountedFraction(significand: nat, digits: nat, fraction: Bytes): nat
    requires AllDigits(fraction)
    decreases fraction
  {
    if fraction == [] then 0
    else if significand > FAST_PATH_MAX then
      (if digits < SIGNIFICAND_MAX then 1 + CountedFraction(significand, digits + 1, fraction[1..]) else 0)
    else
      var next := significand * 10 + (fraction[0] - 0x30);
      1 + CountedFraction(next, if next != 0 then digits + 1 else digits, fraction[1..])
  }

  lemma CountedStep(significand: nat, digits: nat, fraction: Bytes)
    requires AllDigits(fraction) && fraction != []
    ensures CountedFraction(significand, digits, fraction)
            == if significand <= FAST_PATH_MAX then
                 var next := significand * 10 + (fraction[0] - 0x30);
                 1 + CountedFraction(next, if next != 0 then digits + 1 else digits, fraction[1..])
               else if digits < SIGNIFICAND_MAX then 1 + CountedFraction(significand, digits + 1, fraction[1..])
               else CountedFraction(significand, digits, fraction[1..])
  {
  }

  lemma CountedNone(significand: nat, digits: nat)
    ensures CountedFraction(significand, digits, []) == 0
  {
  }

  /** What follows the integer part. `exponentRoom` is how far a positive exponent may go beyond 308. */
  datatype Tail = Tail(isDouble: bool, rest: Bytes) | TailError(code: ErrorCode, left: int)

  function FractionAt(big: bool, whole: nat, intDigits: nat, s: Bytes, start: int): (t: Tail)
    requires 0 < intDigits
    ensures t.Tail? ==> |t.rest| <= |s|
    ensures big && t.Tail? ==> t.isDouble
  {
    if Peek(s) != 0x2E then ExponentAt(big, 308, s, start)
    else
      var k := DigitRun(s[1..]);
      if k == 0 then TailError(NumberMissFraction, |s| - 1)
      else
        var room := if big then 0 else CountedFraction(whole, intDigits - 1, s[1..][..k]);
        ExponentAt(true, 308 + room, s[1 + k..], start)
  }

  function ExponentAt(isDouble: bool, maxExp: nat, s: Bytes, start: int): (t: Tail)
    ensures t.Tail? ==> |t.rest| <= |s|
  {
    if Peek(s) == 0x65 || Peek(s) == 0x45 then ExponentTail(maxExp, s[1..], start) else Tail(isDouble, s)
  }

  function ExponentTail(maxExp: nat, s: Bytes, start: int): (t: Tail)
    ensures t.Tail? ==> |t.rest| <= |s| && t.isDouble
  {
    var t := if Peek(s) == 0x2B || Peek(s) == 0x2D then s[1..] else s;
    var k := DigitRun(t);
    if k == 0 then TailError(NumberMissExponent, |t|)
    else if Peek(s) != 0x2D && DecValue(t[..k]) > maxExp then TailError(NumberTooBig, start)
    else Tail(true, t[k..])
  }

  /** Beyond 64 bits the digits of the integer part no longer matter. */
  lemma BigTail(whole: nat, intDigits: nat, other: nat, otherDigits: nat, s: Bytes, start: int)
    requires 0 < intDigits && 0 < otherDigits
    ensures FractionAt(true, whole, intDigits, s, start) == FractionAt(true, other, otherDigits, s, start)
  {
  }

  /** Length of the integer part: a leading zero stands alone. */
  function IntDigits(s: Bytes): (k: nat)
    requires IsDigit(Peek(s))
    ensures 0 < k <= |s|
    ensures AllDigits(s[..k])
  {
    if s[0] == 0x30 then 1 else DigitRun(s)
  }

  predicate ExceedsInteger(minus: bool, whole: nat) {
    if minus then whole > -INT64_MIN else whole > UINT64_MAX
  }

  /** `ParseNumber`: the whole literal at the head of `s`. */
  function NumberAt(s: Bytes): (r: Scalar)
    ensures r.Scalar? ==> |r.rest| < |s|
  {
    var minus := Peek(s) == 0x2D;
    var body := if minus then s[1..] else s;
    if !IsDigit(Peek(body)) then ScalarError(ValueInvalid, |body|)
    else
      var k := IntDigits(body);
      var whole := DecValue(body[..k]);
      var big := ExceedsInteger(minus, whole);
      if big && whole / 10 >= DoubleGuard() then ScalarError(NumberTooBig, |s|)
      else
        match FractionAt(big, whole, k, body[k..], |s|)
        case TailError(code, left) => ScalarError(code, left)
        case Tail(isDouble, rest) =>
          if isDouble || big then Scalar(DoubleE(s[..|s| - |rest|]), rest)
          else Scalar(IntegerEvent(minus, whole), rest)
  }

  /** An integer literal is reported exactly, through the callback its range calls for. */
  function IntegerEvent(minus: bool, whole: nat): Event
    requires !ExceedsInteger(minus, whole)
  {
    var magnitude: int := whole;
    var n: JsonInt := if minus then -magnitude else magnitude;
    NumE(LiteralKind(minus, n), n)
  }

  /** The callback for an integer literal; "-0" is reported through `Int`. */
  function LiteralKind(minus: bool, n: JsonInt): (kind: NumKind)
    requires minus ==> n <= 0
    requires !minus ==> 0 <= n
    ensures InKind(kind, n)
  {
    if minus then (if INT32_MIN <= n then Int else Int64)
    else (if n <= UINT32_MAX then Uint else Uint64)
  }
}
