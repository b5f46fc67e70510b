/** Rounding to an integral value in the same format
    (examples/functional_float/float_round_integral.py). */
module FloatRoundIntegral {
  import opened Bits
  import opened Scaling
  import opened FloatValue
  import opened FloatFormats
  import opened FloatFused
  import opened FloatConvert
  import opened FloatArithmetic
  import opened FloatSqrt
  import opened FloatIntegral

  /** The word of 2^precision, from which on every value is an integer. */
  function Boundary(wide64: bool): nat { if wide64 then 0x4330_0000_0000_0000 else 0x4B00_0000 }

  function RoundIntegral(value: nat, wide64: bool, rounding: nat, requestValid: bool): Response {
    var f := FormatWide(wide64);
    var a := UnpackOperand(value, f);
    var small := !(a.inf || a.nan) && Magnitude(f, value) < Boundary(wide64);
    var integral := IntegerBits(value, wide64, false, 64, rounding, false, requestValid);
    var encoded := FromInteger(integral.result, false, if wide64 then 1 else 0, requestValid);
    var rounded := if a.sign == 1 && integral.result == 0 then Pow2(f.position) else encoded.result;
    var result := if a.nan then QuietNan(f) else if small then rounded else Dropped(value, f.position + 1);
    var supported := rounding <= 6;
    Response(
      if supported then result else 0, requestValid && supported && !a.snan, a.snan && supported, false, false,
      small && integral.inexact && supported, Dropped(result, f.position) == 0 && supported)
  }

  lemma ChosenWithin(policy: nat, x: int, j: int, c: nat, s: nat)
    requires Chosen(policy, x, j, s) && 0 - Scale(c, s) <= x <= Scale(c, s)
    ensures 0 - c <= j <= c
  {
    hide Scale;
    ScaleFlipped(c, s);
    ScaleTwice(c, s);
    ScaleTwice(0 - c, s);
    ScaleOrder(2 * j - 1, 2 * c, s);
    ScaleOrder(0 - 2 * c, 2 * j + 1, s);
    ScaleOrder(j, c, s);
    ScaleOrder(0 - c, j, s);
    ScaleOrder(j - 1, c, s);
    ScaleOrder(0 - c, j + 1, s);
  }

  /** The boundary word's value is 2^precision, and words from it on are multiples of one. */
  lemma BoundaryIs(wide64: bool)
    ensures var f, b := FormatWide(wide64), Boundary(wide64);
            b == Scale(f.bias + f.precision, f.precision) && b < InfinityWord(f)
            && Value(f, b) == Scale(Pow2(f.precision), 4096)
  {
    hide Scale, Pow2, Value, InfinityWord;
    var f := FormatWide(wide64);
    var e, p := f.bias + f.precision - 1, f.precision;
    BoundaryField(wide64);
    ScaleZero(p);
    ScaleAdds(e, 1, p);
    ScaleOne(p);
    Pow2Next(p);
    ValueOfQuanta(f, e, Pow2(p));
    InfinityIs(f, f.bias + p, 0);
  }

  lemma BoundaryField(wide64: bool)
    ensures var f := FormatWide(wide64); Boundary(wide64) == Scale(f.bias + f.precision, f.precision)
  {
    hide Pow2;
    PowersOfPrecision();
  }

  /** An integer of at most precision bits, or 2^precision itself, is a value of the format. */
  lemma SmallIntegerExact(wide64: bool, i: nat, n: nat)
    requires i <= Pow2(FormatWide(wide64).precision)
    requires Scale(i, 4096) >= 0 && Nearest(FormatWide(wide64), Whole(Scale(i, 4096)), n)
    ensures Value(FormatWide(wide64), n) == Scale(i, 4096) && n < InfinityWord(FormatWide(wide64))
  {
    hide Scale, Pow2, Value, InfinityWord, Nearest, Boundary, RoundedWord, Dropped, Quanta, Binade, Base, Leading;
    var f := FormatWide(wide64);
    RoundedIsNearest(f, i, 4096);
    NearestUnique(f, Whole(Scale(i, 4096)), n, RoundedWord(f, i, 4096));
    if i == 0 {
      RoundedOfZero(f, 4096);
      ValueZero(f);
      ScaleZero(4096);
    } else {
      Pow2Grows(f.precision + 1, 64);
      Pow2Next(f.precision);
      IntegerQuanta(f, i);
      LeadingBelow(i, f.precision + 1);
      ExactIffNothingDropped(f, i, 4096);
    }
    BoundaryIs(wide64);
    ScaleOrder(i, Pow2(f.precision), 4096);
    ValueOrder(f, Boundary(wide64), n);
  }

  lemma IntegerOfWord(j: int)
    requires 0 - Pow2(63) <= j < Pow2(63)
    ensures Word(j, 64) < Pow2(64) && IntegerOf(Word(j, 64), false) == j && (Word(j, 64) == 0 <==> j == 0)
  {
    hide Pow2, Scale, Word;
    Pow2Next(63);
    ScaleZero(64);
    ScaleMinusOne(64);
    if j >= 0 { WordOf(j, 0, 64); } else { WordOf(j, -1, 64); }
  }

  /** What rounding to integral owes: the same sign, and the value of the policy's integer. */
  ghost predicate IntegralOf(f: Format, value: nat, rounding: nat, r: Response, j: int)
    requires Supported(f)
  {
    var v := Value(f, Magnitude(f, value));
    && Chosen(rounding, Signum(SignOf(f, value), v), j, 4096)
    && r.result < Pow2(f.position + 1) && SignOf(f, r.result) == SignOf(f, value) && Finite(f, r.result)
    && Value(f, Magnitude(f, r.result)) == Scale(Magn(j), 4096)
    && r.inexact == (v != Scale(Magn(j), 4096))
    && (j < 0 ==> SignOf(f, value) == 1) && (j > 0 ==> SignOf(f, value) == 0)
  }

  /** An integer of at most 2^precision in magnitude is encoded without loss. */
  lemma EncodesExactly(wide64: bool, j: int, requestValid: bool)
    requires 0 - Pow2(FormatWide(wide64).precision) <= j <= Pow2(FormatWide(wide64).precision)
    ensures var f := FormatWide(wide64);
            var w := FromInteger(Word(j, 64), false, if wide64 then 1 else 0, requestValid).result;
            && w < Pow2(f.position + 1) && SignOf(f, w) == (if j < 0 then 1 else 0) && Finite(f, w)
            && Value(f, Magnitude(f, w)) == Scale(Magn(j), 4096)
  {
    hide Scale, Pow2, Value, Magnitude, SignOf, InfinityWord, Nearest, FromInteger, Word, Same, IntegerOf;
    var f := FormatWide(wide64);
    Pow2Order(f.precision, 63);
    IntegerOfWord(j);
    var n := FromIntegerRounds(Word(j, 64), false, if wide64 then 1 else 0, requestValid);
    SmallIntegerExact(wide64, Magn(j), n);
    InfinityFits(f);
    PartsOfWord(f, if j < 0 then 1 else 0, n);
    WordFits(f, if j < 0 then 1 else 0, n);
  }

  /** Below the boundary: through a 64-bit integer and back, losing nothing on the way back. */
  lemma SmallIsIntegral(value: nat, wide64: bool, rounding: nat, requestValid: bool) returns (j: int)
    requires var f := FormatWide(wide64); Finite(f, value) && Magnitude(f, value) < Boundary(wide64) && rounding <= 6
    ensures IntegralOf(FormatWide(wide64), value, rounding, RoundIntegral(value, wide64, rounding, requestValid), j)
  {
    hide Scale, Pow2, Value, Magnitude, SignOf, InfinityWord, Boundary, UnpackOperand, IntegerBits, FromInteger, Chosen,
      Word, Wrapped, Dropped, QuietNan;
    var f := FormatWide(wide64);
    var sign, v := SignOf(f, value), Value(f, Magnitude(f, value));
    OperandIs(value, f);
    BoundaryIs(wide64);
    ValueOrder(f, Magnitude(f, value), Boundary(wide64));
    ValueOrder(f, 0, Magnitude(f, value));
    ValueZero(f);
    j := IntegerBitsConverts(value, wide64, false, 64, rounding, false, requestValid);
    ChosenWithin(rounding, Signum(sign, v), j, Pow2(f.precision), 4096);
    Pow2Order(f.precision, 63);
    IntegerOfWord(j);
    SignumScaled(sign, Magn(j), 4096);
    EncodesExactly(wide64, j, requestValid);
    InfinityFits(f);
    InfinityPositive(f);
    PartsOfWord(f, 1, 0);
    MinusZero(f);
    WordFits(f, 1, 0);
    ScaleZero(4096);
  }

  lemma MinusZero(f: Format)
    ensures Signed(f, 1, 0) == Pow2(f.position)
  {
    ScaleOne(f.position);
  }

  lemma WordFits(f: Format, sign: nat, n: nat)
    requires sign < 2 && n < Pow2(f.position)
    ensures Signed(f, sign, n) < Pow2(f.position + 1)
  {
    hide Pow2, Scale;
    Pow2Next(f.position);
    ScaleZero(f.position);
    ScaleOne(f.position);
  }

  /** From the boundary on the word is already integral and is returned as it is. */
  lemma LargeIsIntegral(value: nat, wide64: bool, rounding: nat, requestValid: bool) returns (j: int)
    requires var f := FormatWide(wide64); Finite(f, value) && Magnitude(f, value) >= Boundary(wide64) && rounding <= 6
    ensures IntegralOf(FormatWide(wide64), value, rounding, RoundIntegral(value, wide64, rounding, requestValid), j)
  {
    hide Scale, Pow2, Magnitude, SignOf, InfinityWord, Boundary, UnpackOperand, IntegerBits, FromInteger, Chosen,
      Dropped, QuietNan, RoundMagnitude, Significand, Place, Shifted;
    var f := FormatWide(wide64);
    var a, n := UnpackOperand(value, f), Magnitude(f, value);
    OperandIs(value, f);
    LargePlace(wide64, n);
    IntegerChosen(f, n, a, rounding);
    j := Signum(a.sign, TrueInteger(a, f, rounding));
    OriginalKept(f, value);
  }

  lemma LargePlace(wide64: bool, n: nat)
    requires n >= Boundary(wide64)
    ensures Place(FormatWide(wide64), n) >= 4096
  {
    hide Scale, Pow2, Boundary, Shifted, Dropped;
    var f := FormatWide(wide64);
    var p := f.precision;
    BoundaryIs(wide64);
    SplitAt(n, p);
    if Exponent(f, n) < f.bias + p {
      ScaleOrder(Exponent(f, n) + 1, f.bias + p, p);
      ScaleAdds(Exponent(f, n), 1, p);
      ScaleOne(p);
    }
  }

  /** Cutting a word to its format's bits keeps its sign and magnitude. */
  lemma OriginalKept(f: Format, value: nat)
    ensures var w := Dropped(value, f.position + 1);
            w < Pow2(f.position + 1) && SignOf(f, w) == SignOf(f, value) && Magnitude(f, w) == Magnitude(f, value)
  {
    hide Scale, Pow2, Shifted, Dropped;
    var p := f.position;
    SplitAt(value, p);
    SplitAt(value, p + 1);
    ShiftedShifted(value, p, 1);
    var high := Shifted(value, p);
    ShiftByOne(high);
    ScaleAdds(2 * (high / 2), high % 2, p);
    ScaleNext(high / 2, p);
    SplitUnique(Dropped(value, p + 1), p, high % 2, Dropped(value, p));
  }

  /** The flags of a finite word; a request by an unnamed policy is answered with nothing. */
  lemma IntegralFlags(value: nat, wide64: bool, rounding: nat, requestValid: bool)
    requires Finite(FormatWide(wide64), value)
    ensures var r := RoundIntegral(value, wide64, rounding, requestValid);
            if rounding <= 6 then
              && r.valid == requestValid && !r.invalid && !r.overflow && !r.underflow
              && r.zero == (Magnitude(FormatWide(wide64), r.result) == 0)
            else r == Response(0, false, false, false, false, false, false)
  {
    hide UnpackOperand, IntegerBits, FromInteger, Dropped, Pow2, QuietNan, InfinityWord, SignOf;
    OperandIs(value, FormatWide(wide64));
  }

  /** Every finite word under every policy: the sign is kept, the value is the integer the
      policy selects from the exact one, and inexact says whether it changed. */
  lemma RoundIntegralChooses(value: nat, wide64: bool, rounding: nat, requestValid: bool) returns (j: int)
    requires Finite(FormatWide(wide64), value) && rounding <= 6
    ensures IntegralOf(FormatWide(wide64), value, rounding, RoundIntegral(value, wide64, rounding, requestValid), j)
    ensures var r := RoundIntegral(value, wide64, rounding, requestValid);
            && r.valid == requestValid && !r.invalid && !r.overflow && !r.underflow
            && r.zero == (Magnitude(FormatWide(wide64), r.result) == 0)
  {
    hide IntegralOf, RoundIntegral, Finite, Magnitude, Boundary;
    IntegralFlags(value, wide64, rounding, requestValid);
    if Magnitude(FormatWide(wide64), value) < Boundary(wide64) {
      j := SmallIsIntegral(value, wide64, rounding, requestValid);
    } else {
      j := LargeIsIntegral(value, wide64, rounding, requestValid);
    }
  }

  /** Rounding an integral result again, by the same policy or another, changes nothing and
      raises no inexact flag. */
  lemma RoundIntegralIdempotent(value: nat, wide64: bool, rounding: nat, again: nat, requestValid: bool)
    requires Finite(FormatWide(wide64), value) && rounding <= 6 && again <= 6
    ensures var w := RoundIntegral(value, wide64, rounding, requestValid).result;
            var r := RoundIntegral(w, wide64, again, requestValid);
            r.result == w && !r.inexact
  {
    hide RoundIntegral, Magnitude, SignOf, Value, Scale, Pow2, InfinityWord, Chosen;
    var f := FormatWide(wide64);
    var j := RoundIntegralChooses(value, wide64, rounding, requestValid);
    var w := RoundIntegral(value, wide64, rounding, requestValid).result;
    var k := RoundIntegralChooses(w, wide64, again, requestValid);
    var sign := SignOf(f, w);
    SignumScaled(sign, Magn(j), 4096);
    ChosenExactly(again, Signum(sign, Magn(j)), 4096);
    ChosenUnique(again, Signum(sign, Value(f, Magnitude(f, w))), k, Signum(sign, Magn(j)), 4096);
    var w' := RoundIntegral(w, wide64, again, requestValid).result;
    ValueOrder(f, Magnitude(f, w), Magnitude(f, w'));
    WordOfParts(f, w);
    WordOfParts(f, w');
  }
}
