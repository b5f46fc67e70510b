/** Operands, responses and products of binary32 and binary64 words
    (examples/functional_float/fp32_product.py, fp64_product.py). */
module FloatArithmetic {
  import opened Bits
  import opened Scaling
  import opened FloatValue
  import opened FloatFormats
  import opened FloatSticky
  import opened FloatFused
  import opened Fp32Round
  import opened Fp64Round

  // ------------------------------------------------------------------- operands

  datatype Operand = Operand(
    sign: nat, exponent: nat, mantissa: nat, zero: bool, inf: bool, nan: bool, snan: bool)

  /** Lines 54 to 68 of fp32_product.py and 7 to 23 of fp64_round.py. */
  function UnpackOperand(word: nat, f: Format): Operand
    requires Supported(f)
  {
    var exponent, fraction := Shifted(word, f.precision) % (f.maximum + 1), Dropped(word, f.precision);
    var nan := exponent == f.maximum && fraction != 0;
    Operand(
      SignOf(f, word), if exponent == 0 then 1 else exponent,
      if exponent == 0 then fraction else Pow2(f.precision) + fraction,
      exponent == 0 && fraction == 0, exponent == f.maximum && fraction == 0,
      nan, nan && Shifted(fraction, f.precision - 1) % 2 == 0)
  }

  lemma OperandIs(word: nat, f: Format)
    requires Supported(f)
    ensures var n, u := Magnitude(f, word), UnpackOperand(word, f);
            && u.sign == SignOf(f, word) < 2
            && u.mantissa == Significand(f, n) < Pow2(f.precision + 1)
            && u.exponent + Base(f) - 1 == Place(f, n) && 1 <= u.exponent <= f.maximum
            && (Finite(f, word) ==> u.exponent < f.maximum)
            && u.zero == (n == 0) && u.inf == (n == InfinityWord(f)) && u.nan == (n > InfinityWord(f))
            && u.snan == Signalling(f, n)
            && (u.mantissa == 0 <==> n == 0) && (n == 0 ==> u.exponent == 1)
            && (u.exponent > 1 ==> u.mantissa >= Pow2(f.precision))
  {
    hide Pow2, Shifted, Dropped, Scale, InfinityWord, Magnitude, Signalling;
    var n := Magnitude(f, word);
    UnpackIs(word, f);
    SignallingIs(f, n);
    WordFields(f, word);
    SplitAt(n, f.precision);
    InfinityIs(f, Exponent(f, n), Fraction(f, n));
    ScaleZero(f.precision);
  }

  /** A response: the word and its flags. */
  datatype Response = Response(
    result: nat, valid: bool, invalid: bool, overflow: bool, underflow: bool, inexact: bool, zero: bool)

  function Packed32(sign: nat, magnitude: nat, lsb: int): Response {
    var r := RoundPack(sign, magnitude, U11(lsb));
    Response(r.result, true, false, r.overflow, r.underflow, r.inexact, r.zero)
  }

  function Packed64(sign: nat, magnitude: nat, lsb: int): Response {
    var r := RoundFp64(sign, magnitude, U13(lsb));
    Response(r.result, true, false, r.overflow, r.underflow, r.inexact, r.zero)
  }

  /** What both kernels owe: the nearest word, infinity past the largest finite one, an inexact
      flag that tells whether it differs from the exact value, and an underflow flag that tells
      whether it does so below the smallest normal word. */
  predicate Rounds(r: Response, f: Format, sign: nat, x: Exact, n: nat)
    requires Supported(f)
  {
    && Nearest(f, x, n)
    && r.result == Signed(f, sign, AtMost(n, InfinityWord(f)))
    && r.overflow == (n >= InfinityWord(f))
    && r.inexact == (r.overflow || !Same(2 * Value(f, n), x))
    && r.underflow == (n < Pow2(f.precision) && !Same(2 * Value(f, n), x))
    && r.zero == (n == 0)
  }

  lemma Packs32(sign: nat, y: nat, lsb: nat, x: Exact)
    requires Proper(x) && Tracks(x, y, lsb + 3584) && Pow2(25) <= y < Pow2(64) && lsb <= 1900
    ensures Rounds(Packed32(sign, y, lsb), BINARY32, sign, x, RoundedWord(BINARY32, y, lsb + 3584))
  {
    hide Scale, Pow2, Tracks, RoundPack, RoundedWord, Nearest, Same, Leading, Value, InfinityWord, Proper;
    LeadingBelow(y, 64);
    RoundPackIs(sign, y, lsb);
    TrackRounds(BINARY32, x, y, lsb + 3584);
  }

  lemma Packs64(sign: nat, y: nat, lsb: nat, x: Exact)
    requires Proper(x) && Tracks(x, y, lsb) && Pow2(54) <= y < Pow2(128) && lsb <= 8000
    ensures Rounds(Packed64(sign, y, lsb), BINARY64, sign, x, RoundedWord(BINARY64, y, lsb))
  {
    hide Scale, Pow2, Tracks, RoundFp64, RoundedWord, Nearest, Same, Leading, Value, InfinityWord, Proper, PackFloat;
    LeadingBelow(y, 128);
    RoundFp64Is(sign, y, lsb);
    PackIs(sign, y, lsb, BINARY64);
    PackFlags(sign, y, lsb, BINARY64);
    TrackRounds(BINARY64, x, y, lsb);
  }

  lemma PacksWhole32(sign: nat, y: nat, lsb: nat)
    requires y < Pow2(64) && lsb <= (if y == 0 then 600 else 1900)
    ensures Scale(y, lsb + 3584) >= 0
    ensures var n := RoundedWord(BINARY32, y, lsb + 3584);
            Rounds(Packed32(sign, y, lsb), BINARY32, sign, Whole(Scale(y, lsb + 3584)), n)
  {
    hide Scale, Pow2, RoundedWord, Nearest, Same, Leading, Value, InfinityWord, RoundPack;
    var n := RoundedWord(BINARY32, y, lsb + 3584);
    RoundedIsNearest(BINARY32, y, lsb + 3584);
    SameWhole(Value(BINARY32, n), Scale(y, lsb + 3584));
    if y != 0 { LeadingBelow(y, 64); }
    RoundPackIs(sign, y, lsb);
  }

  lemma PacksWhole64(sign: nat, y: nat, lsb: nat)
    requires y < Pow2(128) && lsb <= (if y == 0 then 5000 else 8000)
    ensures Scale(y, lsb) >= 0
    ensures Rounds(Packed64(sign, y, lsb), BINARY64, sign, Whole(Scale(y, lsb)), RoundedWord(BINARY64, y, lsb))
  {
    hide Scale, Pow2, RoundedWord, Nearest, Same, Leading, Value, InfinityWord, PackFloat, RoundFp64;
    var n := RoundedWord(BINARY64, y, lsb);
    RoundedIsNearest(BINARY64, y, lsb);
    SameWhole(Value(BINARY64, n), Scale(y, lsb));
    if y != 0 { LeadingBelow(y, 128); }
    RoundFp64Is(sign, y, lsb);
    PackIs(sign, y, lsb, BINARY64);
    PackFlags(sign, y, lsb, BINARY64);
  }

  // -------------------------------------------------------------------- products

  function XorSign(a: Operand, b: Operand): nat { (a.sign + b.sign) % 2 }

  /** The choice between NaN, infinity and the rounded product, shared by both widths. */
  function ProductResult(a: Operand, b: Operand, rounded: Response, f: Format, requestValid: bool): Response
    requires Supported(f)
  {
    var anyInf := a.inf || b.inf;
    var invalid := a.snan || b.snan || (a.inf && b.zero) || (a.zero && b.inf);
    var anyNan := a.nan || b.nan || invalid;
    var finite := !(a.nan || b.nan || anyInf);
    Response(
      if anyNan then QuietNan(f)
      else if anyInf then Signed(f, XorSign(a, b), Field(f.maximum, f.precision))
      else rounded.result,
      requestValid && !invalid, invalid, rounded.overflow && finite, rounded.underflow && finite,
      rounded.inexact && finite, rounded.zero && finite)
  }

  function MulFinite(lhs: nat, rhs: nat, requestValid: bool): Response {
    var a, b := UnpackOperand(lhs, BINARY32), UnpackOperand(rhs, BINARY32);
    var rounded := Packed32(XorSign(a, b), Times(a.mantissa, b.mantissa), a.exponent + b.exponent + 212);
    ProductResult(a, b, rounded, BINARY32, requestValid)
  }

  function ProductFp64(lhs: nat, rhs: nat, requestValid: bool): Response {
    var a, b := UnpackOperand(lhs, BINARY64), UnpackOperand(rhs, BINARY64);
    var rounded := Packed64(XorSign(a, b), Times(a.mantissa, b.mantissa), a.exponent + b.exponent + 1946);
    ProductResult(a, b, rounded, BINARY64, requestValid)
  }

  /** The product of two finite binary32 words is the exact product rounded once. */
  lemma Product32Rounds(lhs: nat, rhs: nat, requestValid: bool) returns (n: nat)
    requires Finite(BINARY32, lhs) && Finite(BINARY32, rhs)
    ensures var f, sign := BINARY32, (SignOf(BINARY32, lhs) + SignOf(BINARY32, rhs)) % 2;
            var exact := ExactProduct(f, Magnitude(f, lhs), Magnitude(f, rhs));
            && exact >= 0 && Rounds(MulFinite(lhs, rhs, requestValid), f, sign, Whole(exact), n)
            && !MulFinite(lhs, rhs, requestValid).invalid && MulFinite(lhs, rhs, requestValid).valid == requestValid
  {
    hide Scale, Pow2, RoundedWord, Nearest, Same, Value, InfinityWord, Packed32, UnpackOperand, Place, Significand,
      SignOf, Magnitude, QuietNan;
    OperandIs(lhs, BINARY32);
    OperandIs(rhs, BINARY32);
    var a, b := UnpackOperand(lhs, BINARY32), UnpackOperand(rhs, BINARY32);
    var y, lsb := Times(a.mantissa, b.mantissa), a.exponent + b.exponent + 212;
    ProductBound(a.mantissa, b.mantissa, 24);
    Pow2Grows(48, 64);
    NoZeroDivisors(a.mantissa, b.mantissa);
    n := RoundedWord(BINARY32, y, lsb + 3584);
    PacksWhole32(XorSign(a, b), y, lsb);
  }

  lemma NoZeroDivisors(x: nat, y: nat)
    ensures Times(x, y) == 0 ==> x == 0 || y == 0
  {
    if x > 0 && y > 0 { ProductOrder(1, x, y); }
  }

  lemma Product64Rounds(lhs: nat, rhs: nat, requestValid: bool) returns (n: nat)
    requires Finite(BINARY64, lhs) && Finite(BINARY64, rhs)
    ensures var f, sign := BINARY64, (SignOf(BINARY64, lhs) + SignOf(BINARY64, rhs)) % 2;
            var exact := ExactProduct(f, Magnitude(f, lhs), Magnitude(f, rhs));
            && exact >= 0 && Rounds(ProductFp64(lhs, rhs, requestValid), f, sign, Whole(exact), n)
            && !ProductFp64(lhs, rhs, requestValid).invalid && ProductFp64(lhs, rhs, requestValid).valid == requestValid
  {
    hide Scale, Pow2, RoundedWord, Nearest, Same, Value, InfinityWord, Packed64, UnpackOperand, Place, Significand,
      SignOf, Magnitude, QuietNan;
    OperandIs(lhs, BINARY64);
    OperandIs(rhs, BINARY64);
    var a, b := UnpackOperand(lhs, BINARY64), UnpackOperand(rhs, BINARY64);
    var y, lsb := Times(a.mantissa, b.mantissa), a.exponent + b.exponent + 1946;
    ProductBound(a.mantissa, b.mantissa, 53);
    Pow2Grows(106, 128);
    NoZeroDivisors(a.mantissa, b.mantissa);
    n := RoundedWord(BINARY64, y, lsb);
    PacksWhole64(XorSign(a, b), y, lsb);
  }
}
