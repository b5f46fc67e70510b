/** Quotients of binary32 and binary64 words
    (examples/functional_float/fp32_divide.py, fp64_divide.py). */
module FloatQuotient {
  import opened Bits
  import opened Scaling
  import opened FloatValue
  import opened FloatFormats
  import opened FloatSticky
  import opened FloatFused
  import opened FloatConvert
  import opened FloatArithmetic

  datatype QuotientResponse = QuotientResponse(response: Response, divideByZero: bool)

  /** Leading zeros of a significand register of precision + 1 bits. */
  function LeadingZeros(m: nat, f: Format): int {
    if m == 0 then f.precision + 1 else f.precision - Leading(m)
  }

  function ShiftLeft(m: nat, amount: int): nat { if amount < 0 then 0 else Field(m, amount) }

  /** Integer quotient with `guard` extra bits and the remainder ORed into the lowest one. */
  function StickyQuotient(am: nat, bm: nat, guard: nat): nat
    requires bm > 0
  {
    var numerator := Field(am, guard);
    var quotient, remainder := Quotient(numerator, bm), numerator % bm;
    if remainder != 0 && quotient % 2 == 0 then quotient + 1 else quotient
  }

  function QuotientMagnitude(a: Operand, b: Operand, f: Format, guard: nat): nat {
    var bm := ShiftLeft(b.mantissa, LeadingZeros(b.mantissa, f));
    StickyQuotient(
      ShiftLeft(a.mantissa, LeadingZeros(a.mantissa, f)), if b.zero || bm == 0 then 1 else bm, guard)
  }

  function QuotientPlace(a: Operand, b: Operand, f: Format, offset: nat): int {
    a.exponent - b.exponent + LeadingZeros(b.mantissa, f) - LeadingZeros(a.mantissa, f) + offset
  }

  /** The choice between NaN, infinity, zero and the rounded quotient, shared by both widths. */
  function QuotientResult(a: Operand, b: Operand, rounded: Response, f: Format, requestValid: bool): QuotientResponse
    requires Supported(f)
  {
    var invalid := a.snan || b.snan || (a.inf && b.inf) || (a.zero && b.zero);
    var anyNan := a.nan || b.nan || invalid;
    var special := anyNan || a.inf || b.inf || a.zero || b.zero;
    var sign := XorSign(a, b);
    var result :=
      if anyNan then QuietNan(f)
      else if a.inf || b.zero then Signed(f, sign, Field(f.maximum, f.precision))
      else if a.zero || b.inf then Signed(f, sign, 0)
      else rounded.result;
    QuotientResponse(
      Response(
        result, requestValid && !invalid, invalid, rounded.overflow && !special, rounded.underflow && !special,
        rounded.inexact && !special, Dropped(result, f.position) == 0),
      !a.nan && !b.nan && !a.inf && !a.zero && b.zero)
  }

  function DivideBits(lhs: nat, rhs: nat, requestValid: bool): QuotientResponse {
    var a, b := UnpackOperand(lhs, BINARY32), UnpackOperand(rhs, BINARY32);
    var rounded := Packed32(
      XorSign(a, b), QuotientMagnitude(a, b, BINARY32, 32), QuotientPlace(a, b, BINARY32, 480));
    QuotientResult(a, b, rounded, BINARY32, requestValid)
  }

  function DivideFp64(lhs: nat, rhs: nat, requestValid: bool): QuotientResponse {
    var a, b := UnpackOperand(lhs, BINARY64), UnpackOperand(rhs, BINARY64);
    var rounded := Packed64(
      XorSign(a, b), QuotientMagnitude(a, b, BINARY64, 64), QuotientPlace(a, b, BINARY64, 4032));
    QuotientResult(a, b, rounded, BINARY64, requestValid)
  }

  // ------------------------------------------------------ the integer quotient

  /** The sticky quotient stands to every even number as the exact quotient does. */
  lemma StickyQuotientCompares(am: nat, bm: nat, guard: nat, k: int)
    requires bm > 0 && k % 2 == 0
    ensures var n, y := Field(am, guard), StickyQuotient(am, bm, guard);
            (bm * k < n <==> k < y) && (bm * k == n <==> k == y)
  {
    hide Scale, Pow2;
    var n := Field(am, guard);
    var q, r := Quotient(n, bm), n % bm;
    assert n == bm * q + r;
    if k <= q {
      ProductOrder(k, q, bm);
      if k < q { StrictProduct(k, q, bm); }
    } else {
      ProductOrder(q + 1, k, bm);
      assert (q + 1) * bm == bm * q + bm;
    }
  }

  lemma QuotientBracket(am: nat, bm: nat, g: nat)
    requires bm < 2 * am && am < 2 * bm && g > 0
    ensures bm * g < am * (2 * g) < bm * (4 * g)
  {
    StrictProduct(bm, 2 * am, g);
    StrictProduct(am, 2 * bm, 2 * g);
    assert 2 * am * g == am * (2 * g);
    assert 2 * bm * (2 * g) == bm * (4 * g);
  }

  /** A quotient of two normalized significands has guard or guard + 1 bits. */
  lemma StickyQuotientRange(am: nat, bm: nat, guard: nat, p: nat)
    requires Pow2(p) <= am < Pow2(p + 1) && Pow2(p) <= bm < Pow2(p + 1) && guard > 1
    ensures Pow2(guard - 1) < StickyQuotient(am, bm, guard) < Pow2(guard + 1)
  {
    hide Scale, Pow2, StickyQuotient;
    var low := Pow2(guard - 1);
    Pow2Next(p);
    Pow2Next(guard - 2);
    Pow2Next(guard - 1);
    Pow2Next(guard);
    QuotientBracket(am, bm, low);
    ScaleIs(am, guard);
    StickyQuotientCompares(am, bm, guard, low);
    StickyQuotientCompares(am, bm, guard, 4 * low);
  }

  // ------------------------------------------------------------ scaling it back

  /** b.m * 2^pb * (k * 2^l) against a.m * 2^pa, both multiplied by 2^(az + bz + guard). */
  lemma CrossScaled(am: nat, bm: nat, az: nat, bz: nat, pa: nat, pb: nat, l: nat, guard: nat, k: int)
    requires pb + l + az + guard == pa + bz
    ensures var left, right := Scale(bm, pb) * Scale(k, l), Scale(am, pa);
            var e := pa + bz;
            && Scale(left, az + bz + guard) == Scale(Scale(bm, bz) * k, e)
            && Scale(right, az + bz + guard) == Scale(Scale(Scale(am, az), guard), e)
  {
    hide Scale, Pow2;
    var e, s := pa + bz, az + bz + guard;
    calc {
      Scale(Scale(bm, pb) * Scale(k, l), s);
      { ScaleTimes(Scale(bm, pb), k, l); }
      Scale(Scale(Scale(bm, pb) * k, l), s);
      { ScaleTimes(bm, k, pb); }
      Scale(Scale(Scale(bm * k, pb), l), s);
      { ScaleScale(bm * k, pb, l); ScaleScale(bm * k, pb + l, s); }
      Scale(bm * k, bz + e);
      { ScaleScale(bm * k, bz, e); ScaleTimes(bm, k, bz); }
      Scale(Scale(bm, bz) * k, e);
    }
    ScaleScale(am, pa, s);
    ScaleScale(am, az, guard);
    ScaleScale(am, az + guard, e);
  }

  lemma CrossCompares(am: nat, bm: nat, az: nat, bz: nat, pa: nat, pb: nat, l: nat, guard: nat, k: int)
    requires pb + l + az + guard == pa + bz
    ensures var left, right, n := Scale(bm, pb) * Scale(k, l), Scale(am, pa), Scale(Scale(am, az), guard);
            (left < right <==> Scale(bm, bz) * k < n) && (left == right <==> Scale(bm, bz) * k == n)
  {
    hide Scale, Pow2;
    CrossScaled(am, bm, az, bz, pa, pb, l, guard, k);
    ScaleOrder(Scale(bm, pb) * Scale(k, l), Scale(am, pa), az + bz + guard);
    ScaleOrder(Scale(bm, bz) * k, Scale(Scale(am, az), guard), pa + bz);
  }

  /** The quotient of two finite values, in units of 2^-4096. */
  function ExactQuotient(f: Format, m: nat, n: nat): Exact
    requires Supported(f)
    requires Value(f, m) >= 0 && Value(f, n) >= 0
  {
    Ratio(Field(Value(f, m), 4096), Value(f, n))
  }

  lemma Normalized(m: nat, f: Format)
    requires 0 < m < Pow2(f.precision + 1)
    ensures 0 <= LeadingZeros(m, f) <= f.precision
    ensures var am := ShiftLeft(m, LeadingZeros(m, f));
            am == Scale(m, LeadingZeros(m, f)) && Pow2(f.precision) <= am < Pow2(f.precision + 1)
  {
    hide Scale, Pow2;
    LeadingBelow(m, f.precision + 1);
    var l, z := Leading(m), f.precision - Leading(m);
    ScaleOrder(Pow2(l), m, z);
    ScaleOrder(m, Pow2(l + 1), z);
    ScalePow2(l, z);
    ScalePow2(l + 1, z);
  }

  /** The sticky quotient tracks the exact one at the scale the kernel passes to rounding. */
  lemma QuotientTracks(f: Format, m: nat, n: nat, a: Operand, b: Operand, guard: nat)
    requires Supported(f) && guard == (if f == BINARY64 then 64 else 32)
    requires a.mantissa == Significand(f, m) && b.mantissa == Significand(f, n)
    requires a.exponent + Base(f) - 1 == Place(f, m) && b.exponent + Base(f) - 1 == Place(f, n)
    requires 1 <= a.exponent <= f.maximum && 1 <= b.exponent <= f.maximum
    requires 0 < a.mantissa < Pow2(f.precision + 1) && 0 < b.mantissa < Pow2(f.precision + 1) && !b.zero
    ensures Value(f, m) > 0 && Value(f, n) > 0
    ensures QuotientPlace(a, b, f, 4096 - guard) >= 0
    ensures Tracks(ExactQuotient(f, m, n), QuotientMagnitude(a, b, f, guard), QuotientPlace(a, b, f, 4096 - guard))
    ensures Pow2(guard - 1) < QuotientMagnitude(a, b, f, guard) < Pow2(guard + 1)
  {
    hide Scale, Pow2, LeadingZeros, ShiftLeft, StickyQuotient, Significand, Place, Base;
    Normalized(a.mantissa, f);
    Normalized(b.mantissa, f);
    var az, bz := LeadingZeros(a.mantissa, f), LeadingZeros(b.mantissa, f);
    var am, bm := ShiftLeft(a.mantissa, az), ShiftLeft(b.mantissa, bz);
    StickyQuotientRange(am, bm, guard, f.precision);
    ScaleZero(Place(f, m));
    ScaleZero(Place(f, n));
    ScaleOrder(0, a.mantissa, Place(f, m));
    ScaleOrder(0, b.mantissa, Place(f, n));
    var l := QuotientPlace(a, b, f, 4096 - guard);
    forall k: int {:trigger Scale(k, l)} | k % 2 == 0
      ensures Less(2 * Scale(k, l), ExactQuotient(f, m, n)) <==> k < QuotientMagnitude(a, b, f, guard)
      ensures Same(2 * Scale(k, l), ExactQuotient(f, m, n)) <==> k == QuotientMagnitude(a, b, f, guard)
    {
      ScaleScale(a.mantissa, Place(f, m), 4096);
      CrossCompares(a.mantissa, b.mantissa, az, bz, Place(f, m) + 4096, Place(f, n), l, guard, k);
      StickyQuotientCompares(am, bm, guard, k);
      Doubled(Value(f, n), Scale(k, l), Field(Value(f, m), 4096));
    }
  }

  lemma Doubled(den: int, c: int, num: int)
    ensures den * (2 * c) < 2 * num <==> den * c < num
    ensures den * (2 * c) == 2 * num <==> den * c == num
  {
    assert den * (2 * c) == 2 * (den * c);
  }

  /** The quotient of two finite binary32 words, the divisor not zero, is the exact quotient
      rounded once. */
  lemma Quotient32Rounds(lhs: nat, rhs: nat, requestValid: bool) returns (n: nat)
    requires Finite(BINARY32, lhs) && Finite(BINARY32, rhs) && Magnitude(BINARY32, rhs) > 0
    ensures Value(BINARY32, Magnitude(BINARY32, lhs)) >= 0 && Value(BINARY32, Magnitude(BINARY32, rhs)) > 0
    ensures var f, sign := BINARY32, (SignOf(BINARY32, lhs) + SignOf(BINARY32, rhs)) % 2;
            var r := DivideBits(lhs, rhs, requestValid);
            && Rounds(r.response, f, sign, ExactQuotient(f, Magnitude(f, lhs), Magnitude(f, rhs)), n)
            && !r.response.invalid && r.response.valid == requestValid && !r.divideByZero
  {
    hide Scale, Pow2, RoundedWord, Value, InfinityWord, Packed32, UnpackOperand, Place, Significand, SignOf, Rounds,
      Magnitude, QuietNan, QuotientMagnitude, QuotientPlace, Proper, Tracks;
    var f := BINARY32;
    OperandIs(lhs, f);
    OperandIs(rhs, f);
    var a, b := UnpackOperand(lhs, f), UnpackOperand(rhs, f);
    ValueIncreases(f, 0, Magnitude(f, rhs));
    ValueZero(f);
    if Magnitude(f, lhs) == 0 {
      n := 0;
      ZeroQuotient(f, a, b, Packed32(XorSign(a, b), QuotientMagnitude(a, b, f, 32), QuotientPlace(a, b, f, 480)),
        Magnitude(f, rhs), requestValid);
    } else {
      QuotientTracks(f, Magnitude(f, lhs), Magnitude(f, rhs), a, b, 32);
      var lsb := PlaceInRange(f, a, b, 480);
      var y := QuotientMagnitude(a, b, f, 32);
      n := RoundedWord(f, y, lsb + 3584);
      Pow2Grows(25, 31);
      Pow2Grows(33, 64);
      ProperQuotient(f, Magnitude(f, lhs), Magnitude(f, rhs));
      Packs32(XorSign(a, b), y, lsb, ExactQuotient(f, Magnitude(f, lhs), Magnitude(f, rhs)));
      RoundedQuotient(f, a, b, Packed32(XorSign(a, b), y, lsb),
        ExactQuotient(f, Magnitude(f, lhs), Magnitude(f, rhs)), n, requestValid);
    }
  }

  lemma Quotient64Rounds(lhs: nat, rhs: nat, requestValid: bool) returns (n: nat)
    requires Finite(BINARY64, lhs) && Finite(BINARY64, rhs) && Magnitude(BINARY64, rhs) > 0
    ensures Value(BINARY64, Magnitude(BINARY64, lhs)) >= 0 && Value(BINARY64, Magnitude(BINARY64, rhs)) > 0
    ensures var f, sign := BINARY64, (SignOf(BINARY64, lhs) + SignOf(BINARY64, rhs)) % 2;
            var r := DivideFp64(lhs, rhs, requestValid);
            && Rounds(r.response, f, sign, ExactQuotient(f, Magnitude(f, lhs), Magnitude(f, rhs)), n)
            && !r.response.invalid && r.response.valid == requestValid && !r.divideByZero
  {
    hide Scale, Pow2, RoundedWord, Value, InfinityWord, Packed64, UnpackOperand, Place, Significand, SignOf, Rounds,
      Magnitude, QuietNan, QuotientMagnitude, QuotientPlace, Proper, Tracks;
    var f := BINARY64;
    OperandIs(lhs, f);
    OperandIs(rhs, f);
    var a, b := UnpackOperand(lhs, f), UnpackOperand(rhs, f);
    ValueIncreases(f, 0, Magnitude(f, rhs));
    ValueZero(f);
    if Magnitude(f, lhs) == 0 {
      n := 0;
      ZeroQuotient(f, a, b, Packed64(XorSign(a, b), QuotientMagnitude(a, b, f, 64), QuotientPlace(a, b, f, 4032)),
        Magnitude(f, rhs), requestValid);
    } else {
      QuotientTracks(f, Magnitude(f, lhs), Magnitude(f, rhs), a, b, 64);
      var lsb := PlaceInRange(f, a, b, 4032);
      var y := QuotientMagnitude(a, b, f, 64);
      n := RoundedWord(f, y, lsb);
      Pow2Grows(54, 63);
      Pow2Grows(65, 128);
      ProperQuotient(f, Magnitude(f, lhs), Magnitude(f, rhs));
      Packs64(XorSign(a, b), y, lsb, ExactQuotient(f, Magnitude(f, lhs), Magnitude(f, rhs)));
      RoundedQuotient(f, a, b, Packed64(XorSign(a, b), y, lsb),
        ExactQuotient(f, Magnitude(f, lhs), Magnitude(f, rhs)), n, requestValid);
    }
  }

  lemma PlaceInRange(f: Format, a: Operand, b: Operand, offset: nat) returns (lsb: nat)
    requires (f == BINARY32 && offset == 480) || (f == BINARY64 && offset == 4032)
    requires 1 <= a.exponent < f.maximum && 1 <= b.exponent < f.maximum
    requires 0 < a.mantissa < Pow2(f.precision + 1) && 0 < b.mantissa < Pow2(f.precision + 1)
    ensures lsb == QuotientPlace(a, b, f, offset) && lsb <= (if f == BINARY32 then 1900 else 8000)
    ensures QuotientPlace(a, b, f, offset + 3584) == QuotientPlace(a, b, f, offset) + 3584
  {
    hide Pow2, LeadingZeros;
    Normalized(a.mantissa, f);
    Normalized(b.mantissa, f);
    lsb := QuotientPlace(a, b, f, offset);
  }

  lemma ProperQuotient(f: Format, m: nat, n: nat)
    requires Supported(f) && Value(f, m) >= 0 && Value(f, n) > 0
    ensures Proper(ExactQuotient(f, m, n))
  {
  }

  lemma ZeroQuotient(f: Format, a: Operand, b: Operand, rounded: Response, n: nat, requestValid: bool)
    requires Supported(f) && a.zero && !(b.zero || a.inf || b.inf || a.nan || b.nan || a.snan || b.snan)
    requires Value(f, 0) >= 0 && Value(f, n) > 0
    ensures var r := QuotientResult(a, b, rounded, f, requestValid);
            && Rounds(r.response, f, XorSign(a, b), ExactQuotient(f, 0, n), 0)
            && !r.response.invalid && r.response.valid == requestValid && !r.divideByZero
  {
    hide Value, Scale, Pow2, InfinityWord, Dropped, QuietNan;
    ValueZero(f);
    ScaleZero(4096);
    ValueIncreases(f, 0, 1);
    InfinityPositive(f);
    var mid := Value(f, 0) + Value(f, 1);
    ProductOrder(1, mid, Value(f, n));
    PartsOfWord(f, XorSign(a, b), 0);
  }

  lemma RoundedQuotient(f: Format, a: Operand, b: Operand, rounded: Response, x: Exact, n: nat, requestValid: bool)
    requires Supported(f) && Rounds(rounded, f, XorSign(a, b), x, n)
    requires !(a.zero || b.zero || a.inf || b.inf || a.nan || b.nan || a.snan || b.snan)
    ensures var r := QuotientResult(a, b, rounded, f, requestValid);
            && Rounds(r.response, f, XorSign(a, b), x, n)
            && !r.response.invalid && r.response.valid == requestValid && !r.divideByZero
  {
    hide Nearest, Same, Value, Scale, Pow2, InfinityWord, Dropped, QuietNan;
    InfinityPositive(f);
    InfinityFits(f);
    PartsOfWord(f, XorSign(a, b), AtMost(n, InfinityWord(f)));
  }

  /** Every pair of words the rounding theorem does not cover: a NaN for 0/0, infinity over
      infinity and NaN operands, a signed infinity for x/0 and infinity over a finite word, a
      signed zero for anything finite over infinity, and division by zero signalled exactly for
      a finite non-zero dividend over zero. */
  lemma QuotientExceptions(lhs: nat, rhs: nat, rounded: Response, f: Format, requestValid: bool)
    requires Supported(f) && !(Finite(f, lhs) && Finite(f, rhs) && Magnitude(f, rhs) > 0)
    ensures var a, b := UnpackOperand(lhs, f), UnpackOperand(rhs, f);
            var m, n, inf := Magnitude(f, lhs), Magnitude(f, rhs), InfinityWord(f);
            var r, sign := QuotientResult(a, b, rounded, f, requestValid), (SignOf(f, lhs) + SignOf(f, rhs)) % 2;
            && r.divideByZero == (0 < m < inf && n == 0)
            && !r.response.overflow && !r.response.underflow && !r.response.inexact
            && r.response.result == (
                 if m > inf || n > inf || (m == inf && n == inf) || (m == 0 && n == 0) then QuietNan(f)
                 else Signed(f, sign, if m == inf || n == 0 then inf else 0))
            && (m > inf || n > inf || (m == inf && n == inf) || (m == 0 && n == 0) ==> IsQuietNan(f, r.response.result))
            && r.response.valid == (requestValid && !r.response.invalid)
            && r.response.zero == (Magnitude(f, r.response.result) == 0)
            && r.response.invalid == (
                 Signalling(f, m) || Signalling(f, n) || (m == inf && n == inf) || (m == 0 && n == 0))
  {
    hide Scale, Pow2, UnpackOperand, SignOf, QuietNan, Dropped, Place, Significand;
    OperandIs(lhs, f);
    OperandIs(rhs, f);
    InfinityPositive(f);
    ScaleIs(f.maximum, f.precision);
    QuietNanIs(f);
  }
}
