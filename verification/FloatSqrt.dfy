/** Square roots of binary32 and binary64 words by restoring digit recurrence
    (examples/functional_float/float_sqrt_step.py, float_sqrt.py). */
module FloatSqrt {
  import opened Bits
  import opened Scaling
  import opened FloatValue
  import opened FloatFormats
  import opened FloatSticky
  import opened FloatFused
  import opened FloatConvert
  import opened FloatArithmetic
  import opened FloatQuotient

  // ------------------------------------------------------------- the recurrence

  /** A 64-bit root, and a remainder and a radicand of 128 bits. */
  datatype SqrtState = SqrtState(root: nat, remainder: nat, radicand: nat)

  function DigitStep(s: SqrtState): SqrtState {
    var remainder := LowBits(s.remainder, 2, 128) + Shifted(s.radicand, 126);
    var trial := LowBits(s.root, 2, 128) + 1;
    var root, radicand := LowBits(s.root, 1, 64), LowBits(s.radicand, 2, 128);
    if remainder >= trial then SqrtState(root + 1, remainder - trial, radicand)
    else SqrtState(root, remainder, radicand)
  }

  function Digits(s: SqrtState, steps: nat): SqrtState {
    if steps == 0 then s else DigitStep(Digits(s, steps - 1))
  }

  method ComputeDigits(radicand: nat) returns (state: SqrtState)
    ensures state == Digits(SqrtState(0, 0, radicand), 55)
  {
    state := SqrtState(0, 0, radicand);
    for step := 0 to 55
      invariant state == Digits(SqrtState(0, 0, radicand), step)
    {
      state := DigitStep(state);
    }
  }

  /** After k steps the root and the remainder account for the top 2k bits of the radicand,
      the remainder is too small for a larger root, and the other bits are still to come. */
  predicate AfterDigits(radicand: nat, k: nat, s: SqrtState)
    requires k <= 60
  {
    && s.root < Pow2(k)
    && s.root * s.root + s.remainder == Shifted(radicand, 128 - 2 * k)
    && s.remainder <= 2 * s.root
    && s.radicand == Field(Dropped(radicand, 128 - 2 * k), 2 * k)
  }

  lemma RootStep(root: nat, remainder: nat, high: nat)
    requires remainder <= 2 * root && high < 4
    ensures var r, trial := 4 * remainder + high, 4 * root + 1;
            var root', r' := if r >= trial then 2 * root + 1 else 2 * root, if r >= trial then r - trial else r;
            && root' * root' + r' == 4 * (root * root + remainder) + high && r' <= 2 * root'
  {
  }

  /** The next two bits of a number below bit j + 2. */
  lemma NextTwoBits(x: nat, j: nat) returns (high: nat)
    ensures high < 4
    ensures Shifted(x, j) == 4 * Shifted(x, j + 2) + high
    ensures Dropped(x, j + 2) == Scale(high, j) + Dropped(x, j)
  {
    hide Scale, Shifted, Dropped, Pow2;
    SplitAt(x, j);
    SplitAt(Shifted(x, j), 2);
    ShiftedShifted(x, j, 2);
    high := Dropped(Shifted(x, j), 2);
    var above := Shifted(x, j + 2);
    Pow2Of2();
    ScaleBy2(above);
    ScaleAdds(Scale(above, 2), high, j);
    ScaleScale(above, 2, j);
    Pow2Adds(2, j);
    ScaleOrder(high + 1, 4, j);
    ScaleAdds(high, 1, j);
    ScaleOne(j);
    FourScaled(j);
    ScaleZero(j);
    ScaleOrder(0, high, j);
    SplitUnique(x, j + 2, above, Scale(high, j) + Dropped(x, j));
  }

  lemma Pow2Of2()
    ensures Pow2(2) == 4
  {
    assert Pow2(1) == 2;
  }

  lemma ScaleBy2(x: int)
    ensures Scale(x, 2) == 4 * x
  {
    Pow2Of2();
  }

  lemma FourScaled(j: nat)
    ensures Scale(4, j) == Pow2(j + 2)
  {
    Pow2Next(j);
    Pow2Next(j + 1);
  }

  /** Where those two bits stand in the radicand register, and what a shift leaves there. */
  lemma RegisterStep(high: nat, low: nat, k: nat)
    requires k <= 60 && high < 4 && low < Pow2(126 - 2 * k)
    ensures var register := Scale(Scale(high, 126 - 2 * k) + low, 2 * k);
            && register >= 0 && Shifted(register, 126) == high
            && LowBits(register, 2, 128) == Scale(low, 2 * k + 2)
  {
    hide Scale, Shifted, Dropped, Pow2, LowBits;
    var j := 126 - 2 * k;
    var register := Scale(Scale(high, j) + low, 2 * k);
    ScaleAdds(Scale(high, j), low, 2 * k);
    ScaleScale(high, j, 2 * k);
    ScaleOrder(low, Pow2(j), 2 * k);
    ScalePow2(j, 2 * k);
    ScaleZero(2 * k);
    ScaleOrder(0, low, 2 * k);
    ScaleZero(126);
    ScaleOrder(0, high, 126);
    SplitUnique(register, 126, high, Scale(low, 2 * k));
    ScaleAdds(Scale(high, 126), Scale(low, 2 * k), 2);
    ScaleScale(high, 126, 2);
    ScaleScale(low, 2 * k, 2);
    ScaleOrder(Scale(low, 2 * k), Pow2(126), 2);
    ScalePow2(126, 2);
    ScaleZero(2);
    ScaleOrder(0, Scale(low, 2 * k), 2);
    LowBitsIs(register, 2, 128);
    SplitUnique(Scale(register, 2), 128, high, Scale(low, 2 * k + 2));
  }

  lemma LowBitsIs(x: nat, amount: nat, width: nat)
    ensures Scale(x, amount) >= 0 && LowBits(x, amount, width) == Dropped(Scale(x, amount), width)
  {
  }

  lemma DigitStepKeeps(radicand: nat, k: nat, s: SqrtState)
    requires k < 60 && AfterDigits(radicand, k, s)
    ensures AfterDigits(radicand, k + 1, DigitStep(s))
  {
    hide Scale, Shifted, Dropped, Pow2, LowBits;
    var j := 126 - 2 * k;
    var high := NextTwoBits(radicand, j);
    SplitAt(radicand, j);
    RegisterStep(high, Dropped(radicand, j), k);
    SmallShift(s.root, k, 1, 64);
    SmallShift(s.root, k, 2, 128);
    Pow2Next(k);
    SmallShift(s.remainder, k + 1, 2, 128);
    ScaleBy2(s.root);
    ScaleBy2(s.remainder);
    ScaleByZero(s.root);
    ScaleNext(s.root, 0);
    RootStep(s.root, s.remainder, high);
  }

  lemma SmallShift(x: nat, bits: nat, amount: nat, width: nat)
    requires x < Pow2(bits) && bits + amount <= width
    ensures LowBits(x, amount, width) == Scale(x, amount)
  {
    hide Scale, Shifted, Dropped, Pow2, LowBits;
    LowBitsIs(x, amount, width);
    ScaleOrder(x, Pow2(bits), amount);
    ScalePow2(bits, amount);
    Pow2Grows(bits + amount, width);
    ShiftedAway(Scale(x, amount), width);
  }

  lemma {:induction false} DigitsAccount(radicand: nat, k: nat)
    requires radicand < Pow2(128) && k <= 60
    ensures AfterDigits(radicand, k, Digits(SqrtState(0, 0, radicand), k))
  {
    hide DigitStep, Shifted, Dropped;
    if k == 0 {
      ShiftedAway(radicand, 128);
      ScaleByZero(radicand);
      ScaleOne(0);
    } else {
      hide AfterDigits;
      DigitsAccount(radicand, k - 1);
      DigitStepKeeps(radicand, k - 1, Digits(SqrtState(0, 0, radicand), k - 1));
    }
  }

  /** The root with the remainder and the bits never brought down ORed into its lowest bit. */
  function StickyRoot(s: SqrtState): nat {
    if (s.remainder != 0 || s.radicand != 0) && s.root % 2 == 0 then s.root + 1 else s.root
  }

  lemma SquareBracket(k: nat, root: nat, remainder: nat)
    requires remainder <= 2 * root
    ensures k <= root ==> k * k <= root * root + remainder
    ensures k < root ==> k * k < root * root
    ensures k > root ==> k * k > root * root + remainder
  {
    if k < root {
      StrictProduct(k, root, root);
      ProductOrder(k, root, k);
    }
    if k > root {
      ProductOrder(root + 1, k, root + 1);
      ProductOrder(root + 1, k, k);
      assert (root + 1) * (root + 1) == root * root + 2 * root + 1;
    }
  }

  /** The sticky root stands to every even number as the exact root of the radicand does. */
  lemma StickyRootCompares(radicand: nat, k: nat)
    requires radicand < Pow2(128) && k % 2 == 0
    ensures var y := StickyRoot(Digits(SqrtState(0, 0, radicand), 55));
            (Scale(k * k, 18) < radicand <==> k < y) && (Scale(k * k, 18) == radicand <==> k == y)
  {
    hide Scale, Shifted, Dropped, Pow2, Digits;
    DigitsAccount(radicand, 55);
    var s := Digits(SqrtState(0, 0, radicand), 55);
    var top, low := Shifted(radicand, 18), Dropped(radicand, 18);
    SplitAt(radicand, 18);
    ScaleZero(110);
    ScaleOrder(0, low, 110);
    SquareBracket(k, s.root, s.remainder);
    ScaleOrder(k * k, top, 18);
    ScaleOrder(top + 1, k * k, 18);
    ScaleAdds(top, 1, 18);
    ScaleOne(18);
  }

  lemma StickyRootRange(radicand: nat)
    requires Pow2(126) <= radicand < Pow2(128)
    ensures Pow2(54) <= StickyRoot(Digits(SqrtState(0, 0, radicand), 55)) < Pow2(55)
  {
    hide Scale, Pow2, Digits, StickyRoot;
    Pow2Next(53);
    Pow2Next(54);
    Pow2Adds(54, 54);
    Pow2Adds(55, 55);
    ScalePow2(108, 18);
    ScalePow2(110, 18);
    StickyRootCompares(radicand, Pow2(54));
    StickyRootCompares(radicand, Pow2(55));
  }

  // ------------------------------------------------------------ the whole kernel

  function FormatWide(wide64: bool): (f: Format)
    ensures Supported(f)
  {
    if wide64 then BINARY64 else BINARY32
  }

  function BiasedExponent(a: Operand, f: Format): int {
    a.exponent + (if f == BINARY64 then 1025 else 129) - LeadingZeros(a.mantissa, f)
  }

  function Radicand(a: Operand, f: Format): nat {
    var normalized := ShiftLeft(a.mantissa, LeadingZeros(a.mantissa, f));
    Field(normalized, (if f == BINARY64 then 74 else 103) + BiasedExponent(a, f) % 2)
  }

  function SquareRootResult(a: Operand, state: SqrtState, f: Format, requestValid: bool): Response
    requires f == BINARY32 || f == BINARY64
  {
    var invalid := a.snan || (a.sign == 1 && !a.zero && !a.nan);
    var root, half := StickyRoot(state), BiasedExponent(a, f) / 2;
    var rounded := if f == BINARY64 then Packed64(0, root, 3018 + half) else Packed32(0, root, 330 + half);
    Response(
      if a.nan || invalid then QuietNan(f)
      else if a.zero then Signed(f, a.sign, 0)
      else if a.inf then Field(f.maximum, f.precision)
      else rounded.result,
      requestValid && !invalid, invalid, false, false,
      rounded.inexact && !a.inf && !a.nan && !invalid && !a.zero, a.zero)
  }

  function SquareRoot(value: nat, wide64: bool, requestValid: bool): Response {
    var f := FormatWide(wide64);
    var a := UnpackOperand(value, f);
    SquareRootResult(a, Digits(SqrtState(0, 0, Radicand(a, f)), 55), f, requestValid)
  }

  method ComputeSquareRoot(value: nat, wide64: bool, requestValid: bool) returns (r: Response)
    ensures r == SquareRoot(value, wide64, requestValid)
  {
    var f := FormatWide(wide64);
    var a := UnpackOperand(value, f);
    var state := ComputeDigits(Radicand(a, f));
    r := SquareRootResult(a, state, f, requestValid);
  }

  /** The root of a value, in units of 2^-4096. */
  function ExactRoot(f: Format, m: nat): Exact
    requires Supported(f) && Value(f, m) >= 0
  {
    Root(Field(Value(f, m), 4096))
  }

  /** The scale the root is rounded at. */
  function RootPlace(a: Operand, f: Format): int {
    BiasedExponent(a, f) / 2 + (if f == BINARY64 then 3018 else 3914)
  }

  lemma RootScaled(m: nat, place: nat, s: nat, l: nat, k: nat)
    requires 2 * l + s == place + 18
    ensures var c, square := Scale(k, l), Scale(m, place);
            && (c * c < square <==> Scale(k * k, 18) < Scale(m, s))
            && (c * c == square <==> Scale(k * k, 18) == Scale(m, s))
  {
    hide Scale, Pow2;
    var c := Scale(k, l);
    calc {
      c * c;
      { ScaleTimes(k, c, l); }
      Scale(k * c, l);
      { ScaleTimes(k, k, l); }
      Scale(Scale(k * k, l), l);
      { ScaleScale(k * k, l, l); }
      Scale(k * k, 2 * l);
    }
    ScaleScale(k * k, 2 * l, s);
    ScaleScale(k * k, 18, place);
    ScaleScale(m, place, s);
    ScaleScale(m, s, place);
    ScaleOrder(c * c, Scale(m, place), s);
    ScaleOrder(Scale(k * k, 18), Scale(m, s), place);
  }

  lemma RootComparesDoubled(c: int, square: nat)
    ensures Less(2 * c, Root(square)) <==> c < 0 || c * c < square
    ensures Same(2 * c, Root(square)) <==> c >= 0 && c * c == square
  {
    assert (2 * c) * (2 * c) == 4 * (c * c);
  }

  lemma RadicandIs(a: Operand, f: Format) returns (s: nat)
    requires f == BINARY32 || f == BINARY64
    requires 0 < a.mantissa < Pow2(f.precision + 1) && 1 <= a.exponent < f.maximum
    ensures Radicand(a, f) == Scale(a.mantissa, s) && Pow2(126) <= Radicand(a, f) < Pow2(128)
    ensures RootPlace(a, f) >= 0 && 2 * RootPlace(a, f) + s == a.exponent + Base(f) - 1 + 4096 + 18
    ensures 0 <= BiasedExponent(a, f) <= f.maximum + 1025
  {
    hide Scale, Pow2, LeadingZeros, ShiftLeft;
    Normalized(a.mantissa, f);
    var z := LeadingZeros(a.mantissa, f);
    var extra := 126 - f.precision + BiasedExponent(a, f) % 2;
    s := z + extra;
    ScaleScale(a.mantissa, z, extra);
    ScaleOrder(Pow2(f.precision), Scale(a.mantissa, z), extra);
    ScaleOrder(Scale(a.mantissa, z), Pow2(f.precision + 1), extra);
    ScalePow2(f.precision, extra);
    ScalePow2(f.precision + 1, extra);
    Pow2Grows(126, f.precision + extra);
    Pow2Grows(f.precision + 1 + extra, 128);
  }

  lemma RootTracks(f: Format, m: nat, a: Operand)
    requires f == BINARY32 || f == BINARY64
    requires a.mantissa == Significand(f, m) && a.exponent + Base(f) - 1 == Place(f, m)
    requires 0 < a.mantissa < Pow2(f.precision + 1) && 1 <= a.exponent < f.maximum
    ensures Value(f, m) >= 0 && RootPlace(a, f) >= 0
    ensures var y := StickyRoot(Digits(SqrtState(0, 0, Radicand(a, f)), 55));
            Tracks(ExactRoot(f, m), y, RootPlace(a, f)) && Pow2(54) <= y < Pow2(55)
  {
    hide Scale, Pow2, Digits, StickyRoot, Radicand, RootPlace, Significand, Place, Base, Less, Same;
    var s := RadicandIs(a, f);
    var l, y := RootPlace(a, f), StickyRoot(Digits(SqrtState(0, 0, Radicand(a, f)), 55));
    StickyRootRange(Radicand(a, f));
    ScaleZero(Place(f, m));
    ScaleOrder(0, a.mantissa, Place(f, m));
    ScaleScale(a.mantissa, Place(f, m), 4096);
    ScaleZero(l);
    forall k: int {:trigger Scale(k, l)} | k % 2 == 0
      ensures Less(2 * Scale(k, l), ExactRoot(f, m)) <==> k < y
      ensures Same(2 * Scale(k, l), ExactRoot(f, m)) <==> k == y
    {
      RootComparesDoubled(Scale(k, l), Field(Value(f, m), 4096));
      ScaleOrder(k, 0, l);
      if k >= 0 {
        RootScaled(a.mantissa, Place(f, m) + 4096, s, l, k);
        StickyRootCompares(Radicand(a, f), k);
      }
    }
  }

  /** Rounding a root neither overflows nor leaves the normal range. */
  lemma RootIsNormal(f: Format, y: nat, high: nat)
    requires f == BINARY32 || f == BINARY64
    requires Pow2(54) <= y < Pow2(55)
    requires 53 <= high - (if f == BINARY64 then 3018 else 3914) <= (if f == BINARY64 then 1535 else 191)
    ensures Pow2(f.precision) <= RoundedWord(f, y, high) < InfinityWord(f)
  {
    hide Scale, Pow2, Quanta, Leading;
    LeadingUnique(y, 54);
    QuantaRange(f, y, high);
    var e, p := Binade(f, y, high), f.precision;
    Pow2Next(p);
    ScaleAdds(e, 2, p);
    ScaleAdds(1, 1, p);
    ScaleOne(p);
    ScaleZero(p);
    ScaleOrder(0, e, p);
    ScaleOrder(e + 2, f.maximum, p);
    ScaleIs(f.maximum, p);
  }

  lemma BiasedRange(a: Operand, f: Format)
    requires f == BINARY32 || f == BINARY64
    requires 0 < a.mantissa < Pow2(f.precision + 1) && 1 <= a.exponent < f.maximum
    ensures 53 <= BiasedExponent(a, f) / 2 <= (if f == BINARY64 then 1535 else 191)
  {
    hide Pow2, LeadingZeros;
    Normalized(a.mantissa, f);
  }

  lemma PacksRoot(f: Format, m: nat, a: Operand) returns (n: nat)
    requires f == BINARY32 || f == BINARY64
    requires a.mantissa == Significand(f, m) && a.exponent + Base(f) - 1 == Place(f, m)
    requires 0 < a.mantissa < Pow2(f.precision + 1) && 1 <= a.exponent < f.maximum
    ensures Value(f, m) >= 0
    ensures var root, half := StickyRoot(Digits(SqrtState(0, 0, Radicand(a, f)), 55)), BiasedExponent(a, f) / 2;
            var rounded := if f == BINARY64 then Packed64(0, root, 3018 + half) else Packed32(0, root, 330 + half);
            Rounds(rounded, f, 0, ExactRoot(f, m), n) && !rounded.overflow
    ensures Pow2(f.precision) <= n < InfinityWord(f)
  {
    hide Scale, Pow2, Digits, StickyRoot, Radicand, Significand, Place, Base, Value, InfinityWord, RoundedWord, Tracks,
      BiasedExponent, Packed32, Packed64, Nearest, Same;
    RootTracks(f, m, a);
    BiasedRange(a, f);
    var y, half := StickyRoot(Digits(SqrtState(0, 0, Radicand(a, f)), 55)), BiasedExponent(a, f) / 2;
    n := RoundedWord(f, y, RootPlace(a, f));
    RootIsNormal(f, y, RootPlace(a, f));
    if f == BINARY64 {
      Pow2Grows(55, 128);
      Packs64(0, y, 3018 + half, ExactRoot(f, m));
    } else {
      Pow2Grows(25, 54);
      Pow2Grows(55, 64);
      Packs32(0, y, 330 + half, ExactRoot(f, m));
    }
  }

  /** The square root of a finite word that is not negative, or of a signed zero, is the exact
      root rounded once; it never overflows, and unless it is zero it is a normal number. */
  lemma SquareRootRounds(value: nat, wide64: bool, requestValid: bool) returns (n: nat)
    requires Finite(FormatWide(wide64), value)
    requires SignOf(FormatWide(wide64), value) == 0 || Magnitude(FormatWide(wide64), value) == 0
    ensures var f, r := FormatWide(wide64), SquareRoot(value, wide64, requestValid);
            var m := Magnitude(f, value);
            && Value(f, m) >= 0
            && Rounds(r, f, SignOf(f, value), ExactRoot(f, m), n)
            && !r.invalid && r.valid == requestValid && !r.overflow && r.zero == (m == 0) == (n == 0)
            && (m > 0 ==> Pow2(f.precision) <= n < InfinityWord(f))
  {
    hide Scale, Pow2, RoundedWord, Value, InfinityWord, Packed32, Packed64, UnpackOperand, Place, Significand, SignOf,
      Magnitude, QuietNan, Radicand, BiasedExponent, StickyRoot, Digits, Nearest, Same, Base, Exponent, Fraction;
    var f := FormatWide(wide64);
    var m := Magnitude(f, value);
    OperandIs(value, f);
    if m == 0 {
      n := 0;
      RootOfZero(f);
    } else {
      n := PacksRoot(f, m, UnpackOperand(value, f));
    }
  }

  lemma RootOfZero(f: Format)
    requires Supported(f)
    ensures Value(f, 0) >= 0 && Nearest(f, ExactRoot(f, 0), 0) && Same(2 * Value(f, 0), ExactRoot(f, 0))
            && InfinityWord(f) > 0
  {
    hide Value, Scale, Pow2, InfinityWord;
    ValueZero(f);
    ScaleZero(4096);
    ValueIncreases(f, 0, 1);
    InfinityPositive(f);
    var mid := Value(f, 0) + Value(f, 1);
    ProductOrder(1, mid, mid);
  }

  /** Words with no real root, and the infinities. */
  lemma SquareRootExceptions(value: nat, wide64: bool, requestValid: bool)
    ensures var f, r := FormatWide(wide64), SquareRoot(value, wide64, requestValid);
            var m, inf := Magnitude(f, value), InfinityWord(f);
            && (m > inf || (SignOf(f, value) == 1 && m > 0)
                ==> r.result == QuietNan(f) && IsQuietNan(f, r.result) && !r.inexact)
            && r.valid == (requestValid && !r.invalid) && r.zero == (m == 0)
            && (m == inf && SignOf(f, value) == 0 ==> r.result == inf && !r.inexact && !r.invalid)
            && r.invalid == (Signalling(f, m) || (SignOf(f, value) == 1 && 0 < m <= inf))
  {
    hide Scale, Pow2, InfinityWord, Packed32, Packed64, UnpackOperand, Place, Significand, SignOf, Magnitude, QuietNan,
      Radicand, BiasedExponent, StickyRoot, Digits, Base, Exponent, Fraction;
    var f := FormatWide(wide64);
    OperandIs(value, f);
    InfinityIsField(f);
    QuietNanIs(f);
  }

  lemma InfinityIsField(f: Format)
    requires Supported(f)
    ensures InfinityWord(f) == Field(f.maximum, f.precision) && InfinityWord(f) > 0
  {
    InfinityPositive(f);
    ScaleIs(f.maximum, f.precision);
  }
}
