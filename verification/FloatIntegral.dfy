/** Conversions between floating-point words and integers
    (examples/functional_float/float_to_integer_bits.py, float_from_integer.py). */
module FloatIntegral {
  import opened Bits
  import opened Scaling
  import opened FloatValue
  import opened FloatFormats
  import opened FloatSticky
  import opened FloatFused
  import opened FloatArithmetic
  import opened FloatSqrt

  // ----------------------------------------------------------- the seven policies

  /** j is the integer the policy selects for x / 2^s: nearest with ties to even, floor, ceiling,
      toward zero, nearest with ties away from zero, to odd when inexact, nearest with ties up. */
  predicate Chosen(policy: nat, x: int, j: int, s: nat) {
    match policy
    case 0 => Scale(2 * j - 1, s) <= 2 * x <= Scale(2 * j + 1, s)
              && (2 * x == Scale(2 * j - 1, s) || 2 * x == Scale(2 * j + 1, s) ==> j % 2 == 0)
    case 1 => Scale(j, s) <= x < Scale(j + 1, s)
    case 2 => Scale(j - 1, s) < x <= Scale(j, s)
    case 3 => if x >= 0 then Scale(j, s) <= x < Scale(j + 1, s) else Scale(j - 1, s) < x <= Scale(j, s)
    case 4 => if x >= 0 then Scale(2 * j - 1, s) <= 2 * x < Scale(2 * j + 1, s)
              else Scale(2 * j - 1, s) < 2 * x <= Scale(2 * j + 1, s)
    case 5 => x == Scale(j, s) || (j % 2 == 1 && Scale(j - 1, s) < x < Scale(j + 1, s))
    case _ => Scale(2 * j - 1, s) <= 2 * x < Scale(2 * j + 1, s)
  }

  /** No policy selects two integers. */
  lemma ChosenUnique(policy: nat, x: int, i: int, j: int, s: nat)
    requires Chosen(policy, x, i, s) && Chosen(policy, x, j, s)
    ensures i == j
  {
    hide Scale;
    if i < j { ChosenApart(policy, x, i, j, s); }
    if j < i { ChosenApart(policy, x, j, i, s); }
  }

  lemma ChosenApart(policy: nat, x: int, i: int, j: int, s: nat)
    requires i < j
    ensures !(Chosen(policy, x, i, s) && Chosen(policy, x, j, s))
  {
    hide Scale;
    ScaleOrder(2 * i + 1, 2 * j - 1, s);
    ScaleOrder(i + 1, j, s);
    ScaleOrder(i, j - 1, s);
    ScaleOrder(i, j, s);
    ScaleOrder(i + 1, j - 1, s);
  }

  /** Selecting commutes with scaling both sides up. */
  lemma ChosenScaled(policy: nat, x: int, j: int, s: nat, n: nat)
    requires Chosen(policy, x, j, s)
    ensures Chosen(policy, Scale(x, n), j, s + n)
  {
    hide Scale;
    ScaledUp(2 * x, 2 * j - 1, s, n);
    ScaledUp(2 * x, 2 * j + 1, s, n);
    ScaledUp(x, j - 1, s, n);
    ScaledUp(x, j, s, n);
    ScaledUp(x, j + 1, s, n);
    ScaleTwice(x, n);
    ScaleOrder(0, x, n);
    ScaleZero(n);
  }

  lemma ScaledUp(x: int, c: int, s: nat, n: nat)
    ensures Scale(c, s) < x <==> Scale(c, s + n) < Scale(x, n)
    ensures Scale(c, s) == x <==> Scale(c, s + n) == Scale(x, n)
  {
    hide Scale;
    ScaleScale(c, s, n);
    ScaleOrder(Scale(c, s), x, n);
  }

  lemma ChosenExactly(policy: nat, j: int, s: nat)
    ensures Chosen(policy, Scale(j, s), j, s)
  {
    hide Scale;
    ScaleTwice(j, s);
    ScaleOrder(2 * j - 1, 2 * j, s);
    ScaleOrder(2 * j, 2 * j + 1, s);
    ScaleOrder(j, j + 1, s);
    ScaleOrder(j - 1, j, s);
  }

  // ------------------------------------------------------------ rounding a magnitude

  datatype Integral = Integral(rounded: nat, discarded: bool)

  /** The magnitude m * 2^(lsb - 4096) as an integer under a policy, lines 38 to 65. */
  function RoundMagnitude(m: nat, lsb: nat, sign: nat, rounding: nat): Integral {
    var left := lsb >= 4096;
    var right := if left then 0 else AtMost(4096 - lsb, 127);
    var truncated, discarded := Shifted(m, right), Dropped(m, right) != 0;
    var guard := right != 0 && Shifted(m, right - 1) % 2 == 1;
    var sticky := right != 0 && Dropped(m, right - 1) != 0;
    var increment :=
      if rounding == 6 then guard && (sticky || sign == 0)
      else if rounding == 4 then guard
      else if rounding == 3 then false
      else if rounding == 2 then sign == 0 && discarded
      else if rounding == 1 then sign == 1 && discarded
      else guard && (sticky || truncated % 2 == 1);
    Integral(
      if left then LowBits(m, AtMost(lsb - 4096, 127), 128)
      else if rounding == 5 then (if discarded && truncated % 2 == 0 then truncated + 1 else truncated)
      else truncated + if increment then 1 else 0,
      discarded)
  }

  lemma Around(m: nat, s: nat)
    requires s > 0
    ensures var t, g, low, h := Shifted(m, s), Shifted(m, s - 1) % 2, Dropped(m, s - 1), Pow2(s - 1);
            var a := Scale(t, s);
            && h > 0 && low < h && m == a + (if g == 1 then h else 0) + low
            && (Dropped(m, s) != 0 <==> g == 1 || low != 0)
            && Scale(t - 1, s) == a - 2 * h && Scale(t + 1, s) == a + 2 * h && Scale(t + 2, s) == a + 4 * h
            && Scale(2 * t - 1, s) == 2 * a - 2 * h && Scale(2 * t + 1, s) == 2 * a + 2 * h
            && Scale(2 * t + 3, s) == 2 * a + 6 * h
  {
    hide Scale, Shifted, Dropped, Pow2;
    var t: int := Shifted(m, s);
    GuardSplit(m, s);
    Pow2Next(s - 1);
    ScaleOne(s);
    ScaleTwice(t, s);
    ScaleTwice(1, s);
    ScaleAdds(t, 1, s);
    ScaleAdds(t, 2, s);
    ScaleAdds(2 * t, 1, s);
    ScaleAdds(2 * t + 1, 2, s);
  }

  lemma ScaleNegated(i: int, j: int, n: nat)
    requires j == -i
    ensures Scale(j, n) == -Scale(i, n) && Scale(j - 1, n) == -Scale(i + 1, n) && Scale(j + 1, n) == -Scale(i - 1, n)
    ensures Scale(2 * j - 1, n) == -Scale(2 * i + 1, n) && Scale(2 * j + 1, n) == -Scale(2 * i - 1, n)
  {
  }

  /** The clamp of the right shift at 127 changes nothing for a magnitude below 2^126. */
  lemma ClampedShift(m: nat, s: nat)
    requires m < Pow2(126) && s > 0
    ensures var c := AtMost(s, 127);
            && Shifted(m, c) == Shifted(m, s) && Dropped(m, c) == Dropped(m, s)
            && Shifted(m, c - 1) == Shifted(m, s - 1) && Dropped(m, c - 1) == Dropped(m, s - 1)
  {
    hide Shifted, Dropped, Pow2;
    if s > 127 {
      Pow2Grows(126, 127);
      Pow2Grows(126, s - 1);
      Pow2Grows(126, s);
      ShiftedAway(m, 126);
      ShiftedAway(m, 127);
      ShiftedAway(m, s - 1);
      ShiftedAway(m, s);
    }
  }

  /** Whether a policy goes up from the truncated magnitude. */
  predicate Up(policy: nat, sign: nat, guard: bool, sticky: bool, odd: bool) {
    match policy
    case 0 => guard && (sticky || odd)
    case 1 => sign == 1 && (guard || sticky)
    case 2 => sign == 0 && (guard || sticky)
    case 3 => false
    case 4 => guard
    case 5 => (guard || sticky) && !odd
    case _ => guard && (sticky || sign == 0)
  }

  lemma RoundsUp(m: nat, s: nat, sign: nat, rounding: nat)
    requires m < Pow2(126) && 0 < s <= 4096 && rounding <= 6
    ensures var r, t := RoundMagnitude(m, 4096 - s, sign, rounding), Shifted(m, s);
            var guard, sticky := Shifted(m, s - 1) % 2 == 1, Dropped(m, s - 1) != 0;
            && r.rounded == t + (if Up(rounding, sign, guard, sticky, t % 2 == 1) then 1 else 0)
            && r.discarded == (guard || sticky)
  {
    hide Scale, Shifted, Dropped, Pow2, LowBits;
    Around(m, s);
    ClampedShift(m, s);
  }

  lemma UpChooses(policy: nat, m: nat, s: nat, i: nat)
    requires s > 0 && policy <= 6
    requires var t := Shifted(m, s);
             i == t + if Up(policy, 0, Shifted(m, s - 1) % 2 == 1, Dropped(m, s - 1) != 0, t % 2 == 1) then 1 else 0
    ensures Chosen(policy, m, i, s)
  {
    hide Scale, Shifted, Dropped, Pow2;
    Around(m, s);
  }

  lemma UpChoosesBelow(policy: nat, m: nat, s: nat, i: nat)
    requires s > 0 && policy <= 6
    requires var t := Shifted(m, s);
             i == t + if Up(policy, 1, Shifted(m, s - 1) % 2 == 1, Dropped(m, s - 1) != 0, t % 2 == 1) then 1 else 0
    ensures Chosen(policy, 0 - m, 0 - i, s)
  {
    hide Scale, Shifted, Dropped, Pow2;
    Around(m, s);
    ScaleNegated(i, 0 - i, s);
    ScaleZero(s);
    var t: int := Shifted(m, s);
    ScaleOrder(0, t, s);
  }

  /** What the increment logic adds to the truncated magnitude is what the policy asks for. */
  lemma PolicyChooses(m: nat, s: nat, sign: nat, rounding: nat)
    requires m < Pow2(126) && 0 < s <= 4096 && sign < 2 && rounding <= 6
    ensures var r := RoundMagnitude(m, 4096 - s, sign, rounding);
            && Chosen(rounding, Signum(sign, m), Signum(sign, r.rounded), s)
            && (r.discarded <==> m != Scale(r.rounded, s))
  {
    hide Scale, Shifted, Dropped, Pow2, RoundMagnitude;
    var r := RoundMagnitude(m, 4096 - s, sign, rounding);
    RoundsUp(m, s, sign, rounding);
    Around(m, s);
    hide Up;
    if sign == 1 { UpChoosesBelow(rounding, m, s, r.rounded); } else { UpChooses(rounding, m, s, r.rounded); }
  }

  // ---------------------------------------------------------------- to an integer

  /** 2^n in a word of `width` bits: zero once it is shifted out. */
  function OneShifted(n: nat, width: nat): nat { LowBits(1, n, width) }

  function Word(x: int, width: nat): nat { x % Pow2(width) }

  /** The last line's OR with the complement of the mask fills the bits above `width`. */
  function Extended(x: nat, width: nat, unsignedOutput: bool): nat
    requires 1 <= width <= 64
  {
    var kept := Word(x, width);
    if Shifted(kept, width - 1) % 2 == 1 && !unsignedOutput then kept + Word(0 - OneShifted(width, 64), 64) else kept
  }

  function MaximumBit(unsignedOutput: bool, width: nat): nat
    requires width >= 1
  {
    if unsignedOutput then width else width - 1
  }

  function IntegerBits(value: nat, wide64: bool, unsignedOutput: bool, width: nat, rounding: nat, saturating: bool,
                       requestValid: bool): Response
    requires 1 <= width <= 64
  {
    var f := FormatWide(wide64);
    var a := UnpackOperand(value, f);
    var r := RoundMagnitude(a.mantissa, a.exponent + 4096 - f.bias - f.precision, a.sign, rounding);
    var top := MaximumBit(unsignedOutput, width);
    var limit := OneShifted(top, 128);
    var overflow :=
      || (if a.sign == 1 && !unsignedOutput then r.rounded > limit else r.rounded >= limit)
      || (a.exponent > f.bias + top && a.mantissa != 0)
      || (unsignedOutput && a.sign == 1 && r.rounded != 0);
    var normal := Word(Signum(a.sign, Word(r.rounded, 64)), 64);
    var endpoint :=
      if a.sign == 0 then Word(OneShifted(top, 64) - 1, 64)
      else if unsignedOutput then 0 else Word(0 - OneShifted(top, 64), 64);
    var special := a.inf || a.nan;
    var selected := if a.nan then 0 else if special || (saturating && overflow) then endpoint else normal;
    var result := Extended(selected, width, unsignedOutput);
    Response(
      result, requestValid && rounding <= 6, special, overflow && !special, false,
      ((r.discarded && a.exponent < f.bias + f.precision) || overflow) && !special, result == 0)
  }

  /** The integers a width holds. */
  function Lowest(unsignedOutput: bool, width: nat): int
    requires width >= 1
  {
    if unsignedOutput then 0 else 0 - Pow2(width - 1)
  }

  function Highest(unsignedOutput: bool, width: nat): int
    requires width >= 1
  {
    Pow2(MaximumBit(unsignedOutput, width)) - 1
  }

  /** The one of them congruent to j modulo 2^width. */
  function Wrapped(j: int, unsignedOutput: bool, width: nat): int
    requires width >= 1
  {
    var r := Word(j, width);
    if r > Highest(unsignedOutput, width) then r - Pow2(width) else r
  }

  lemma WrappedIs(j: int, unsignedOutput: bool, width: nat)
    requires width >= 1
    ensures var v := Wrapped(j, unsignedOutput, width);
            && Lowest(unsignedOutput, width) <= v <= Highest(unsignedOutput, width)
            && Word(v, width) == Word(j, width)
            && (Lowest(unsignedOutput, width) <= j <= Highest(unsignedOutput, width) ==> v == j)
  {
    hide Pow2;
    Pow2Next(width - 1);
    WordRange(j, width);
    var v := Wrapped(j, unsignedOutput, width);
    SameWord(v, Word(j, width), width);
    if Lowest(unsignedOutput, width) <= j <= Highest(unsignedOutput, width) {
      if j >= 0 { WordOf(j, 0, width); } else { WordOf(j, -1, width); }
    }
  }

  lemma WordRange(x: int, width: nat)
    ensures Word(x, width) < Pow2(width)
  {
  }

  /** The residue is known from any multiple that brings it into range. */
  lemma WordOf(x: int, k: int, width: nat)
    requires 0 <= x - Scale(k, width) < Pow2(width)
    ensures Word(x, width) == x - Scale(k, width)
  {
    DivideUnique(x - Scale(k, width), k, Pow2(width));
  }

  lemma SameWord(x: int, r: nat, width: nat)
    requires r < Pow2(width) && (x == r || x == r - Pow2(width))
    ensures Word(x, width) == r
  {
    hide Pow2, Word;
    ScaleZero(width);
    ScaleOne(width);
    if x == r { WordOf(x, 0, width); } else { ScaleMinusOne(width); WordOf(x, -1, width); }
  }

  lemma ScaleMinusOne(n: nat)
    ensures Scale(-1, n) == 0 - Pow2(n)
  {
  }

  // ------------------------------------------------------- which integer, and its word

  function IntegralPlace(a: Operand, f: Format): int { a.exponent + 4096 - f.bias - f.precision }

  /** The selected magnitude, before any register truncates it. */
  function TrueInteger(a: Operand, f: Format, rounding: nat): nat
    requires IntegralPlace(a, f) >= 0
  {
    var lsb := IntegralPlace(a, f);
    if lsb >= 4096 then Field(a.mantissa, lsb - 4096) else RoundMagnitude(a.mantissa, lsb, a.sign, rounding).rounded
  }

  lemma SignumScaled(sign: nat, x: int, n: nat)
    ensures Scale(Signum(sign, x), n) == Signum(sign, Scale(x, n))
  {
  }

  lemma IntegerChosen(f: Format, n: nat, a: Operand, rounding: nat)
    requires (f == BINARY32 || f == BINARY64) && a.sign < 2 && rounding <= 6 && 1 <= a.exponent <= f.maximum
    requires a.mantissa == Significand(f, n) < Pow2(f.precision + 1) && a.exponent + Base(f) - 1 == Place(f, n)
    ensures var i, lsb := TrueInteger(a, f, rounding), IntegralPlace(a, f);
            && Chosen(rounding, Signum(a.sign, Value(f, n)), Signum(a.sign, i), 4096)
            && (Value(f, n) != Scale(i, 4096)
                <==> lsb < 4096 && RoundMagnitude(a.mantissa, lsb, a.sign, rounding).discarded)
  {
    hide Scale, Pow2, Shifted, Dropped, Significand, Place, Chosen, RoundMagnitude;
    var lsb, m := IntegralPlace(a, f), a.mantissa;
    if lsb >= 4096 {
      var i := Field(m, lsb - 4096);
      ScaleScale(m, lsb - 4096, 4096);
      ChosenExactly(rounding, Signum(a.sign, i), 4096);
      SignumScaled(a.sign, i, 4096);
    } else {
      var r := RoundMagnitude(m, lsb, a.sign, rounding);
      Pow2Grows(f.precision + 1, 126);
      PolicyChooses(m, 4096 - lsb, a.sign, rounding);
      ChosenScaled(rounding, Signum(a.sign, m), Signum(a.sign, r.rounded), 4096 - lsb, lsb);
      SignumScaled(a.sign, m, lsb);
      ScaledUp(m, r.rounded, 4096 - lsb, lsb);
    }
  }

  lemma WordOfWord(x: int, width: nat, wide: nat)
    requires width <= wide
    ensures Word(Word(x, wide), width) == Word(x, width)
  {
    Pow2Adds(width, wide - width);
    SplitResidue(x, Pow2(width), Pow2(wide - width));
  }

  /** The register keeps the low 64 bits of the integer, and all of it unless the exponent is
      past every width. */
  lemma RegisterKeeps(f: Format, a: Operand, rounding: nat)
    requires (f == BINARY32 || f == BINARY64) && a.exponent >= 1 && a.mantissa < Pow2(f.precision + 1)
    ensures var rounded := RoundMagnitude(a.mantissa, IntegralPlace(a, f), a.sign, rounding).rounded;
            && Word(rounded, 64) == Word(TrueInteger(a, f, rounding), 64)
            && (a.exponent <= f.bias + 64 ==> rounded == TrueInteger(a, f, rounding))
  {
    hide Scale, Pow2, Shifted, Dropped, Word, LowBits;
    var lsb, m := IntegralPlace(a, f), a.mantissa;
    if lsb >= 4096 {
      var d := lsb - 4096;
      if a.exponent <= f.bias + 64 {
        ScaleOrder(m, Pow2(f.precision + 1), d);
        ScalePow2(f.precision + 1, d);
        Pow2Grows(f.precision + 1 + d, 128);
        FitsWord(m, d, 128);
      }
      if d <= 127 {
        LowBitsIsWord(m, d, 128);
        WordOfWord(Scale(m, d), 64, 128);
      } else {
        LowBitsIsWord(m, 127, 128);
        WordOfWord(Scale(m, 127), 64, 128);
        ShiftedOut(m, 127, 64);
        ShiftedOut(m, d, 64);
      }
    }
  }

  lemma LowBitsIsWord(x: nat, amount: nat, width: nat)
    ensures LowBits(x, amount, width) == Word(Scale(x, amount), width)
  {
  }

  lemma ShiftedOut(x: nat, amount: nat, width: nat)
    requires amount >= width
    ensures Word(Scale(x, amount), width) == 0
  {
    hide Scale, Word, Pow2;
    ScaleScale(x, amount - width, width);
    WordOf(Scale(x, amount), Scale(x, amount - width), width);
  }

  /** An exponent beyond the width means an integer beyond it. */
  lemma TooLarge(f: Format, a: Operand, rounding: nat, top: nat)
    requires (f == BINARY32 || f == BINARY64) && a.exponent > f.bias + top && a.mantissa >= Pow2(f.precision)
    ensures TrueInteger(a, f, rounding) >= Pow2(top + 1)
  {
    hide Scale, Pow2, Shifted, Dropped, LowBits;
    var lsb, m, p := IntegralPlace(a, f), a.mantissa, f.precision;
    Pow2Grows(top + 1, a.exponent - f.bias);
    if lsb >= 4096 {
      ScaleOrder(Pow2(p), m, lsb - 4096);
      ScalePow2(p, lsb - 4096);
    } else {
      var s := 4096 - lsb;
      ShiftedBelow(m, p - s, s);
    }
  }

  lemma WordCongruent(x: int, y: int, k: int, width: nat)
    requires x == y + Scale(k, width)
    ensures Word(x, width) == Word(y, width)
  {
    hide Scale, Pow2;
    var q := y / Pow2(width);
    assert y - Scale(q, width) == Word(y, width) by { WordSplits(y, width); }
    WordRange(y, width);
    hide Word;
    ScaleAdds(q, k, width);
    WordOf(x, q + k, width);
  }

  lemma WordSplits(y: int, width: nat)
    ensures y == Scale(y / Pow2(width), width) + Word(y, width)
  {
    var p := Pow2(width);
    assert y == p * (y / p) + y % p;
  }

  /** Negating or decrementing may be done before or after cutting to a word. */
  lemma WordOfSigned(sign: nat, x: int, width: nat)
    ensures Word(Signum(sign, Word(x, width)), width) == Word(Signum(sign, x), width)
    ensures Word(Word(x, width) - 1, width) == Word(x - 1, width)
    ensures Word(0 - Word(x, width), width) == Word(0 - x, width)
  {
    hide Scale, Word;
    WordSplits(x, width);
    var q := x / Pow2(width);
    ScaleFlipped(q, width);
    WordCongruent(x, Word(x, width), q, width);
    WordCongruent(0 - x, 0 - Word(x, width), 0 - q, width);
    WordCongruent(x - 1, Word(x, width) - 1, q, width);
  }

  lemma ScaleFlipped(x: int, n: nat)
    ensures Scale(0 - x, n) == 0 - Scale(x, n)
  {
  }

  lemma OneShiftedIs(n: nat, width: nat)
    ensures OneShifted(n, width) == Word(Pow2(n), width)
    ensures n < width ==> OneShifted(n, width) == Pow2(n)
    ensures n == width ==> OneShifted(n, width) == 0
  {
    hide Scale, Pow2, Word, LowBits;
    LowBitsIsWord(1, n, width);
    ScaleOne(n);
    ScaleZero(width);
    if n < width {
      Pow2Order(n, width);
      WordOf(Pow2(n), 0, width);
    }
    if n == width { WordOf(Pow2(n), 1, width); }
  }

  /** Cutting to the width and extending gives the integer of that width congruent to c. */
  lemma ExtendedIs(c: int, width: nat, unsignedOutput: bool)
    requires 1 <= width <= 64
    ensures Extended(Word(c, 64), width, unsignedOutput) == Word(Wrapped(c, unsignedOutput, width), 64)
  {
    hide Scale, Pow2, Word, Shifted, OneShifted;
    WordOfWord(c, width, 64);
    WordRange(c, width);
    var kept := Word(c, width);
    Pow2Next(width - 1);
    Pow2Grows(width, 64);
    ScaleZero(64);
    ScaleMinusOne(64);
    if kept < Pow2(width - 1) {
      ShiftedAway(kept, width - 1);
      WordOf(kept, 0, 64);
    } else {
      ScaleOne(width - 1);
      SplitUnique(kept, width - 1, 1, kept - Pow2(width - 1));
      if unsignedOutput {
        WordOf(kept, 0, 64);
      } else {
        WordOf(kept - Pow2(width), -1, 64);
        OneShiftedIs(width, 64);
        if width == 64 { WordOf(0, 0, 64); } else { Pow2Order(width, 64); WordOf(0 - Pow2(width), -1, 64); }
      }
    }
  }

  /** The overflow flag is exactly that the selected integer is not one the width holds. */
  lemma OverflowIff(i: nat, sign: nat, unsignedOutput: bool, width: nat)
    requires 1 <= width <= 64 && sign < 2
    ensures var top := MaximumBit(unsignedOutput, width);
            var j, limit := Signum(sign, i), OneShifted(top, 128);
            (Lowest(unsignedOutput, width) <= j <= Highest(unsignedOutput, width))
            <==> !(if sign == 1 && !unsignedOutput then i > limit else i >= limit)
                 && !(unsignedOutput && sign == 1 && i != 0)
  {
    hide Pow2, OneShifted;
    OneShiftedIs(MaximumBit(unsignedOutput, width), 128);
  }

  /** The policy's integer where the width holds it, flagged and either wrapped into the width or
      clamped to its ends where it does not; inexact says whether anything was lost. */
  predicate Converted(r: Response, x: int, j: int, rounding: nat, unsignedOutput: bool, width: nat, saturating: bool)
    requires width >= 1
  {
    var low, high := Lowest(unsignedOutput, width), Highest(unsignedOutput, width);
    && Chosen(rounding, x, j, 4096)
    && r.overflow == !(low <= j <= high)
    && r.inexact == (r.overflow || x != Scale(j, 4096))
    && !r.invalid && !r.underflow && r.zero == (r.result == 0)
    && r.result == Word(
         if !r.overflow then j
         else if !saturating then Wrapped(j, unsignedOutput, width)
         else if j < low then low else high, 64)
  }

  /** Conversion to an integer of 1 to 64 bits, of every finite word by every policy. */
  lemma IntegerBitsConverts(value: nat, wide64: bool, unsignedOutput: bool, width: nat, rounding: nat, saturating: bool,
                            requestValid: bool) returns (j: int)
    requires Finite(FormatWide(wide64), value) && 1 <= width <= 64 && rounding <= 6
    ensures var f := FormatWide(wide64);
            var sign := SignOf(f, value);
            var r := IntegerBits(value, wide64, unsignedOutput, width, rounding, saturating, requestValid);
            && Converted(r, Signum(sign, Value(f, Magnitude(f, value))), j, rounding, unsignedOutput, width, saturating)
            && r.valid == requestValid
            && (sign == 1 ==> j <= 0) && (sign == 0 ==> j >= 0)
  {
    hide Scale, Pow2, Word, Shifted, Dropped, Magnitude, SignOf, Place, Significand, Extended, UnpackOperand,
      RoundMagnitude, OneShifted, Chosen, Wrapped, InfinityWord;
    var f := FormatWide(wide64);
    var a, n := UnpackOperand(value, f), Magnitude(f, value);
    OperandIs(value, f);
    IntegerChosen(f, n, a, rounding);
    var i, top := TrueInteger(a, f, rounding), MaximumBit(unsignedOutput, width);
    j := Signum(a.sign, i);
    SignumScaled(a.sign, i, 4096);
    RegisterKeeps(f, a, rounding);
    OverflowIff(i, a.sign, unsignedOutput, width);
    OneShiftedIs(top, 128);
    if a.exponent > f.bias + top && a.mantissa != 0 {
      TooLarge(f, a, rounding, top);
      Pow2Next(top);
      TopIsLowest(unsignedOutput, width);
    }
    WordOfSigned(a.sign, i, 64);
    WordOfSigned(a.sign, Pow2(top), 64);
    OneShiftedIs(top, 64);
    ExtendedIs(j, width, unsignedOutput);
    ExtendedIs(Lowest(unsignedOutput, width), width, unsignedOutput);
    ExtendedIs(Highest(unsignedOutput, width), width, unsignedOutput);
    WrappedIs(j, unsignedOutput, width);
    EndsAreHeld(unsignedOutput, width);
    WrappedIs(Lowest(unsignedOutput, width), unsignedOutput, width);
    WrappedIs(Highest(unsignedOutput, width), unsignedOutput, width);
    assert Word(0, 64) == 0 by { ScaleZero(64); WordOf(0, 0, 64); }
  }

  lemma TopIsLowest(unsignedOutput: bool, width: nat)
    requires width >= 1
    ensures !unsignedOutput ==> Lowest(unsignedOutput, width) == 0 - Pow2(MaximumBit(unsignedOutput, width))
  {
  }

  lemma EndsAreHeld(unsignedOutput: bool, width: nat)
    requires width >= 1
    ensures Lowest(unsignedOutput, width) <= 0 <= Highest(unsignedOutput, width)
  {
  }

  // -------------------------------------------------------------- from an integer

  /** The integer a 64-bit word stands for. */
  function IntegerOf(value: nat, unsignedInput: bool): int {
    if value >= Pow2(63) && !unsignedInput then value - Pow2(64) else value
  }

  function FromInteger(value: nat, unsignedInput: bool, code: nat, requestValid: bool): Response {
    var sign := if Shifted(value, 63) % 2 == 1 && !unsignedInput then 1 else 0;
    PackInteger(FormatOf(code), sign, if sign == 1 then Word(0 - value, 64) else value, requestValid)
  }

  /** Lines 16 to 66 of float_from_integer.py. */
  function PackInteger(f: Format, sign: nat, magnitude: nat, requestValid: bool): Response {
    var leading := LeadingOrZero(magnitude);
    var right := if leading >= f.precision then leading - f.precision else 0;
    var truncated :=
      if leading >= f.precision then Shifted(magnitude, right) else LowBits(magnitude, f.precision - leading, 64);
    var guard := right != 0 && Shifted(magnitude, right - 1) % 2 == 1;
    var sticky := right != 0 && Dropped(magnitude, right - 1) != 0;
    var rounded := truncated + if guard && (sticky || truncated % 2 == 1) then 1 else 0;
    var carry := Shifted(rounded, f.precision + 1) % 2 == 1;
    var normalized := if carry then Shifted(rounded, 1) else rounded;
    var exponent := leading + f.bias + if carry then 1 else 0;
    var overflow := exponent >= f.maximum;
    var field := if overflow then f.maximum else exponent;
    var fraction := if overflow then 0 else Dropped(normalized, f.precision);
    Response(
      if magnitude == 0 then 0 else Field(sign, f.position) + (Field(field, f.precision) + fraction),
      requestValid, false, overflow, false, guard || sticky || overflow, magnitude == 0)
  }

  lemma IntegerWord(value: nat, unsignedInput: bool)
    requires value < Pow2(64)
    ensures var negative := Shifted(value, 63) % 2 == 1 && !unsignedInput;
            var j := IntegerOf(value, unsignedInput);
            && (negative <==> j < 0)
            && Magn(j) == (if negative then Word(0 - value, 64) else value) < Pow2(64)
  {
    hide Pow2, Scale, Word, Shifted, Dropped;
    Pow2Next(63);
    if value < Pow2(63) {
      ShiftedAway(value, 63);
    } else {
      ScaleOne(63);
      SplitUnique(value, 63, 1, value - Pow2(63));
      ScaleMinusOne(64);
      WordOf(0 - value, -1, 64);
    }
  }

  /** For an integer the common packer's rounding position is the leading one less the precision. */
  lemma IntegerQuanta(f: Format, m: nat)
    requires Supported(f) && 0 < m < Pow2(64)
    ensures var l := Leading(m);
            && l < 64 && Base(f) + Binade(f, m, 4096) == 4096 + l - f.precision && l + f.bias >= 1
            && Quanta(f, m, 4096) == if l > f.precision then NearestEven(m, l - f.precision)
                                     else Field(m, f.precision - l)
  {
    hide Pow2, Scale, NearestEven, Leading;
    LeadingBelow(m, 64);
  }

  lemma FromIntegerFields(f: Format, m: nat)
    requires Supported(f) && 0 < m < Pow2(64)
    ensures var leading := Leading(m);
            var right := if leading >= f.precision then leading - f.precision else 0;
            var truncated :=
              if leading >= f.precision then Shifted(m, right) else LowBits(m, f.precision - leading, 64);
            var guard := right != 0 && Shifted(m, right - 1) % 2 == 1;
            var sticky := right != 0 && Dropped(m, right - 1) != 0;
            && truncated + (if guard && (sticky || truncated % 2 == 1) then 1 else 0) == Quanta(f, m, 4096)
            && ((guard || sticky) <==> leading > f.precision && Dropped(m, right) != 0)
  {
    hide Pow2, Scale, Shifted, Dropped, Leading, LowBits, Quanta, Binade, Base;
    var l, p := Leading(m), f.precision;
    IntegerQuanta(f, m);
    if l > p {
      Around(m, l - p);
    } else if l == p {
      ScaleByZero(m);
      ShiftByNothing(m);
    } else {
      ScaleOrder(m, Pow2(l + 1), p - l);
      ScalePow2(l + 1, p - l);
      Pow2Grows(p + 1, 64);
      FitsWord(m, p - l, 64);
    }
  }

  lemma CarriedFraction(t: nat, p: nat)
    requires t <= Pow2(p + 1)
    ensures Shifted(t, p + 1) % 2 == 1 ==> Dropped(Shifted(t, 1), p) == 0
  {
    hide Pow2, Scale, Shifted, Dropped;
    if t < Pow2(p + 1) {
      ShiftedAway(t, p + 1);
    } else {
      ScaleOne(p);
      ScaleZero(1);
      ScalePow2(p, 1);
      SplitUnique(t, 1, Pow2(p), 0);
      SplitUnique(Pow2(p), p, 1, 0);
    }
  }

  lemma PackIntegerRounds(f: Format, sign: nat, m: nat, requestValid: bool)
    requires Supported(f) && 0 < m < Pow2(64)
    ensures Scale(m, 4096) >= 0
    ensures var r := PackInteger(f, sign, m, requestValid);
            && Rounds(r, f, sign, Whole(Scale(m, 4096)), RoundedWord(f, m, 4096))
            && !r.zero && r.valid == requestValid && !r.invalid
  {
    hide Pow2, Scale, Shifted, Dropped, Leading, LowBits, Quanta, RoundedWord, Value, InfinityWord, Nearest, Same,
      Binade, Base;
    var n := RoundedWord(f, m, 4096);
    RoundedIsNearest(f, m, 4096);
    SameWhole(Value(f, n), Scale(m, 4096));
    IntegerQuanta(f, m);
    FromIntegerFields(f, m);
    Pow2Grows(64, 128);
    var field, fraction := PackedFields(f, m, 4096);
    InfinityIs(f, field, fraction);
    QuantaRange(f, m, 4096);
    CarriedFraction(Quanta(f, m, 4096), f.precision);
    ExactIffNothingDropped(f, m, 4096);
    ScaleOne(f.precision);
    ScaleOrder(1, field, f.precision);
  }

  lemma PackIntegerZero(f: Format, requestValid: bool)
    requires Supported(f)
    ensures Scale(0, 4096) >= 0
    ensures var r := PackInteger(f, 0, 0, requestValid);
            Rounds(r, f, 0, Whole(Scale(0, 4096)), 0) && r.zero && r.valid == requestValid && !r.invalid
  {
    hide Pow2, Scale, RoundedWord, Value, InfinityWord, Nearest, Same, PackInteger;
    RoundedIsNearest(f, 0, 4096);
    SameWhole(Value(f, 0), Scale(0, 4096));
    ScaleZero(4096);
    RoundedOfZero(f, 4096);
    ValueZero(f);
    InfinityPositive(f);
    ScaleZero(f.position);
    ZeroPacks(f, requestValid);
  }

  /** Every 64-bit integer becomes the nearest word of the format, rounded once. */
  lemma FromIntegerRounds(value: nat, unsignedInput: bool, code: nat, requestValid: bool) returns (n: nat)
    requires value < Pow2(64)
    ensures var f, j := FormatOf(code), IntegerOf(value, unsignedInput);
            var r := FromInteger(value, unsignedInput, code, requestValid);
            && Scale(Magn(j), 4096) >= 0
            && Rounds(r, f, if j < 0 then 1 else 0, Whole(Scale(Magn(j), 4096)), n)
            && r.zero == (j == 0) && r.valid == requestValid && !r.invalid
  {
    hide Pow2, Scale, Shifted, PackInteger, Rounds, IntegerOf, Word;
    var f, j := FormatOf(code), IntegerOf(value, unsignedInput);
    IntegerWord(value, unsignedInput);
    if j == 0 {
      n := 0;
      PackIntegerZero(f, requestValid);
    } else {
      n := RoundedWord(f, Magn(j), 4096);
      PackIntegerRounds(f, if j < 0 then 1 else 0, Magn(j), requestValid);
    }
  }

  lemma ZeroPacks(f: Format, requestValid: bool)
    requires Supported(f)
    ensures PackInteger(f, 0, 0, requestValid) == Response(0, requestValid, false, false, false, false, true)
  {
    hide Pow2, Scale, Shifted, Dropped, LowBits;
    ScaleZero(f.precision);
    FitsWord(0, f.precision, 64);
    ShiftedAway(0, f.precision + 1);
  }
}
