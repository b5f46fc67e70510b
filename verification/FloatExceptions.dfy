/** What the kernels return for infinities, NaNs and the operands with no result: every input the
    rounding theorems leave out.  A magnitude above the infinity word is a NaN. */
module FloatExceptions {
  import opened Bits
  import opened Scaling
  import opened FloatValue
  import opened FloatFormats
  import opened FloatFused
  import opened FloatConvert
  import opened FloatArithmetic
  import opened FloatSqrt
  import opened FloatLog
  import opened FloatIntegral
  import opened FloatRoundIntegral

  /** Infinity times zero has no product; any other infinite product is a signed infinity. */
  lemma ProductExceptions(lhs: nat, rhs: nat, rounded: Response, f: Format, requestValid: bool)
    requires Supported(f) && !(Finite(f, lhs) && Finite(f, rhs))
    ensures var m, n, inf := Magnitude(f, lhs), Magnitude(f, rhs), InfinityWord(f);
            var sign, none := (SignOf(f, lhs) + SignOf(f, rhs)) % 2, (m == inf && n == 0) || (m == 0 && n == inf);
            var r := ProductResult(UnpackOperand(lhs, f), UnpackOperand(rhs, f), rounded, f, requestValid);
            && r.result == (if m > inf || n > inf || none then QuietNan(f) else Signed(f, sign, inf))
            && (m > inf || n > inf || none ==> IsQuietNan(f, r.result))
            && r.invalid == (Signalling(f, m) || Signalling(f, n) || none)
            && r.valid == (requestValid && !r.invalid)
            && !r.overflow && !r.underflow && !r.inexact && !r.zero
  {
    hide Scale, Pow2, UnpackOperand, SignOf, Magnitude, QuietNan, Place, Significand, InfinityWord;
    OperandIs(lhs, f);
    OperandIs(rhs, f);
    InfinityIsField(f);
    QuietNanIs(f);
  }

  /** The same for a product with an addend: infinities of opposite sign have no sum. */
  lemma FusedExceptions(lhs: nat, rhs: nat, addend: nat, code: nat, requestValid: bool)
    requires var f := FormatOf(code); !(Finite(f, lhs) && Finite(f, rhs) && Finite(f, addend))
    ensures var f := FormatOf(code);
            var m, n, k, inf := Magnitude(f, lhs), Magnitude(f, rhs), Magnitude(f, addend), InfinityWord(f);
            var sign, infinite := (SignOf(f, lhs) + SignOf(f, rhs)) % 2, (m == inf || n == inf) && m <= inf && n <= inf;
            var none := (infinite && (m == 0 || n == 0)) || (infinite && k == inf && sign != SignOf(f, addend));
            var r := FusedFormats(lhs, rhs, addend, code, requestValid);
            && r.result == (if m > inf || n > inf || k > inf || none then QuietNan(f)
                            else Signed(f, if infinite then sign else SignOf(f, addend), inf))
            && (m > inf || n > inf || k > inf || none ==> IsQuietNan(f, r.result))
            && r.invalid == (Signalling(f, m) || Signalling(f, n) || Signalling(f, k) || none)
            && r.valid == (requestValid && !r.invalid)
            && !r.overflow && !r.underflow && !r.inexact && !r.zero && !r.divideByZero
  {
    hide Scale, Pow2, UnpackFloat, SignOf, Magnitude, QuietNan, Place, Significand, InfinityWord, FusedSum, PackFloat;
    var f := FormatOf(code);
    UnpackIs(lhs, f);
    UnpackIs(rhs, f);
    UnpackIs(addend, f);
    InfinityIsField(f);
    QuietNanIs(f);
  }

  lemma ConvertExceptions(word: nat, source: nat, destination: nat, requestValid: bool)
    requires !Finite(FormatOf(source), word)
    ensures var f, g := FormatOf(source), FormatOf(destination);
            var r := ConvertBits(word, source, destination, requestValid);
            && r.result == (if Magnitude(f, word) > InfinityWord(f) then QuietNan(g)
                            else Signed(g, SignOf(f, word), InfinityWord(g)))
            && (Magnitude(f, word) > InfinityWord(f) ==> IsQuietNan(g, r.result))
            && r.invalid == Signalling(f, Magnitude(f, word)) && r.valid == (requestValid && !r.invalid)
            && !r.overflow && !r.underflow && !r.inexact && !r.zero && !r.divideByZero
  {
    hide Scale, Pow2, UnpackFloat, SignOf, Magnitude, QuietNan, Place, Significand, InfinityWord, PackFloat;
    UnpackIs(word, FormatOf(source));
    InfinityIsField(FormatOf(source));
    InfinityIsField(FormatOf(destination));
    QuietNanIs(FormatOf(destination));
  }

  /** The logarithm of zero is minus infinity and signalled; of a negative word there is none. */
  lemma LogExceptions(value: nat, requestValid: bool)
    ensures var f, r := BINARY32, LogBits(value, requestValid);
            var m, inf := Magnitude(f, value), InfinityWord(f);
            && (m == 0 ==> r.result == Signed(f, 1, inf))
            && (m > inf || (m > 0 && SignOf(f, value) == 1) ==> r.result == QuietNan(f) && IsQuietNan(f, r.result))
            && (m == inf && SignOf(f, value) == 0 ==> r.result == inf)
            && r.divideByZero == (m == 0)
            && r.invalid == (Signalling(f, m) || (0 < m <= inf && SignOf(f, value) == 1))
            && r.valid == (requestValid && !r.invalid)
            && (m == 0 || m >= inf || r.invalid ==> !r.overflow && !r.underflow && !r.inexact && !r.zero)
  {
    hide Scale, Pow2, UnpackFloat, SignOf, Magnitude, QuietNan, Place, Significand, InfinityWord, PackFloat, LogSteps,
      MultiplyShift80, LogArgument, LogSignificand, LogShift;
    UnpackIs(value, BINARY32);
    InfinityIsField(BINARY32);
    PowerOf23();
    ScaledMaximum();
    QuietNanIs(BINARY32);
  }

  lemma ScaledMaximum()
    ensures Pow2(23) == 0x80_0000 ==> Field(255, 23) == 0x7F80_0000
  {
  }

  /** A NaN becomes zero and an infinity the end of the range on its side, both flagged invalid. */
  lemma IntegerBitsExceptions(value: nat, wide64: bool, unsignedOutput: bool, width: nat, rounding: nat,
                              saturating: bool, requestValid: bool)
    requires !Finite(FormatWide(wide64), value) && 1 <= width <= 64
    ensures var f := FormatWide(wide64);
            var r := IntegerBits(value, wide64, unsignedOutput, width, rounding, saturating, requestValid);
            && r.invalid && r.valid == (requestValid && rounding <= 6)
            && !r.overflow && !r.underflow && !r.inexact && r.zero == (r.result == 0)
            && r.result == Word(
                 if Magnitude(f, value) > InfinityWord(f) then 0
                 else if SignOf(f, value) == 1 then Lowest(unsignedOutput, width)
                 else Highest(unsignedOutput, width), 64)
  {
    hide Scale, Pow2, Word, Magnitude, SignOf, Place, Significand, Extended, UnpackOperand, RoundMagnitude, OneShifted,
      Wrapped, InfinityWord;
    var f, top := FormatWide(wide64), MaximumBit(unsignedOutput, width);
    OperandIs(value, f);
    WordOfSigned(0, Pow2(top), 64);
    OneShiftedIs(top, 64);
    ExtendedIs(0, width, unsignedOutput);
    ExtendedIs(Lowest(unsignedOutput, width), width, unsignedOutput);
    ExtendedIs(Highest(unsignedOutput, width), width, unsignedOutput);
    EndsAreHeld(unsignedOutput, width);
    WrappedIs(0, unsignedOutput, width);
    WrappedIs(Lowest(unsignedOutput, width), unsignedOutput, width);
    WrappedIs(Highest(unsignedOutput, width), unsignedOutput, width);
    assert Word(0, 64) == 0 by { ScaleZero(64); WordOf(0, 0, 64); }
  }

  /** An infinity is its own integral value; a NaN becomes the quiet one. */
  lemma RoundIntegralExceptions(value: nat, wide64: bool, rounding: nat, requestValid: bool)
    requires !Finite(FormatWide(wide64), value) && rounding <= 6
    ensures var f, r := FormatWide(wide64), RoundIntegral(value, wide64, rounding, requestValid);
            && !r.inexact && !r.overflow && !r.underflow && r.invalid == Signalling(f, Magnitude(f, value))
            && r.valid == (requestValid && !r.invalid)
            && (Magnitude(f, value) > InfinityWord(f) ==> r.result == QuietNan(f) && IsQuietNan(f, r.result))
            && (Magnitude(f, value) == InfinityWord(f) ==>
                  SignOf(f, r.result) == SignOf(f, value) && Magnitude(f, r.result) == InfinityWord(f))
  {
    hide Scale, Pow2, Magnitude, SignOf, InfinityWord, UnpackOperand, IntegerBits, FromInteger, Dropped, QuietNan,
      Place, Significand;
    OperandIs(value, FormatWide(wide64));
    OriginalKept(FormatWide(wide64), value);
    QuietNanIs(FormatWide(wide64));
  }
}
