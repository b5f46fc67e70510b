/** The underflow flag against tininess after rounding (IEEE 754-2019, section 7.5), which
    examples/functional_float/float_formats.py announces: where the two agree, and where not. */
module FloatUnderflow {
  import opened Bits
  import opened Scaling
  import opened FloatValue
  import opened FloatFormats
  import opened FloatSticky
  import opened FloatFused
  import opened FloatConvert
  import opened FloatArithmetic

  /** The value of the smallest normal word, and of one unit in its last place. */
  function Smallest(f: Format): int
    requires Supported(f)
  {
    Value(f, Pow2(f.precision))
  }

  function Unit(f: Format): nat
    requires Supported(f)
  {
    Pow2(Base(f))
  }

  /** Rounded to the format's precision with unbounded exponent, x stays below the smallest
      normal value: it is less than that value by more than a quarter of a unit. */
  predicate Tiny(f: Format, x: Exact)
    requires Supported(f)
  {
    More(2 * Smallest(f) - Pow2(Base(f) - 1), x)
  }

  /** Tiny, and yet not below the midpoint under the smallest normal word. */
  predicate InBand(f: Format, x: Exact)
    requires Supported(f)
  {
    !More(2 * Smallest(f) - Unit(f), x) && Tiny(f, x)
  }

  // ------------------------------------------------------- what tininess means

  /** t is the multiple of 2^place nearest to x, the even one of two. */
  predicate NearestMultiple(x: Exact, place: nat, t: nat) {
    var u: int := t;
    && !More(Scale(2 * u - 1, place), x) && !Less(Scale(2 * u + 1, place), x)
    && (Same(Scale(2 * u - 1, place), x) || Same(Scale(2 * u + 1, place), x) ==> t % 2 == 0)
  }

  lemma SmallestIs(f: Format)
    requires Supported(f)
    ensures Smallest(f) == Scale(Pow2(f.precision), Base(f)) == Scale(Pow2(f.precision + 1), Base(f) - 1)
    ensures Value(f, Pow2(f.precision) - 1) == Smallest(f) - Unit(f)
    ensures Unit(f) == 2 * Pow2(Base(f) - 1)
  {
    hide Scale, Pow2, Value;
    var p := f.precision;
    Pow2Next(p);
    ScaleZero(p);
    ValueOfQuanta(f, 0, Pow2(p));
    ValueOfQuanta(f, 0, Pow2(p) - 1);
    ScaleAdds(Pow2(p), 1, Base(f));
    ScaleOne(Base(f));
    ScaleNext(Pow2(p), Base(f) - 1);
    Pow2Next(Base(f) - 1);
  }

  lemma MoreInOrder(c: int, c': int, x: Exact)
    requires Proper(x) && c <= c' && More(c, x)
    ensures More(c', x)
  {
    hide More;
    if c < c' && !More(c', x) { ComparesInOrder(c, c', x); NotBoth(c, x); }
  }

  lemma NotBoth(c: int, x: Exact)
    ensures More(c, x) ==> !Less(c, x) && !Same(c, x)
  {
  }

  /** Just below the smallest normal value a significand of full precision counts half units. x is
      tiny exactly when the nearest count of them is not yet the smallest normal value. */
  lemma TinyIsUnbounded(f: Format, x: Exact, t: nat)
    requires Supported(f) && Proper(x) && NearestMultiple(x, Base(f) - 1, t)
    ensures Tiny(f, x) <==> t < Pow2(f.precision + 1)
  {
    hide Scale, Pow2, Less, Same, Proper;
    var u: int, place, full: int := t, Base(f) - 1, Pow2(f.precision + 1);
    SmallestIs(f);
    ScaleAdds(2 * full, 1, place);
    ScaleTwice(full, place);
    ScaleOne(place);
    assert 2 * Smallest(f) - Pow2(place) == Scale(2 * full - 1, place);
    Pow2Next(f.precision);
    if t < full {
      ScaleOrder(2 * u + 1, 2 * full - 1, place);
      if t < full - 1 {
        ScaleOrder(2 * u + 1, 2 * full - 2, place);
        AboveIsMore(Scale(2 * u + 1, place), Scale(2 * full - 1, place), x);
      }
    } else {
      ScaleOrder(2 * full - 1, 2 * u - 1, place);
      if Tiny(f, x) { MoreInOrder(Scale(2 * full - 1, place), Scale(2 * u - 1, place), x); }
    }
  }

  lemma AboveIsMore(c: int, c': int, x: Exact)
    requires Proper(x) && c < c' && !Less(c, x)
    ensures More(c', x)
  {
    hide Less, Same, Proper;
    if !More(c', x) { ComparesInOrder(c, c', x); }
  }

  // ------------------------------------------------------------ the flag and the band

  /** The rounded word is below the smallest normal one exactly below the midpoint between them. */
  lemma BelowNormal(f: Format, x: Exact, n: nat)
    requires Supported(f) && Proper(x) && Nearest(f, x, n)
    ensures n < Pow2(f.precision) <==> More(2 * Smallest(f) - Unit(f), x)
  {
    hide Value, Pow2, Less, Same, Proper, Smallest, Unit;
    var s := Pow2(f.precision);
    SmallestIs(f);
    var mid := 2 * Smallest(f) - Unit(f);
    assert mid == Value(f, s - 1) + Value(f, s) by { SmallestUnfolds(f); }
    EvenPower(f);
    if n < s {
      var above := Value(f, n) + Value(f, n + 1);
      if n < s - 1 {
        ValueIncreases(f, n, s - 1);
        ValueIncreases(f, n + 1, s);
        AboveOrSame(above, mid, x);
      }
    } else {
      var below := Value(f, n - 1) + Value(f, n);
      if n > s {
        ValueIncreases(f, s - 1, n - 1);
        ValueIncreases(f, s, n);
        if More(mid, x) { MoreInOrder(mid, below, x); NotBoth(below, x); }
      } else {
        NotBoth(mid, x);
      }
    }
  }

  lemma AboveOrSame(c: int, c': int, x: Exact)
    requires Proper(x) && c < c' && (More(c, x) || Same(c, x))
    ensures More(c', x)
  {
    hide Proper;
    LessIsNotSame(c, x);
    hide Less, Same;
    AboveIsMore(c, c', x);
  }

  lemma SmallestUnfolds(f: Format)
    requires Supported(f)
    ensures Smallest(f) == Value(f, Pow2(f.precision))
  {
  }

  lemma EvenPower(f: Format)
    requires Supported(f)
    ensures Pow2(f.precision) % 2 == 0 && Pow2(f.precision) > 0
  {
    hide Pow2;
    Pow2Next(f.precision - 1);
  }

  /** The code's rule, inexact with a zero exponent field, is inexact and tiny after rounding for
      every exact value outside the band, and for none inside it. */
  lemma UnderflowIsTiny(f: Format, x: Exact, n: nat)
    requires Supported(f) && Proper(x) && Nearest(f, x, n)
    ensures var lost := !Same(2 * Value(f, n), x);
            var underflow, inexact := n < Pow2(f.precision) && lost, n >= InfinityWord(f) || lost;
            (underflow == (inexact && Tiny(f, x))) <==> !InBand(f, x)
  {
    hide Value, Pow2, Less, Same, Proper, InfinityWord, Nearest, Smallest, Unit;
    var s := Pow2(f.precision);
    BelowNormal(f, x, n);
    SmallestIs(f);
    InfinityAbove(f);
    var mid, edge := 2 * Smallest(f) - Unit(f), 2 * Smallest(f) - Pow2(Base(f) - 1);
    if n < s {
      MoreInOrder(mid, edge, x);
    } else if Tiny(f, x) {
      // x lies strictly below the smallest normal value, which is at most the rounded one.
      SmallestUnfolds(f);
      if n > s { ValueIncreases(f, s, n); }
      MoreInOrder(edge, 2 * Value(f, n), x);
      NotBoth(2 * Value(f, n), x);
    }
  }

  lemma InfinityAbove(f: Format)
    requires Supported(f)
    ensures Pow2(f.precision) <= InfinityWord(f) && Pow2(Base(f) - 1) > 0
  {
    hide Pow2;
    ProductOrder(1, f.maximum, Pow2(f.precision));
  }

  /** Packing: the underflow flag is tininess after rounding, for every magnitude, scale and
      format outside the band, and differs from it throughout the band. */
  lemma PackUnderflow(sign: nat, magnitude: nat, lsb: nat, f: Format)
    requires Supported(f) && magnitude < Pow2(128) && lsb < 8192
    ensures Scale(magnitude, lsb) >= 0
    ensures var r, x := PackFloat(sign, magnitude, lsb, f), Whole(Scale(magnitude, lsb));
            (r.underflow == (r.inexact && Tiny(f, x))) <==> !InBand(f, x)
  {
    hide Scale, Pow2, Value, PackFloat, Nearest, Tiny, InBand, Same, InfinityWord;
    var n := PackRounds(sign, magnitude, lsb, f);
    UnderflowIsTiny(f, Whole(Scale(magnitude, lsb)), n);
    SameWhole(Value(f, n), Scale(magnitude, lsb));
  }

  /** Products, quotients and square roots of both widths, and integers: whatever rounds as the
      kernels owe. */
  lemma RoundsUnderflow(r: Response, f: Format, sign: nat, x: Exact, n: nat)
    requires Supported(f) && Proper(x) && Rounds(r, f, sign, x, n)
    ensures (r.underflow == (r.inexact && Tiny(f, x))) <==> !InBand(f, x)
  {
    hide Value, Pow2, Nearest, Tiny, InBand, Same, InfinityWord, Proper;
    UnderflowIsTiny(f, x, n);
  }

  lemma FusedUnderflow(lhs: nat, rhs: nat, addend: nat, code: nat, requestValid: bool)
    requires var f := FormatOf(code); Finite(f, lhs) && Finite(f, rhs) && Finite(f, addend)
    ensures var f, r := FormatOf(code), FusedFormats(lhs, rhs, addend, code, requestValid);
            var x := Whole(Magn(ExactFused(f, lhs, rhs, addend)));
            (r.underflow == (r.inexact && Tiny(f, x))) <==> !InBand(f, x)
  {
    hide Value, Pow2, Nearest, Tiny, InBand, Same, InfinityWord, FusedFormats, ExactFused, Finite;
    var f := FormatOf(code);
    var n := FusedRounds(lhs, rhs, addend, code, requestValid);
    var sum := ExactFused(f, lhs, rhs, addend);
    UnderflowIsTiny(f, Whole(Magn(sum)), n);
    SameWhole(Value(f, n), Magn(sum));
  }

  lemma ConvertUnderflow(word: nat, source: nat, destination: nat, requestValid: bool)
    requires Finite(FormatOf(source), word)
    ensures Value(FormatOf(source), Magnitude(FormatOf(source), word)) >= 0
    ensures var f, g := FormatOf(source), FormatOf(destination);
            var r := ConvertBits(word, source, destination, requestValid);
            var x := Whole(Value(f, Magnitude(f, word)));
            (r.underflow == (r.inexact && Tiny(g, x))) <==> !InBand(g, x)
  {
    hide Value, Pow2, Nearest, Tiny, InBand, Same, InfinityWord, ConvertBits, ConvertedWord, Finite, Magnitude;
    var f, g := FormatOf(source), FormatOf(destination);
    ConvertRounds(word, source, destination, requestValid);
    var n, v := ConvertedWord(f, g, Magnitude(f, word)), Value(f, Magnitude(f, word));
    UnderflowIsTiny(g, Whole(v), n);
    SameWhole(Value(g, n), v);
  }

  // -------------------------------------------------------------- an instance of the band

  /** At the midpoint itself the tie goes up, to the even word. */
  lemma AtMidpoint(f: Format, x: Exact, n: nat)
    requires Supported(f) && Proper(x) && Nearest(f, x, n)
    requires Same(2 * Smallest(f) - Unit(f), x)
    ensures n == Pow2(f.precision) && InBand(f, x)
  {
    hide Value, Pow2, Less, Same, Proper, Smallest, Unit, Nearest;
    var s, mid := Pow2(f.precision), 2 * Smallest(f) - Unit(f);
    SmallestIs(f);
    InfinityAbove(f);
    EvenPower(f);
    SmallestUnfolds(f);
    NotBoth(mid, x);
    AboveOrSame(mid, 2 * Smallest(f) - Pow2(Base(f) - 1), x);
    assert n == s by {
      ValueIncreases(f, s - 1, s);
      ValueIncreases(f, s, s + 1);
      AboveOrSame(mid, Value(f, s) + Value(f, s + 1), x);
      NearestByParts(f, x, s);
      NearestUnique(f, x, n, s);
    }
  }

  lemma NearestByParts(f: Format, x: Exact, n: nat)
    requires Supported(f) && n > 0 && n % 2 == 0
    requires Same(Value(f, n - 1) + Value(f, n), x) && More(Value(f, n) + Value(f, n + 1), x)
    ensures Nearest(f, x, n)
  {
  }

  /** (2^24 - 1) * 2^-150, half a binary32 unit below the smallest normal value. */
  const BAND_WORD: nat := 0x380F_FFFF_E000_0000

  lemma BandValue()
    ensures Magnitude(BINARY64, BAND_WORD) == BAND_WORD < InfinityWord(BINARY64) && SignOf(BINARY64, BAND_WORD) == 0
    ensures Value(BINARY64, BAND_WORD) == Scale(0xFF_FFFF, 3946)
  {
    hide Scale, Pow2, Shifted, Dropped, Value;
    var f, t := BINARY64, 0xFF_FFFF * 0x2000_0000;
    PowersOfPrecision();
    Pow2Next(52);
    ScaleIs(895, 52);
    ScaleIs(0xFF_FFFF, 29);
    ValueOfQuanta(f, 895, t);
    ScaleScale(0xFF_FFFF, 29, 3917);
    InfinityFits(f);
    ScaleZero(63);
    SplitUnique(BAND_WORD, 63, 0, BAND_WORD);
  }

  /** A binary64 word whose binary32 conversion is tiny and inexact and does not flag underflow. */
  lemma BandWordHidesUnderflow()
    ensures var r := ConvertBits(BAND_WORD, 1, 0, true);
            r.result == 0x80_0000 && r.inexact && !r.underflow
    ensures Value(BINARY64, BAND_WORD) >= 0 && Tiny(BINARY32, Whole(Value(BINARY64, BAND_WORD)))
  {
    hide Scale, Pow2, Value, Nearest, InfinityWord, ConvertBits, ConvertedWord, Tiny, InBand, Same, Smallest, Unit;
    var v, n := Scale(0xFF_FFFF, 3946), ConvertedWord(BINARY64, BINARY32, BAND_WORD);
    BandValue();
    ConvertRounds(BAND_WORD, 1, 0, true);
    BandMidpoint();
    AtMidpoint(BINARY32, Whole(v), n);
    InBandIsTiny(BINARY32, Whole(v));
    ConvertUnderflow(BAND_WORD, 1, 0, true);
    PowersOfPrecision();
    InfinityAbove(BINARY32);
    ScaleZero(31);
  }

  lemma InBandIsTiny(f: Format, x: Exact)
    requires Supported(f) && InBand(f, x)
    ensures Tiny(f, x)
  {
  }

  lemma BandMidpoint()
    ensures Scale(0xFF_FFFF, 3946) >= 0 && Same(2 * Smallest(BINARY32) - Unit(BINARY32), Whole(Scale(0xFF_FFFF, 3946)))
  {
    hide Scale, Pow2, Value, Smallest, Unit, Same;
    PowersOfPrecision();
    SmallestIs(BINARY32);
    ScaleZero(3946);
    ScaleOrder(0, 0xFF_FFFF, 3946);
    ScaleTwice(0xFF_FFFF, 3946);
    ScaleTwice(0x80_0000, 3946);
    ScaleNext(0xFF_FFFF, 3946);
    ScaleAdds(0x100_0000, 1, 3946);
    ScaleOne(3946);
    Pow2Next(23);
    SameWhole(Scale(0xFF_FFFF, 3946), Scale(0xFF_FFFF, 3946));
    UnitUnfolds(BINARY32);
  }

  lemma UnitUnfolds(f: Format)
    requires Supported(f)
    ensures Unit(f) == Pow2(Base(f))
  {
  }
}
