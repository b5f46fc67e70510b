/** One-rounding conversion among the four formats (examples/functional_float/float_convert.py). */
module FloatConvert {
  import opened Bits
  import opened Scaling
  import opened FloatValue
  import opened FloatFormats
  import opened FloatFused

  function ConvertBits(word: nat, source: nat, destination: nat, requestValid: bool): FloatWord {
    var parts, g := UnpackFloat(word, FormatOf(source)), FormatOf(destination);
    var rounded := PackFloat(parts.sign, parts.significand, parts.lsbBias, g);
    var infinity := Signed(g, parts.sign, Field(g.maximum, g.precision));
    var finite := !(parts.nan || parts.inf);
    FloatWord(
      if parts.nan then QuietNan(g) else if parts.inf then infinity else rounded.result,
      requestValid && !parts.snan, parts.snan, rounded.overflow && finite, rounded.underflow && finite,
      rounded.inexact && finite, parts.zero || (rounded.zero && finite), false)
  }

  /** The magnitude word a conversion rounds to. */
  function ConvertedWord(f: Format, g: Format, n: nat): nat
    requires Supported(f) && Supported(g)
  {
    RoundedWord(g, Significand(f, n), Place(f, n))
  }

  lemma PartsFit(word: nat, f: Format)
    requires Supported(f)
    ensures UnpackFloat(word, f).significand < Pow2(128) && UnpackFloat(word, f).lsbBias < 8192
  {
    hide UnpackFloat, Pow2;
    UnpackIs(word, f);
    Pow2Grows(f.precision + 1, 128);
  }

  /** A finite word converts to the destination word nearest its value. */
  lemma ConvertRounds(word: nat, source: nat, destination: nat, requestValid: bool)
    requires Finite(FormatOf(source), word)
    ensures var f, g := FormatOf(source), FormatOf(destination);
            var r, m := ConvertBits(word, source, destination, requestValid), Magnitude(f, word);
            var n, v := ConvertedWord(f, g, m), Value(f, m);
            && v >= 0 && Nearest(g, Whole(v), n)
            && r.result == Signed(g, SignOf(f, word), AtMost(n, InfinityWord(g)))
            && r.overflow == (n >= InfinityWord(g))
            && r.inexact == (r.overflow || Value(g, n) != v)
            && r.underflow == (n < Pow2(g.precision) && Value(g, n) != v)
            && r.zero == (n == 0) && r.valid == requestValid && !r.invalid && !r.divideByZero
  {
    hide UnpackFloat, Pow2, PackFloat, RoundedWord, Nearest, InfinityWord, Significand, Place, Magnitude, SignOf,
      QuietNan;
    var f, g := FormatOf(source), FormatOf(destination);
    UnpackIs(word, f);
    PartsFit(word, f);
    var u := UnpackFloat(word, f);
    RoundedIsNearest(g, u.significand, u.lsbBias);
    PackIs(u.sign, u.significand, u.lsbBias, g);
    PackFlags(u.sign, u.significand, u.lsbBias, g);
    if Magnitude(f, word) == 0 {
      ValueZero(f);
      NearestZero(g);
      NearestUnique(g, Whole(0), ConvertedWord(f, g, 0), 0);
    }
  }

  // ------------------------------------------------------------- within one format

  lemma NearestOfItself(f: Format, n: nat)
    requires Supported(f)
    ensures Value(f, n) >= 0 && Nearest(f, Whole(Value(f, n)), n)
  {
    hide Value;
    ValueZero(f);
    ValueIncreases(f, n, n + 1);
    if n > 0 {
      ValueIncreases(f, 0, n);
      ValueIncreases(f, n - 1, n);
    }
  }

  /** The low position + 1 bits of a word: all a format looks at. */
  lemma WordOfParts(f: Format, word: nat)
    requires word < Pow2(f.position + 1)
    ensures word == Signed(f, SignOf(f, word), Magnitude(f, word))
  {
    hide Scale, Pow2, Shifted, Dropped;
    SplitAt(word, f.position);
    ShiftedBelow(word, 1, f.position);
    assert Pow2(1) == 2 by { PowerOne(); }
  }

  lemma PartsOfWord(f: Format, sign: nat, n: nat)
    requires sign < 2 && n < Pow2(f.position)
    ensures SignOf(f, Signed(f, sign, n)) == sign && Magnitude(f, Signed(f, sign, n)) == n
  {
    hide Scale, Pow2, Shifted, Dropped;
    SplitUnique(Signed(f, sign, n), f.position, sign, n);
  }

  lemma InfinityFits(f: Format)
    requires Supported(f)
    ensures InfinityWord(f) < Pow2(f.position)
  {
    hide Pow2;
    ExponentRange(f);
    StrictProduct(f.maximum, f.maximum + 1, Pow2(f.precision));
  }

  /** A NaN that does not signal, with the sign bit clear. */
  predicate IsQuietNan(f: Format, word: nat)
    requires Supported(f)
  {
    SignOf(f, word) == 0 && Magnitude(f, word) > InfinityWord(f) && !Signalling(f, Magnitude(f, word))
  }

  /** The NaN that every kernel returns. */
  lemma QuietNanIs(f: Format)
    requires Supported(f)
    ensures IsQuietNan(f, QuietNan(f))
  {
    hide Pow2, Scale, Magnitude, SignOf, InfinityWord;
    InfinityIs(f, f.maximum, 0);
    InfinityRoom(f);
    Pow2Next(f.precision - 1);
    ScaleZero(f.position);
    PartsOfWord(f, 0, QuietNan(f));
  }

  lemma InfinityRoom(f: Format)
    requires Supported(f)
    ensures InfinityWord(f) + Pow2(f.precision) == Pow2(f.position)
  {
    hide Pow2;
    ExponentRange(f);
    OneTimesMore(f.maximum, Pow2(f.precision));
  }

  lemma OneTimesMore(a: nat, b: nat)
    ensures (a + 1) * b == a * b + b
  {
  }

  lemma QuietNanWords()
    ensures QuietNan(FormatOf(0)) == 0x7FC0_0000 && QuietNan(FormatOf(1)) == 0x7FF8_0000_0000_0000
    ensures QuietNan(FormatOf(2)) == 0x7E00 && QuietNan(FormatOf(3)) == 0x7FC0
  {
    hide Pow2, Scale;
    PowersOfPrecision();
    FieldPowers();
    Pow2Next(22);
    Pow2Next(51);
    Pow2Next(10);
    Pow2Next(9);
    Pow2Next(7);
    Pow2Next(6);
    ScaleIs(255, 23);
    ScaleIs(2047, 52);
    ScaleIs(31, 10);
    ScaleIs(255, 7);
  }

  /** Converting a word that is not a NaN to its own format changes nothing. */
  lemma ConvertIdentity(word: nat, code: nat, requestValid: bool)
    requires word < Pow2(FormatOf(code).position + 1) && Magnitude(FormatOf(code), word) <= InfinityWord(FormatOf(code))
    ensures var r := ConvertBits(word, code, code, requestValid);
            r.result == word && !r.inexact && !r.overflow && !r.underflow && !r.invalid
  {
    hide UnpackFloat, Pow2, PackFloat, RoundedWord, Nearest, Significand, Place, Magnitude, SignOf, QuietNan, Value,
      Scale, InfinityWord;
    var f := FormatOf(code);
    UnpackIs(word, f);
    WordOfParts(f, word);
    if Finite(f, word) {
      ConvertRounds(word, code, code, requestValid);
      var n := Magnitude(f, word);
      NearestOfItself(f, n);
      NearestUnique(f, Whole(Value(f, n)), ConvertedWord(f, f, n), n);
      UnderflowIsInexact(word, code, code, requestValid);
    } else {
      InfinityIs(f, f.maximum, 0);
    }
  }

  lemma UnderflowIsInexact(word: nat, source: nat, destination: nat, requestValid: bool)
    ensures ConvertBits(word, source, destination, requestValid).underflow
        ==> ConvertBits(word, source, destination, requestValid).inexact
  {
    hide UnpackFloat, Pow2, RoundShifted, ShiftBias, Shifted, Dropped;
  }

  // --------------------------------------------------------- between two formats

  /** Every value of `f` is a value of `g`. */
  predicate Widens(f: Format, g: Format) {
    f.precision <= g.precision && f.bias <= g.bias && f.bias + f.precision <= g.bias + g.precision
  }

  lemma WideningIsExact(f: Format, g: Format, n: nat)
    requires Supported(f) && Supported(g) && Widens(f, g) && n < InfinityWord(f)
    ensures var k := ConvertedWord(f, g, n);
            Value(g, k) == Value(f, n) && k < InfinityWord(g)
  {
    hide Pow2, RoundedWord, Scale, InfinityWord, Shifted, Dropped, Value;
    var s, place := Significand(f, n), Place(f, n);
    if s == 0 {
      RoundedOfZero(g, place);
      ZeroIsExact(f, g, n);
    } else {
      SignificandRange(f, n);
      LeadingBelow(s, f.precision + 1);
      assert Value(f, n) == Scale(s, place) by { ValueIs(f, n); }
      LeadingRange(g, s, place);
      ExactIffNothingDropped(g, s, place);
      QuantaOfExact(f, g, n);
    }
  }

  lemma ValueIs(f: Format, n: nat)
    requires Supported(f)
    ensures Value(f, n) == Scale(Significand(f, n), Place(f, n))
  {
  }

  lemma ZeroIsExact(f: Format, g: Format, n: nat)
    requires Supported(f) && Supported(g) && Significand(f, n) == 0
    ensures Value(f, n) == 0 == Value(g, 0) && 0 < InfinityWord(g)
  {
    hide Pow2, Scale, InfinityWord, Significand, Place;
    ScaleZero(Place(f, n));
    ValueZero(g);
    InfinityPositive(g);
  }

  lemma SignificandRange(f: Format, n: nat)
    requires Supported(f)
    ensures Significand(f, n) < Pow2(f.precision + 1)
    ensures n < InfinityWord(f) ==> Place(f, n) + 1 < Base(f) + f.maximum
  {
    hide Pow2, Scale, InfinityWord, Shifted, Dropped;
    SplitAt(n, f.precision);
    Pow2Next(f.precision);
    InfinityIs(f, Exponent(f, n), Fraction(f, n));
  }

  lemma ExactQuanta(g: Format, s: nat, lsb: nat)
    requires Supported(g) && s > 0 && lsb >= Base(g) + Binade(g, s, lsb)
    ensures Quanta(g, s, lsb) < Pow2(g.precision + 1)
  {
    hide Pow2, Scale, Leading, Base, Binade;
    var k, l := lsb - Base(g) - Binade(g, s, lsb), Leading(s);
    LeadingRange(g, s, lsb);
    ScaleOrder(s, Pow2(l + 1), k);
    ScalePow2(l + 1, k);
    Pow2Grows(l + 1 + k, g.precision + 1);
  }

  lemma TopOfFinite(f: Format, g: Format, place: nat, l: nat)
    requires Supported(f) && Supported(g) && Widens(f, g) && place + 1 < Base(f) + f.maximum && l <= f.precision
    ensures place + l + g.bias - 4096 < g.maximum
  {
  }

  /** A value of `f` stays below the infinity of `g`. */
  lemma QuantaOfExact(f: Format, g: Format, n: nat)
    requires Supported(f) && Supported(g) && Widens(f, g) && n < InfinityWord(f) && Significand(f, n) > 0
    requires Place(f, n) >= Base(g) + Binade(g, Significand(f, n), Place(f, n))
    ensures ConvertedWord(f, g, n) < InfinityWord(g)
  {
    hide Pow2, Scale, InfinityWord, Shifted, Dropped, Leading, Significand, Place, Base, Binade, Quanta, RoundedWord;
    var s, place := Significand(f, n), Place(f, n);
    SignificandRange(f, n);
    LeadingBelow(s, f.precision + 1);
    TopOfFinite(f, g, place, Leading(s));
    Pow2Grows(f.precision + 1, 128);
    PlaceBelow(f, n);
    var field, fraction := PackedFields(g, s, place);
    InfinityIs(g, field, fraction);
    ExactQuanta(g, s, place);
    CarryBit(Quanta(g, s, place), g.precision + 1);
  }

  lemma PlaceBelow(f: Format, n: nat)
    requires Supported(f) && n < InfinityWord(f)
    ensures Place(f, n) < 8192
  {
    hide InfinityWord, Exponent;
    SignificandRange(f, n);
  }

  /** Widening is exact, reports nothing, and narrowing back returns the original word. */
  lemma WideningRoundTrip(word: nat, source: nat, destination: nat, requestValid: bool)
    requires var f := FormatOf(source);
             word < Pow2(f.position + 1) && Finite(f, word) && Widens(f, FormatOf(destination))
    ensures var f, g := FormatOf(source), FormatOf(destination);
            var wide := ConvertBits(word, source, destination, requestValid);
            && Finite(g, wide.result) && Value(g, Magnitude(g, wide.result)) == Value(f, Magnitude(f, word))
            && SignOf(g, wide.result) == SignOf(f, word)
            && !wide.inexact && !wide.overflow && !wide.underflow
            && ConvertBits(wide.result, destination, source, requestValid).result == word
  {
    hide UnpackFloat, Pow2, PackFloat, RoundedWord, Nearest, Significand, Place, Value, Scale, InfinityWord,
      ConvertBits, Shifted, Dropped, ConvertedWord, Magnitude, SignOf;
    var f, g := FormatOf(source), FormatOf(destination);
    var n := Magnitude(f, word);
    var k := ConvertedWord(f, g, n);
    UnpackIs(word, f);
    ConvertRounds(word, source, destination, requestValid);
    WideningIsExact(f, g, n);
    InfinityFits(g);
    PartsOfWord(g, SignOf(f, word), k);
    UnderflowIsInexact(word, source, destination, requestValid);
    ConvertRounds(Signed(g, SignOf(f, word), k), destination, source, requestValid);
    NearestOfItself(f, n);
    NearestUnique(f, Whole(Value(f, n)), ConvertedWord(g, f, k), n);
    WordOfParts(f, word);
  }

  lemma NearestMonotone(g: Format, x: nat, y: nat, m: nat, n: nat)
    requires Supported(g) && x <= y && Nearest(g, Whole(x), m) && Nearest(g, Whole(y), n)
    ensures m <= n
  {
    hide Value;
    if m > n + 1 {
      ValueIncreases(g, n, m - 1);
      ValueIncreases(g, n + 1, m);
    }
  }

  /** Numeric order of the words of a format that are not NaNs; both zeros are equal. */
  function Order(f: Format, word: nat): int { Signum(SignOf(f, word), Magnitude(f, word)) }

  predicate NotNan(f: Format, word: nat) { Magnitude(f, word) <= InfinityWord(f) }

  /** What a word that is not a NaN converts to. */
  function ConvertedMagnitude(f: Format, g: Format, n: nat): nat
    requires Supported(f) && Supported(g)
  {
    if n < InfinityWord(f) then AtMost(ConvertedWord(f, g, n), InfinityWord(g)) else InfinityWord(g)
  }

  lemma ConvertedParts(word: nat, source: nat, destination: nat)
    requires NotNan(FormatOf(source), word)
    ensures var f, g := FormatOf(source), FormatOf(destination);
            var r := ConvertBits(word, source, destination, true).result;
            SignOf(g, r) == SignOf(f, word) && Magnitude(g, r) == ConvertedMagnitude(f, g, Magnitude(f, word))
  {
    hide UnpackFloat, Pow2, PackFloat, RoundedWord, Nearest, Significand, Place, Value, Scale, InfinityWord, Shifted,
      Dropped, ConvertedWord, Magnitude, SignOf, QuietNan;
    var f, g := FormatOf(source), FormatOf(destination);
    UnpackIs(word, f);
    InfinityFits(g);
    PartsOfWord(g, SignOf(f, word), ConvertedMagnitude(f, g, Magnitude(f, word)));
    if Finite(f, word) { ConvertRounds(word, source, destination, true); }
    InfinityIs(g, g.maximum, 0);
  }

  lemma MagnitudeMonotone(f: Format, g: Format, m: nat, n: nat)
    requires Supported(f) && Supported(g) && m <= n
    ensures ConvertedMagnitude(f, g, m) <= ConvertedMagnitude(f, g, n)
  {
    hide Value, Scale, Pow2, RoundedWord, InfinityWord, Significand, Place, Nearest;
    if n < InfinityWord(f) && m < n {
      ValueIs(f, m);
      ValueIs(f, n);
      RoundedIsNearest(g, Significand(f, m), Place(f, m));
      RoundedIsNearest(g, Significand(f, n), Place(f, n));
      ValueIncreases(f, m, n);
      NearestMonotone(g, Value(f, m), Value(f, n), ConvertedWord(f, g, m), ConvertedWord(f, g, n));
    }
  }

  /** Conversion never reverses the numeric order of two words, infinities included. */
  lemma ConvertMonotone(u: nat, v: nat, source: nat, destination: nat)
    requires var f := FormatOf(source); NotNan(f, u) && NotNan(f, v) && Order(f, u) <= Order(f, v)
    ensures var g := FormatOf(destination);
            Order(g, ConvertBits(u, source, destination, true).result)
            <= Order(g, ConvertBits(v, source, destination, true).result)
  {
    hide ConvertBits, ConvertedMagnitude, Magnitude, SignOf, InfinityWord;
    var f, g := FormatOf(source), FormatOf(destination);
    var m, n := Magnitude(f, u), Magnitude(f, v);
    ConvertedParts(u, source, destination);
    ConvertedParts(v, source, destination);
    ZeroConverts(f, g);
    if m <= n { MagnitudeMonotone(f, g, m, n); }
    if n <= m { MagnitudeMonotone(f, g, n, m); }
    SignBit(f, u);
    SignBit(f, v);
  }

  lemma ZeroConverts(f: Format, g: Format)
    requires Supported(f) && Supported(g)
    ensures ConvertedMagnitude(f, g, 0) == 0
  {
    hide Pow2, RoundedWord, Scale, InfinityWord, Place, Shifted, Dropped;
    InfinityPositive(f);
    SplitUnique(0, f.precision, 0, 0) by { ScaleZero(f.precision); }
    RoundedOfZero(g, Place(f, 0));
  }

  lemma SignBit(f: Format, word: nat)
    ensures SignOf(f, word) < 2
  {
  }
}
