/** Payload interpretation and round-to-nearest-even packing
    (examples/functional_float/float_formats.py).  Fixed-width words are naturals: a right shift
    is a quotient, a mask of low bits a remainder, and an OR of disjoint fields a sum. */
module FloatFormats {
  import opened Bits
  import opened Scaling
  import opened FloatValue

  datatype FloatParts = FloatParts(
    sign: nat, significand: nat, lsbBias: nat, zero: bool, nan: bool, inf: bool, snan: bool)

  datatype FloatWord = FloatWord(
    result: nat, valid: bool, invalid: bool, overflow: bool, underflow: bool, inexact: bool, zero: bool,
    divideByZero: bool)

  function FormatOf(code: nat): (f: Format)
    ensures Supported(f)
  {
    if code == 1 then BINARY64 else if code == 2 then BINARY16 else if code == 3 then BFLOAT16 else BINARY32
  }

  /** The four selectors: fraction bits, exponent bias, largest exponent field and sign position. */
  lemma FormatsAre()
    ensures FormatOf(0) == Format(23, 127, 255, 31)
    ensures FormatOf(1) == Format(52, 1023, 2047, 63)
    ensures FormatOf(2) == Format(10, 15, 31, 15)
    ensures FormatOf(3) == Format(7, 127, 255, 15)
  {
  }

  /** In every format the word with exponent field `bias` and no fraction is 1.0, 2^4096 units. */
  lemma OneIs(f: Format)
    requires Supported(f)
    ensures Value(f, f.bias * Pow2(f.precision)) == Pow2(4096)
  {
    hide Scale, Pow2, Value;
    var p, e := f.precision, f.bias - 1;
    Pow2Next(p);
    ScaleIs(e, p);
    ValueOfQuanta(f, e, Pow2(p));
    ScalePow2(p, Base(f) + e);
  }

  /** The magnitude word: everything below the sign bit. */
  function Magnitude(f: Format, word: nat): nat { Dropped(word, f.position) }

  function SignOf(f: Format, word: nat): nat { Shifted(word, f.position) % 2 }

  function UnpackFloat(word: nat, f: Format): FloatParts
    requires Supported(f)
  {
    var fraction := Dropped(word, f.precision);
    var exponent := Shifted(word, f.precision) % (f.maximum + 1);
    var significand := if exponent != 0 then fraction + Pow2(f.precision) else fraction;
    var effective := if exponent != 0 then exponent else 1;
    var special := exponent == f.maximum;
    var nan := special && fraction != 0;
    FloatParts(
      SignOf(f, word), significand, (effective + 4096 - f.bias - f.precision) % 8192,
      exponent == 0 && fraction == 0, nan, special && fraction == 0,
      nan && Shifted(fraction, f.precision - 1) % 2 == 0)
  }

  // ------------------------------------------------------------------- rounding

  /** x / 2^s to the nearest integer, ties to even, from the guard bit and the rest. */
  function NearestEven(x: nat, s: nat): nat {
    if s == 0 then x
    else
      var guard, sticky := Shifted(x, s - 1) % 2 == 1, Dropped(x, s - 1) != 0;
      Shifted(x, s) + (if guard && (sticky || Shifted(x, s) % 2 == 1) then 1 else 0)
  }

  lemma NearestEvenHalf(x: nat, s: nat)
    ensures var t := NearestEven(x, s);
            && (Scale(2 * t - 1, s) < 2 * x || (Scale(2 * t - 1, s) == 2 * x && t % 2 == 0))
            && (2 * x < Scale(2 * t + 1, s) || (2 * x == Scale(2 * t + 1, s) && t % 2 == 0))
  {
    hide Scale, Shifted, Dropped, Pow2;
    var t: int := NearestEven(x, s);
    if s == 0 {
      ScaleByZero(2 * t - 1);
      ScaleByZero(2 * t + 1);
    } else {
      var T, g, st := Shifted(x, s), Shifted(x, s - 1) % 2, Dropped(x, s - 1);
      GuardSplit(x, s);
      Pow2Next(s - 1);
      ScaleAdds(2 * t, 1, s);
      ScaleOne(s);
      ScaleNext(t, s);
      ScaleTwice(t, s);
      ScaleAdds(T, 1, s);
    }
  }

  lemma ScaleTwice(x: int, n: nat)
    ensures Scale(2 * x, n) == 2 * Scale(x, n)
  {
  }

  /** A number at bit s: the integer part, the guard bit and what lies below it. */
  lemma GuardSplit(x: nat, s: nat)
    requires s > 0
    ensures x == Scale(Shifted(x, s), s) + (Shifted(x, s - 1) % 2) * Pow2(s - 1) + Dropped(x, s - 1)
    ensures Dropped(x, s - 1) < Pow2(s - 1)
    ensures Dropped(x, s) == (Shifted(x, s - 1) % 2) * Pow2(s - 1) + Dropped(x, s - 1)
    ensures Shifted(x, s - 1) == 2 * Shifted(x, s) + Shifted(x, s - 1) % 2
  {
    hide Scale, Shifted, Dropped, Pow2;
    var y := Shifted(x, s - 1);
    SplitAt(x, s - 1);
    SplitAt(x, s);
    ShiftedShifted(x, s - 1, 1);
    assert Shifted(y, 1) == y / 2 by { ShiftByOne(y); }
    ScaleAdds(2 * (y / 2), y % 2, s - 1);
    ScaleNext(y / 2, s - 1);
    BitScale(y % 2, s - 1);
  }

  lemma ShiftByOne(y: nat)
    ensures Shifted(y, 1) == y / 2
  {
  }

  lemma BitScale(b: nat, n: nat)
    requires b < 2
    ensures Scale(b, n) == b * Pow2(n)
  {
  }

  // -------------------------------------------------------------------- packing

  function U14(x: int): nat { x % 0x4000 }

  function AtMost(x: nat, limit: nat): nat { if x > limit then limit else x }

  /** 127 less the leading-zero count of a 128-bit magnitude. */
  function LeadingOrZero(magnitude: nat): nat { if magnitude == 0 then 0 else Leading(magnitude) }

  /** The biased distance from the magnitude's own scale to the one it is rounded at. */
  function ShiftBias(f: Format, magnitude: nat, lsb: nat): nat {
    var leading := LeadingOrZero(magnitude);
    if U14(lsb + leading) >= U14(4097 - f.bias) then U14(leading + 4096 - f.precision)
    else U14(8193 - f.bias - f.precision - lsb)
  }

  datatype Rounding = Rounding(value: nat, discarded: bool)

  /** The magnitude moved by the biased shift and rounded; lines 96 to 114 of the source function. */
  function RoundShifted(magnitude: nat, shiftBias: nat): Rounding {
    var right := shiftBias >= 4096;
    var right14 := if right then U14(shiftBias - 4096) else 0;
    var left14 := if !right then U14(4096 - shiftBias) else 0;
    var truncated :=
      if right then Shifted(magnitude, AtMost(right14, 255)) else LowBits(magnitude, AtMost(left14, 127), 128);
    var guardAmount := AtMost(U14(right14 - 1), 255);
    var partial := right && right14 >= 1;
    var guard := partial && Shifted(magnitude, guardAmount) % 2 == 1;
    var sticky := Dropped(magnitude, guardAmount) != 0;
    Rounding(
      Dropped(truncated + (if guard && (sticky || truncated % 2 == 1) then 1 else 0), 128),
      partial && (guard || sticky))
  }

  /** A left shift inside a word of `width` bits. */
  function LowBits(x: nat, amount: nat, width: nat): (r: nat)
    ensures r < Pow2(width)
  {
    Field(x, amount) % Pow2(width)
  }

  lemma FitsWord(x: nat, amount: nat, width: nat)
    requires Scale(x, amount) < Pow2(width)
    ensures LowBits(x, amount, width) == Scale(x, amount)
  {
    hide Scale, Pow2;
    DivideUnique(Field(x, amount), 0, Pow2(width));
  }

  function PackFloat(sign: nat, magnitude: nat, lsb: nat, f: Format): FloatWord {
    var leading := LeadingOrZero(magnitude);
    var exponentPlus := U14(lsb + leading);
    var normal := exponentPlus >= U14(4097 - f.bias);
    var rounding := RoundShifted(magnitude, ShiftBias(f, magnitude, lsb));
    var rounded := rounding.value;
    var normalCarry := Shifted(rounded, f.precision + 1) % 2 == 1;
    var subnormalCarry := Shifted(rounded, f.precision) % 2 == 1;
    var normalExponent := U14(exponentPlus + f.bias - 4096 + (if normalCarry then 1 else 0));
    var field := if normal then normalExponent else if subnormalCarry then 1 else 0;
    var overflow := field >= f.maximum && magnitude != 0;
    var exponent := if overflow then f.maximum else field;
    var carry := if normal then normalCarry else subnormalCarry;
    var fraction := if carry || overflow then 0 else Dropped(rounded, f.precision);
    var zero := magnitude == 0 || rounded == 0;
    FloatWord(
      Field(sign, f.position) + (if zero then 0 else Field(exponent, f.precision) + fraction),
      true, false, overflow, exponent == 0 && rounding.discarded, rounding.discarded || overflow, zero, false)
  }

  // --------------------------------------------------------- what packing returns

  /** How many binades above the subnormals the magnitude's leading one lies. */
  function Binade(f: Format, magnitude: nat, lsb: nat): nat {
    var top := lsb + LeadingOrZero(magnitude);
    if top + f.bias >= 4097 then top + f.bias - 4097 else 0
  }

  /** The magnitude in units of the last place of that binade, rounded. */
  function Quanta(f: Format, magnitude: nat, lsb: nat): nat
    requires Supported(f)
  {
    var place := Base(f) + Binade(f, magnitude, lsb);
    if lsb >= place then Field(magnitude, lsb - place) else NearestEven(magnitude, place - lsb)
  }

  function RoundedWord(f: Format, magnitude: nat, lsb: nat): nat
    requires Supported(f)
  {
    if magnitude == 0 then 0 else Field(Binade(f, magnitude, lsb), f.precision) + Quanta(f, magnitude, lsb)
  }

  /** Where the leading one lies relative to the place it is rounded at. */
  lemma LeadingRange(f: Format, magnitude: nat, lsb: nat)
    requires Supported(f) && magnitude > 0
    ensures var place, top := Base(f) + Binade(f, magnitude, lsb), lsb + Leading(magnitude);
            && top <= place + f.precision
            && (Binade(f, magnitude, lsb) > 0 ==> top == place + f.precision)
  {
  }

  lemma InItsBinade(f: Format, magnitude: nat, lsb: nat)
    requires Supported(f) && magnitude > 0
    ensures Scale(magnitude, lsb) >= 0 && InBinade(f, Whole(Scale(magnitude, lsb)), Binade(f, magnitude, lsb))
  {
    hide Scale, Pow2, Binade, Base, Leading;
    var e, l := Binade(f, magnitude, lsb), Leading(magnitude);
    var place := Base(f) + e;
    LeadingRange(f, magnitude, lsb);
    ScaleZero(lsb);
    ScaleOrder(0, magnitude, lsb);
    ScaleOrder(magnitude, Pow2(l + 1), lsb);
    ScalePow2(l + 1, lsb);
    ScalePow2(f.precision + 1, place);
    Pow2Grows(l + 1 + lsb, f.precision + 1 + place);
    if e > 0 {
      ScaleOrder(Pow2(l), magnitude, lsb);
      ScalePow2(l, lsb);
      ScalePow2(f.precision, place);
    }
  }

  lemma QuantaRange(f: Format, magnitude: nat, lsb: nat)
    requires Supported(f) && magnitude > 0
    ensures Quanta(f, magnitude, lsb) <= Pow2(f.precision + 1)
    ensures Binade(f, magnitude, lsb) > 0 ==> Quanta(f, magnitude, lsb) >= Pow2(f.precision)
    ensures if lsb + Leading(magnitude) + f.bias >= 4097 then Quanta(f, magnitude, lsb) >= Pow2(f.precision)
            else Quanta(f, magnitude, lsb) <= Pow2(f.precision)
  {
    hide Scale, Pow2, Leading, Shifted, Dropped;
    var e, l, p := Binade(f, magnitude, lsb), Leading(magnitude), f.precision;
    var place := Base(f) + e;
    LeadingRange(f, magnitude, lsb);
    var normal := l + lsb >= place + p;
    assert normal <==> lsb + l + f.bias >= 4097;
    hide Base, Binade;
    if lsb >= place {
      var k := lsb - place;
      ScaleOrder(magnitude, Pow2(l + 1), k);
      ScalePow2(l + 1, k);
      ScaleOrder(Pow2(l), magnitude, k);
      ScalePow2(l, k);
      Pow2Grows(l + 1 + k, p + 1);
      if !normal { Pow2Grows(l + 1 + k, p); }
    } else {
      var s := place - lsb;
      Pow2Grows(l + 1, p + 1 + s);
      ShiftedBelow(magnitude, p + 1, s);
      ShiftedBelow(magnitude, p, s);
      if !normal { Pow2Grows(l + 1, p + s); }
    }
  }

  /** The quanta are within half a unit of the magnitude, ties to even. */
  lemma QuantaHalfAway(f: Format, magnitude: nat, lsb: nat)
    requires Supported(f) && magnitude > 0
    ensures Scale(magnitude, lsb) >= 0
    ensures HalfAway(f, Whole(Scale(magnitude, lsb)), Binade(f, magnitude, lsb), Quanta(f, magnitude, lsb))
  {
    hide Scale, Pow2, Binade, Base, Leading, Shifted, Dropped;
    var place := Base(f) + Binade(f, magnitude, lsb);
    var t: int := Quanta(f, magnitude, lsb);
    ScaleZero(lsb);
    ScaleOrder(0, magnitude, lsb);
    if lsb >= place {
      ScaleScale(magnitude, lsb - place, place);
      ScaleTwice(t, place);
      ScaleAdds(2 * t, 1, place);
      ScaleOne(place);
    } else {
      var s := place - lsb;
      NearestEvenHalf(magnitude, s);
      ScaleScale(2 * t - 1, s, lsb);
      ScaleScale(2 * t + 1, s, lsb);
      ScaleTwice(magnitude, lsb);
      ScaleOrder(Scale(2 * t - 1, s), 2 * magnitude, lsb);
      ScaleOrder(2 * magnitude, Scale(2 * t + 1, s), lsb);
    }
  }

  lemma NearestZero(f: Format)
    requires Supported(f)
    ensures Nearest(f, Whole(0), 0)
  {
    hide Value;
    ValueZero(f);
    ValueIncreases(f, 0, 1);
  }

  /** Packing's magnitude word is the one nearest to magnitude * 2^lsb. */
  lemma RoundedIsNearest(f: Format, magnitude: nat, lsb: nat)
    requires Supported(f)
    ensures Scale(magnitude, lsb) >= 0 && Nearest(f, Whole(Scale(magnitude, lsb)), RoundedWord(f, magnitude, lsb))
  {
    hide Scale, Pow2, Binade, Base, Quanta, InBinade, HalfAway, Nearest;
    if magnitude == 0 {
      ScaleZero(lsb);
      NearestZero(f);
    } else {
      InItsBinade(f, magnitude, lsb);
      QuantaRange(f, magnitude, lsb);
      QuantaHalfAway(f, magnitude, lsb);
      RoundingIsNearest(f, Whole(Scale(magnitude, lsb)), Binade(f, magnitude, lsb), Quanta(f, magnitude, lsb));
    }
  }

  lemma ShiftBiasIs(f: Format, magnitude: nat, lsb: nat)
    requires Supported(f) && 0 < magnitude < Pow2(128) && lsb < 8192
    ensures ShiftBias(f, magnitude, lsb) == 4096 + Base(f) + Binade(f, magnitude, lsb) - lsb
    ensures Leading(magnitude) < 128
    ensures U14(lsb + Leading(magnitude)) >= U14(4097 - f.bias) <==> lsb + Leading(magnitude) + f.bias >= 4097
    ensures lsb - f.precision <= Base(f) + Binade(f, magnitude, lsb) <= lsb + 4096
  {
    hide Pow2, Leading;
    LeadingBelow(magnitude, 128);
    LeadingRange(f, magnitude, lsb);
  }

  lemma FarShift(magnitude: nat, amount: nat)
    requires magnitude < Pow2(128)
    ensures Shifted(magnitude, AtMost(amount, 255)) == Shifted(magnitude, amount)
    ensures Dropped(magnitude, AtMost(amount, 255)) == Dropped(magnitude, amount)
  {
    hide Pow2, Shifted, Dropped;
    if amount > 255 {
      Pow2Grows(128, 255);
      Pow2Grows(128, amount);
      ShiftedAway(magnitude, 255);
      ShiftedAway(magnitude, amount);
    }
  }

  lemma Small14(x: int)
    requires 0 <= x < 0x4000
    ensures U14(x) == x
  {
  }

  lemma RoundsRight(magnitude: nat, s: nat)
    requires magnitude < Pow2(128) && s <= 4096 && NearestEven(magnitude, s) < Pow2(128)
    ensures RoundShifted(magnitude, 4096 + s)
            == Rounding(NearestEven(magnitude, s), s > 0 && Dropped(magnitude, s) != 0)
  {
    hide Scale, Pow2, Shifted, Dropped, U14;
    Small14(s);
    FarShift(magnitude, s);
    ShiftedAway(NearestEven(magnitude, s), 128);
    if s > 0 {
      Small14(s - 1);
      FarShift(magnitude, s - 1);
      GuardSplit(magnitude, s);
      GuardNonzero(Shifted(magnitude, s - 1) % 2, Dropped(magnitude, s - 1), s - 1);
    } else {
      ShiftByNothing(magnitude);
    }
  }

  lemma RoundsLeft(magnitude: nat, d: nat)
    requires 0 < d <= 127 && Scale(magnitude, d) < Pow2(128)
    ensures RoundShifted(magnitude, 4096 - d) == Rounding(Field(magnitude, d), false)
  {
    hide Scale, Pow2, Shifted, Dropped, U14;
    Small14(d);
    FitsWord(magnitude, d, 128);
    hide LowBits;
    ShiftedAway(Field(magnitude, d), 128);
  }

  /** The clamped shifts of the code round exactly as the unclamped ones would. */
  lemma RoundShiftedIs(f: Format, magnitude: nat, lsb: nat)
    requires Supported(f) && 0 < magnitude < Pow2(128) && lsb < 8192
    ensures var place := Base(f) + Binade(f, magnitude, lsb);
            RoundShifted(magnitude, ShiftBias(f, magnitude, lsb))
            == Rounding(Quanta(f, magnitude, lsb), lsb < place && Dropped(magnitude, place - lsb) != 0)
  {
    hide Scale, Pow2, Shifted, Dropped, Binade, Base, ShiftBias, Leading, RoundShifted, NearestEven;
    ShiftBiasIs(f, magnitude, lsb);
    QuantaRange(f, magnitude, lsb);
    Pow2Order(f.precision + 1, 128);
    var place := Base(f) + Binade(f, magnitude, lsb);
    if lsb < place {
      RoundsRight(magnitude, place - lsb);
    } else if lsb == place {
      NearestEvenOfNone(magnitude);
      ScaleByZero(magnitude);
      RoundsRight(magnitude, 0);
    } else {
      RoundsLeft(magnitude, lsb - place);
    }
  }

  lemma NearestEvenOfNone(magnitude: nat)
    ensures NearestEven(magnitude, 0) == magnitude
  {
    ShiftByNothing(magnitude);
  }

  lemma ShiftByNothing(x: nat)
    ensures Shifted(x, 0) == x
  {
  }

  lemma GuardNonzero(g: nat, st: nat, n: nat)
    requires g < 2
    ensures g * Pow2(n) + st != 0 <==> g == 1 || st != 0
  {
  }

  /** Carry bits of a rounded significand. */
  lemma CarryBit(t: nat, n: nat)
    requires t <= Pow2(n)
    ensures (Shifted(t, n) % 2 == 1) <==> t == Pow2(n)
    ensures t < Pow2(n) ==> Dropped(t, n) == t
  {
    hide Scale, Shifted, Dropped, Pow2;
    if t < Pow2(n) {
      ShiftedAway(t, n);
    } else {
      ScaleOne(n);
      SplitUnique(t, n, 1, 0);
    }
  }

  lemma InfinityIs(f: Format, field: nat, fraction: nat)
    requires fraction < Pow2(f.precision)
    ensures field >= f.maximum <==> Scale(field, f.precision) + fraction >= InfinityWord(f)
    ensures InfinityWord(f) == Scale(f.maximum, f.precision)
  {
    hide Pow2;
    assert InfinityWord(f) == Scale(f.maximum, f.precision);
    hide Scale, InfinityWord;
    ScaleOrder(f.maximum, field, f.precision);
    ScaleOrder(field + 1, f.maximum, f.precision);
    ScaleAdds(field, 1, f.precision);
    ScaleOne(f.precision);
  }

  /** The fields of the packed word, before overflow is looked at. */
  lemma PackedFields(f: Format, magnitude: nat, lsb: nat) returns (field: nat, fraction: nat)
    requires Supported(f) && 0 < magnitude < Pow2(128) && lsb < 8192
    ensures fraction < Pow2(f.precision)
    ensures Scale(field, f.precision) + fraction == RoundedWord(f, magnitude, lsb)
    ensures var t, p, top := Quanta(f, magnitude, lsb), f.precision, lsb + Leading(magnitude);
            var normal := top + f.bias >= 4097;
            var normalCarry, subnormalCarry := Shifted(t, p + 1) % 2 == 1, Shifted(t, p) % 2 == 1;
            && field == (if normal then top + f.bias - 4096 + (if normalCarry then 1 else 0)
                         else if subnormalCarry then 1 else 0)
            && fraction == (if (if normal then normalCarry else subnormalCarry) then 0 else Dropped(t, p))
            && (t == 0 <==> RoundedWord(f, magnitude, lsb) == 0)
  {
    hide Scale, Pow2, Shifted, Dropped, Quanta, Leading;
    var t, p, top := Quanta(f, magnitude, lsb), f.precision, lsb + Leading(magnitude);
    var e := Binade(f, magnitude, lsb);
    QuantaRange(f, magnitude, lsb);
    CarryBit(t, p + 1);
    Pow2Next(p);
    ScaleAdds(e, 1, p);
    ScaleAdds(e, 2, p);
    ScaleAdds(1, 1, p);
    ScaleOne(p);
    ScaleZero(p);
    ScaleOrder(0, e, p);
    if top + f.bias >= 4097 {
      if t < Pow2(p + 1) {
        field, fraction := e + 1, t - Pow2(p);
        SplitUnique(t, p, 1, fraction);
      } else {
        field, fraction := e + 2, 0;
      }
    } else {
      CarryBit(t, p);
      if t < Pow2(p) { field, fraction := 0, t; } else { field, fraction := 1, 0; }
    }
  }

  /** A result word of the given sign and magnitude. */
  function Signed(f: Format, sign: nat, n: nat): nat { Field(sign, f.position) + n }

  /** The result word and the overflow and zero flags, from the rounded word alone. */
  lemma PackIs(sign: nat, magnitude: nat, lsb: nat, f: Format)
    requires Supported(f) && magnitude < Pow2(128) && lsb < 8192
    ensures var n, r := RoundedWord(f, magnitude, lsb), PackFloat(sign, magnitude, lsb, f);
            && r.result == Signed(f, sign, AtMost(n, InfinityWord(f)))
            && r.overflow == (n >= InfinityWord(f))
            && r.zero == (n == 0)
  {
    hide Scale, Pow2, Shifted, Dropped, Leading, Base, Binade, ShiftBias, RoundShifted, InfinityWord, RoundedWord,
      Quanta, U14;
    assert InfinityWord(f) > 0 by { InfinityPositive(f); }
    if magnitude == 0 {
      assert RoundedWord(f, 0, lsb) == 0 by { RoundedOfZero(f, lsb); }
    } else {
      ShiftBiasIs(f, magnitude, lsb);
      RoundShiftedIs(f, magnitude, lsb);
      var field, fraction := PackedFields(f, magnitude, lsb);
      InfinityIs(f, field, fraction);
      Small14(lsb + Leading(magnitude));
      if lsb + Leading(magnitude) + f.bias >= 4097 { Small14(field); }
    }
  }

  lemma RoundedOfZero(f: Format, lsb: nat)
    requires Supported(f)
    ensures RoundedWord(f, 0, lsb) == 0
  {
  }

  lemma InfinityPositive(f: Format)
    requires Supported(f)
    ensures InfinityWord(f) > 0
  {
    hide Pow2;
    ProductOrder(1, f.maximum, Pow2(f.precision));
  }

  lemma ExactIffNothingDropped(f: Format, magnitude: nat, lsb: nat)
    requires Supported(f) && magnitude > 0
    ensures var place := Base(f) + Binade(f, magnitude, lsb);
            (lsb < place && Dropped(magnitude, place - lsb) != 0)
            <==> Value(f, RoundedWord(f, magnitude, lsb)) != Scale(magnitude, lsb)
  {
    hide Scale, Pow2, Shifted, Dropped, Leading, Base, Binade, Value;
    var e, t := Binade(f, magnitude, lsb), Quanta(f, magnitude, lsb);
    var place := Base(f) + e;
    QuantaRange(f, magnitude, lsb);
    ValueOfQuanta(f, e, t);
    if lsb >= place {
      ScaleScale(magnitude, lsb - place, place);
    } else {
      var s := place - lsb;
      SplitAt(magnitude, s);
      GuardSplit(magnitude, s);
      GuardNonzero(Shifted(magnitude, s - 1) % 2, Dropped(magnitude, s - 1), s - 1);
      ScaleScale(t, s, lsb);
      ScaleOrder(Scale(t, s), magnitude, lsb);
      if Scale(t, s) == magnitude { ShiftedScale(t, s); }
    }
  }

  /** Inexact is reported exactly when the packed value differs from the exact one, an infinity
      included; underflow when besides the exponent field is zero. */
  lemma PackFlags(sign: nat, magnitude: nat, lsb: nat, f: Format)
    requires Supported(f) && magnitude < Pow2(128) && lsb < 8192
    ensures var n, r := RoundedWord(f, magnitude, lsb), PackFloat(sign, magnitude, lsb, f);
            && r.inexact == (n >= InfinityWord(f) || Value(f, n) != Scale(magnitude, lsb))
            && r.underflow == (n < Pow2(f.precision) && Value(f, n) != Scale(magnitude, lsb))
            && r.valid && !r.invalid && !r.divideByZero
  {
    hide Scale, Pow2, Shifted, Dropped, Leading, Base, Binade, ShiftBias, RoundedWord, Quanta, InfinityWord, Value;
    PackIs(sign, magnitude, lsb, f);
    if magnitude == 0 {
      RoundedOfZero(f, lsb);
      ScaleZero(lsb);
      ValueZero(f);
      NothingDiscarded(lsb, f);
    } else {
      hide RoundShifted;
      ShiftBiasIs(f, magnitude, lsb);
      RoundShiftedIs(f, magnitude, lsb);
      ExactIffNothingDropped(f, magnitude, lsb);
      var field, fraction := PackedFields(f, magnitude, lsb);
      InfinityIs(f, field, fraction);
      ScaleZero(f.precision);
      ScaleOrder(1, field, f.precision);
      ScaleOne(f.precision);
    }
  }

  lemma NothingDiscarded(lsb: nat, f: Format)
    ensures !RoundShifted(0, ShiftBias(f, 0, lsb)).discarded
  {
  }

  /** For every 128-bit magnitude, every 13-bit scale and every format: the result is the word
      nearest to magnitude * 2^(lsb - 4096), ties to even, or infinity when that word lies past
      the largest finite one; and `inexact` tells whether anything was lost. */
  lemma PackRounds(sign: nat, magnitude: nat, lsb: nat, f: Format) returns (n: nat)
    requires Supported(f) && magnitude < Pow2(128) && lsb < 8192
    ensures Scale(magnitude, lsb) >= 0 && Nearest(f, Whole(Scale(magnitude, lsb)), n)
    ensures var r := PackFloat(sign, magnitude, lsb, f);
            && r.result == Signed(f, sign, AtMost(n, InfinityWord(f)))
            && r.overflow == (n >= InfinityWord(f))
            && r.inexact == (r.overflow || Value(f, n) != Scale(magnitude, lsb))
            && r.underflow == (n < Pow2(f.precision) && Value(f, n) != Scale(magnitude, lsb))
            && r.zero == (n == 0)
  {
    hide Scale, Pow2, Value, RoundedWord, PackFloat, InfinityWord, Nearest;
    n := RoundedWord(f, magnitude, lsb);
    RoundedIsNearest(f, magnitude, lsb);
    PackIs(sign, magnitude, lsb, f);
    PackFlags(sign, magnitude, lsb, f);
  }

  // ------------------------------------------------------------------- unpacking

  lemma ExponentRange(f: Format)
    requires Supported(f)
    ensures f.position > f.precision && Pow2(f.position - f.precision) == f.maximum + 1
    ensures Pow2(f.position) == Pow2(f.precision) * (f.maximum + 1)
  {
    hide Pow2;
    FieldPowers();
    Pow2Adds(f.precision, f.position - f.precision);
  }

  lemma FieldPowers()
    ensures Pow2(5) == 32 && Pow2(8) == 256 && Pow2(11) == 2048
  {
    assert Pow2(3) == 8;
    assert Pow2(6) == 64;
    assert Pow2(9) == 512;
  }

  lemma ZeroShift(n: nat)
    ensures Shifted(0, n) == 0 && Dropped(0, n) == 0 && Field(0, n) == 0
  {
    hide Pow2, Scale, Shifted, Dropped;
    ScaleZero(n);
    SplitUnique(0, n, 0, 0);
  }

  lemma PowersOfPrecision()
    ensures Pow2(23) == 0x80_0000 && Pow2(29) == 0x2000_0000 && Pow2(52) == 0x10_0000_0000_0000
  {
    hide Pow2;
    FieldPowers();
    Pow2Adds(11, 11);
    Pow2Next(22);
    assert Pow2(6) == 64 by { PowerSix(); }
    Pow2Adds(23, 6);
    Pow2Adds(22, 5);
    Pow2Adds(22, 8);
    Pow2Adds(30, 22);
  }

  lemma PowerSix()
    ensures Pow2(6) == 64
  {
    assert Pow2(3) == 8;
  }

  lemma WordFields(f: Format, word: nat)
    requires Supported(f)
    ensures Dropped(word, f.precision) == Fraction(f, Magnitude(f, word))
    ensures Shifted(word, f.precision) % (f.maximum + 1) == Exponent(f, Magnitude(f, word))
  {
    hide Pow2;
    ExponentRange(f);
    SplitResidue(word, Pow2(f.precision), f.maximum + 1);
  }

  /** A NaN whose leading fraction bit is clear signals (IEEE 754-2019, section 6.2.1). */
  predicate Signalling(f: Format, n: nat)
    requires f.precision > 0
  {
    InfinityWord(f) < n < InfinityWord(f) + Pow2(f.precision - 1)
  }

  lemma SignallingIs(f: Format, n: nat)
    requires Supported(f)
    ensures var fraction := Fraction(f, n);
            Signalling(f, n)
            <==> Exponent(f, n) == f.maximum && fraction != 0 && Shifted(fraction, f.precision - 1) % 2 == 0
  {
    hide Pow2, Shifted, Dropped, Scale, InfinityWord;
    var p, e, fraction := f.precision, Exponent(f, n), Fraction(f, n);
    SplitAt(n, p);
    InfinityIs(f, e, fraction);
    ScaleAdds(f.maximum, 1, p);
    ScaleOne(p);
    ScaleOrder(f.maximum + 1, e, p);
    Pow2Next(p - 1);
    SplitAt(fraction, p - 1);
    assert Pow2(1) == 2 by { PowerOne(); }
    ShiftedBelow(fraction, 1, p - 1);
    ScaleZero(p - 1);
    ScaleOne(p - 1);
  }

  lemma PowerOne()
    ensures Pow2(1) == 2
  {
  }

  /** The parts of a word are its sign and the significand, scale and class of its magnitude. */
  lemma UnpackIs(word: nat, f: Format)
    requires Supported(f)
    ensures var n, u := Magnitude(f, word), UnpackFloat(word, f);
            && u.sign == SignOf(f, word) < 2
            && u.significand == Significand(f, n) < Pow2(f.precision + 1)
            && u.lsbBias == Place(f, n) && Base(f) <= u.lsbBias <= Base(f) + f.maximum
            && u.zero == (n == 0)
            && u.inf == (n == InfinityWord(f))
            && u.nan == (n > InfinityWord(f))
            && u.snan == Signalling(f, n)
  {
    hide Pow2, Shifted, Dropped, Scale, InfinityWord, Magnitude, Signalling;
    var n := Magnitude(f, word);
    WordFields(f, word);
    SignallingIs(f, n);
    SplitAt(n, f.precision);
    Pow2Next(f.precision);
    var e := Exponent(f, n);
    InfinityIs(f, e, Fraction(f, n));
    InfinityIs(f, e, 0);
    ScaleZero(f.precision);
    ScaleOrder(0, e, f.precision);
    ScaleOrder(1, e, f.precision);
    ScaleOne(f.precision);
    ScaleOrder(e, f.maximum, f.precision);
  }
}
