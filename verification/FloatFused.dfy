/** Fused multiply-add with one rounding (examples/functional_float/float_fused.py). */
module FloatFused {
  import opened Bits
  import opened Scaling
  import opened FloatValue
  import opened FloatFormats
  import opened FloatSticky

  function U13(x: int): nat { x % 0x2000 }

  lemma Small13(x: int)
    requires 0 <= x < 0x2000
    ensures U13(x) == x
  {
  }

  /** Right shift with every bit shifted out ORed into the lowest bit that stays. */
  function ShiftJam(value: nat, amount: nat): nat { Jammed(value, AtMost(amount, 255)) }

  /** Left shift that brings the leading one of a nonzero 127-bit word to bit 126. */
  function NormalizeAmount(x: nat): nat { if x == 0 then 0 else (127 - LeadingOrZero(x) - 1) % 128 }

  datatype Scaled = Scaled(word: nat, lsb: nat)

  /** A significand padded, then normalized, with its scale adjusted; lines 35 to 54 of the source. */
  function Prepared(significand: nat, lsb: int, pad: nat): Scaled {
    var padded := LowBits(significand, pad, 128);
    var amount := NormalizeAmount(padded);
    Scaled(LowBits(padded, amount, 128), U13(U13(lsb - pad) - amount))
  }

  datatype Summed = Summed(sign: nat, magnitude: nat, high: nat)

  /** Alignment and addition; lines 55 to 67. */
  function Combine(product: Scaled, addend: Scaled, productSign: nat, addendSign: nat): Summed {
    var larger := if product.lsb >= addend.lsb then product.lsb else addend.lsb;
    var high := if addend.word == 0 then product.lsb else if product.word == 0 then addend.lsb else larger;
    var p := ShiftJam(product.word, U13(high - product.lsb));
    var q := ShiftJam(addend.word, U13(high - addend.lsb));
    var same := productSign == addendSign;
    var magnitude := if same then Dropped(p + q, 128) else if p >= q then p - q else q - p;
    var sign := if same then productSign
                else if magnitude == 0 then 0
                else if p >= q then productSign else addendSign;
    Summed(sign, magnitude, high)
  }

  function QuietNan(f: Format): nat
    requires Supported(f)
  {
    Field(f.maximum, f.precision) + Pow2(f.precision - 1)
  }

  function ProductSign(a: FloatParts, b: FloatParts): nat { (a.sign + b.sign) % 2 }

  /** The finite path, whatever the operands. */
  function FusedSum(a: FloatParts, b: FloatParts, c: FloatParts, f: Format): Summed
    requires Supported(f)
  {
    Combine(
      Prepared(Times(a.significand, b.significand), a.lsbBias + b.lsbBias - 4096, 125 - 2 * f.precision),
      Prepared(c.significand, c.lsbBias, 126 - f.precision),
      ProductSign(a, b), c.sign)
  }

  /** The choice between NaN, infinity and the rounded sum; lines 69 to 94. */
  function FusedResult(a: FloatParts, b: FloatParts, c: FloatParts, rounded: FloatWord, f: Format, requestValid: bool):
    FloatWord
    requires Supported(f)
  {
    var productSign := ProductSign(a, b);
    var productInf := (a.inf || b.inf) && !(a.nan || b.nan);
    var badProduct := (a.inf && b.zero) || (b.inf && a.zero);
    var invalid := a.snan || b.snan || c.snan || badProduct || (productInf && c.inf && productSign != c.sign);
    var anyNan := a.nan || b.nan || c.nan || invalid;
    var anyInf := productInf || c.inf;
    var infinity := Signed(f, if productInf then productSign else c.sign, Field(f.maximum, f.precision));
    var finite := !anyNan && !anyInf;
    FloatWord(
      if anyNan then QuietNan(f) else if anyInf then infinity else rounded.result,
      requestValid && !invalid, invalid, rounded.overflow && finite, rounded.underflow && finite,
      rounded.inexact && finite, rounded.zero && finite, false)
  }

  function FusedFormats(lhs: nat, rhs: nat, addend: nat, code: nat, requestValid: bool): FloatWord {
    var f := FormatOf(code);
    var a, b, c := UnpackFloat(lhs, f), UnpackFloat(rhs, f), UnpackFloat(addend, f);
    var total := FusedSum(a, b, c, f);
    FusedResult(a, b, c, PackFloat(total.sign, total.magnitude, total.high, f), f, requestValid)
  }

  // --------------------------------------------------------------- alignment and addition

  /** A prepared word: zero, or with its leading one at bit 126 and `pad` zeros at the bottom. */
  predicate Ready(z: Scaled, pad: nat) {
    z.word == 0 || (Pow2(126) <= z.word < Pow2(127) && Dropped(z.word, pad) == 0)
  }

  lemma PreparedIs(significand: nat, lsb: int, pad: nat)
    requires pad <= 126 && significand < Pow2(127 - pad) && pad + 126 <= lsb < 0x2000
    ensures var z := Prepared(significand, lsb, pad);
            Ready(z, pad) && Scale(z.word, z.lsb) == Scale(significand, lsb) && (z.word == 0 <==> significand == 0)
  {
    hide Scale, Pow2, Shifted, Dropped, Leading, LowBits;
    var padded := Field(significand, pad);
    ScaleOrder(significand, Pow2(127 - pad), pad);
    ScalePow2(127 - pad, pad);
    Pow2Order(127, 128);
    FitsWord(significand, pad, 128);
    ScaleZero(lsb);
    if significand == 0 {
      ScaleZero(pad);
      ScaleZero(0);
      FitsWord(0, 0, 128);
      ScaleZero(Prepared(0, lsb, pad).lsb);
    } else {
      Normalizes(significand, lsb, pad, padded);
    }
  }

  lemma Normalizes(significand: nat, lsb: int, pad: nat, padded: nat)
    requires pad <= 126 && 0 < significand && pad + 126 <= lsb < 0x2000
    requires padded == Scale(significand, pad) == LowBits(significand, pad, 128) && padded < Pow2(127) < Pow2(128)
    ensures var z := Prepared(significand, lsb, pad);
            z.word != 0 && Ready(z, pad) && Scale(z.word, z.lsb) == Scale(significand, lsb)
  {
    hide Scale, Pow2, Shifted, Dropped, Leading, LowBits, U13;
    ScaleZero(pad);
    ScaleOrder(0, significand, pad);
    LeadingBelow(padded, 127);
    var l := Leading(padded);
    var amount := 126 - l;
    Small13(lsb - pad);
    Small13(lsb - pad - amount);
    ScaleOrder(Pow2(l), padded, amount);
    ScaleOrder(padded, Pow2(l + 1), amount);
    ScalePow2(l, amount);
    ScalePow2(l + 1, amount);
    FitsWord(padded, amount, 128);
    ScaleScale(significand, pad, amount);
    ScaleScale(significand, amount, pad);
    ShiftedScale(Field(significand, amount), pad);
    ScaleScale(significand, pad + amount, lsb - pad - amount);
  }

  /** A word with `pad` zeros at the bottom loses nothing to a shift of at most `pad`. */
  lemma ShortShift(x: nat, d: nat, pad: nat)
    requires Dropped(x, pad) == 0 && d <= pad
    ensures Dropped(x, d) == 0
  {
    hide Scale, Pow2, Shifted, Dropped;
    SplitAt(x, pad);
    var q := Shifted(x, pad);
    ScaleScale(q, pad - d, d);
    ShiftedScale(Field(q, pad - d), d);
  }

  lemma ReadyIsEven(z: Scaled, pad: nat)
    requires Ready(z, pad) && pad >= 1
    ensures z.word % 2 == 0
  {
    if z.word != 0 {
      ShortShift(z.word, 1, pad);
      assert Dropped(z.word, 1) == z.word % 2;
    }
  }

  /** The jammed part of a long shift is too small to disturb the other operand's leading bits. */
  lemma JammedIsSmall(x: nat, d: nat, pad: nat)
    requires x < Pow2(127) && Dropped(x, pad) == 0
    ensures Jammed(x, d) <= Pow2(127)
    ensures Dropped(x, d) != 0 ==> d > pad
    ensures d > pad && pad <= 126 ==> Jammed(x, d) <= Pow2(126 - pad)
  {
    hide Scale, Pow2, Shifted, Dropped;
    if Dropped(x, d) != 0 && d <= pad { ShortShift(x, d, pad); }
    SplitAt(x, d);
    ScaleZero(d);
    ScaleOrder(0, Shifted(x, d), d);
    assert Shifted(x, d) <= x by { ScaleAtLeast(Shifted(x, d), d); }
    if d > pad && pad <= 126 {
      Pow2Grows(127, 126 - pad + d);
      ShiftedBelow(x, 126 - pad, d);
    }
  }

  lemma ScaleAtLeast(x: nat, n: nat)
    ensures Scale(x, n) >= x
  {
    ProductOrder(1, Pow2(n), x);
  }

  lemma AlignSum(big: Scaled, small: Scaled, padBig: nat, padSmall: nat) returns (x: nat, d: nat)
    requires Ready(big, padBig) && Ready(small, padSmall) && big.word != 0 && small.word != 0
    requires 1 <= padBig && big.lsb >= small.lsb
    ensures d == big.lsb - small.lsb && x == Scale(big.word, d) + small.word > 0
    ensures Pow2(125) <= Jammed(x, d) == big.word + Jammed(small.word, d) < Pow2(128)
    ensures Scale(x, small.lsb) == Scale(big.word, big.lsb) + Scale(small.word, small.lsb)
  {
    hide Scale, Pow2, Shifted, Dropped, Jammed;
    d := big.lsb - small.lsb;
    x := Field(big.word, d) + small.word;
    ReadyIsEven(big, padBig);
    JamSum(big.word, small.word, d);
    ScaleZero(d);
    ScaleOrder(0, big.word, d);
    Pow2Order(125, 126);
    Pow2Next(127);
    JammedIsSmall(small.word, d, padSmall);
    ScaleAdds(Scale(big.word, d), small.word, small.lsb);
    ScaleScale(big.word, d, small.lsb);
  }

  lemma AlignDifference(big: Scaled, small: Scaled, padBig: nat, padSmall: nat) returns (x: nat, d: nat)
    requires Ready(big, padBig) && Ready(small, padSmall) && big.word != 0 && small.word != 0
    requires 1 <= padBig && 2 <= padSmall <= 126 && big.lsb > small.lsb
    ensures d == big.lsb - small.lsb && x == Scale(big.word, d) - small.word > 0
    ensures 0 < Jammed(x, d) == big.word - Jammed(small.word, d) < Pow2(128)
    ensures Dropped(x, d) != 0 ==> Jammed(x, d) >= Pow2(125)
    ensures Scale(x, small.lsb) == Scale(big.word, big.lsb) - Scale(small.word, small.lsb)
  {
    hide Scale, Pow2, Shifted, Dropped, Jammed;
    d := big.lsb - small.lsb;
    ReadyIsEven(big, padBig);
    BigIsBigger(big.word, small.word, d);
    JamDifference(big.word, small.word, d);
    x := Scale(big.word, d) - small.word;
    JammedZero(x, d);
    Pow2Order(127, 128);
    ScaleAdds(Scale(big.word, d), small.word, small.lsb);
    ScaleScale(big.word, d, small.lsb);
    if Dropped(x, d) != 0 {
      DifferenceDrops(big.word, small.word, d);
      JammedIsSmall(small.word, d, padSmall);
      Pow2Grows(126 - padSmall, 124);
      Pow2Next(124);
      Pow2Next(125);
    }
  }

  lemma BigIsBigger(big: nat, small: nat, d: nat)
    requires Pow2(126) <= big && small < Pow2(127) && d > 0
    ensures small < Scale(big, d)
  {
    hide Scale, Pow2;
    ScaleOrder(Pow2(126), big, d);
    ScalePow2(126, d);
    Pow2Grows(127, 126 + d);
  }

  lemma DifferenceDrops(big: nat, small: nat, d: nat)
    requires small <= Scale(big, d) && Dropped(Scale(big, d) - small, d) != 0
    ensures Dropped(small, d) != 0
  {
    hide Scale, Pow2, Shifted, Dropped;
    if Dropped(small, d) == 0 {
      SplitAt(small, d);
      ScaleAdds(big, Shifted(small, d), d);
      ScaleOrder(Shifted(small, d), big, d);
      ShiftedScale(big - Shifted(small, d), d);
    }
  }

  /** A signed number from sign bit and magnitude. */
  function Signum(sign: nat, v: int): int { if sign == 1 then -v else v }

  function Magn(v: int): nat { if v < 0 then -v else v }

  /** The sign of an exact sum, IEEE 754-2019 section 6.3: of the sum itself when it is not zero;
      of the operands when an exact zero comes from equal signs; positive otherwise. */
  function SumSign(productSign: nat, addendSign: nat, sum: int): nat {
    if sum > 0 then 0 else if sum < 0 then 1 else if productSign == addendSign then productSign else 0
  }

  /** `total` stands for the exact sum: its magnitude is the exact one, jammed only where the
      leading bits are far above. */
  predicate Stands(total: Summed, sum: int, productSign: nat, addendSign: nat, x: nat, d: nat, low: nat) {
    && total.high == low + d
    && total.magnitude == Jammed(x, d) < Pow2(128)
    && Scale(x, low) == Magn(sum)
    && (Dropped(x, d) != 0 ==> total.magnitude >= Pow2(125))
    && total.sign == SumSign(productSign, addendSign, sum)
  }

  lemma ShiftJamIs(value: nat, amount: nat)
    requires value < Pow2(128)
    ensures ShiftJam(value, amount) == Jammed(value, amount)
  {
    hide Pow2, Shifted, Dropped;
    FarShift(value, amount);
  }

  lemma JammedByNothing(value: nat)
    ensures Jammed(value, 0) == value && Dropped(value, 0) == 0
  {
  }

  lemma JammedNothing(amount: nat)
    ensures ShiftJam(0, amount) == 0
  {
    hide Pow2, Shifted, Dropped;
    JammedZero(0, AtMost(amount, 255));
  }

  lemma CombineOneZero(product: Scaled, addend: Scaled, ps: nat, cs: nat)
    requires product.word < Pow2(127) && addend.word < Pow2(127) && ps < 2 && cs < 2
    requires product.word == 0 || addend.word == 0
    requires product.lsb < 0x2000 && addend.lsb < 0x2000
    ensures var one := if addend.word == 0 then product else addend;
            Stands(Combine(product, addend, ps, cs),
                   Signum(ps, Scale(product.word, product.lsb)) + Signum(cs, Scale(addend.word, addend.lsb)),
                   ps, cs, one.word, 0, one.lsb)
  {
    hide Scale, Pow2, Shifted, Dropped, ShiftJam;
    Pow2Order(127, 128);
    ShiftJamIs(product.word, 0);
    ShiftJamIs(addend.word, 0);
    JammedByNothing(product.word);
    JammedByNothing(addend.word);
    JammedNothing(U13(product.lsb - addend.lsb));
    JammedNothing(U13(addend.lsb - product.lsb));
    ScaleZero(product.lsb);
    ScaleZero(addend.lsb);
    ScaleOrder(0, product.word, product.lsb);
    ScaleOrder(0, addend.word, addend.lsb);
    ShiftedAway(product.word, 128);
    ShiftedAway(addend.word, 128);
  }

  /** Both operands present and the signs equal. */
  lemma CombineSum(product: Scaled, addend: Scaled, s: nat, padP: nat, padC: nat) returns (x: nat, d: nat, low: nat)
    requires Ready(product, padP) && Ready(addend, padC) && product.word != 0 && addend.word != 0
    requires 1 <= padP && 1 <= padC && product.lsb < 0x2000 && addend.lsb < 0x2000 && s < 2
    ensures Stands(Combine(product, addend, s, s),
                   Signum(s, Scale(product.word, product.lsb)) + Signum(s, Scale(addend.word, addend.lsb)),
                   s, s, x, d, low) && x > 0
  {
    hide Scale, Pow2, Shifted, Dropped, ShiftJam, Jammed;
    Pow2Order(127, 128);
    ScaleZero(product.lsb);
    ScaleZero(addend.lsb);
    ScaleOrder(0, product.word, product.lsb);
    ScaleOrder(0, addend.word, addend.lsb);
    var big, small := product, addend;
    if product.lsb >= addend.lsb {
      x, d := AlignSum(product, addend, padP, padC);
    } else {
      big, small := addend, product;
      x, d := AlignSum(addend, product, padC, padP);
    }
    low := small.lsb;
    ShiftJamIs(small.word, d);
    ShiftJamIs(big.word, 0);
    JammedByNothing(big.word);
    ShiftedAway(big.word + Jammed(small.word, d), 128);
  }

  /** Both operands present and the signs different. */
  lemma CombineDifference(product: Scaled, addend: Scaled, ps: nat, cs: nat, padP: nat, padC: nat)
    returns (x: nat, d: nat, low: nat)
    requires Ready(product, padP) && Ready(addend, padC) && product.word != 0 && addend.word != 0
    requires 2 <= padP <= 126 && 2 <= padC <= 126 && product.lsb < 0x2000 && addend.lsb < 0x2000
    requires ps < 2 && cs < 2 && ps != cs
    ensures Stands(Combine(product, addend, ps, cs),
                   Signum(ps, Scale(product.word, product.lsb)) + Signum(cs, Scale(addend.word, addend.lsb)),
                   ps, cs, x, d, low)
  {
    hide Scale, Pow2, Shifted, Dropped, ShiftJam, Jammed;
    Pow2Order(127, 128);
    if product.lsb == addend.lsb {
      hide Stands, Combine;
      x, d, low := CombineLevel(product, addend, ps, cs);
    } else {
      var big, small := product, addend;
      if product.lsb > addend.lsb {
        x, d := AlignDifference(product, addend, padP, padC);
      } else {
        big, small := addend, product;
        x, d := AlignDifference(addend, product, padC, padP);
      }
      low := small.lsb;
      ShiftJamIs(small.word, d);
      ShiftJamIs(big.word, 0);
      JammedByNothing(big.word);
      ScaleZero(low);
      ScaleOrder(0, x, low);
    }
  }

  /** The same with both at one scale: nothing is jammed, and everything may cancel. */
  lemma CombineLevel(product: Scaled, addend: Scaled, ps: nat, cs: nat) returns (x: nat, d: nat, low: nat)
    requires 0 < product.word < Pow2(128) && 0 < addend.word < Pow2(128)
    requires product.lsb == addend.lsb < 0x2000 && ps < 2 && cs < 2 && ps != cs
    ensures Stands(Combine(product, addend, ps, cs),
                   Signum(ps, Scale(product.word, product.lsb)) + Signum(cs, Scale(addend.word, addend.lsb)),
                   ps, cs, x, d, low)
  {
    hide Scale, Pow2, Shifted, Dropped, ShiftJam, Jammed;
    d, low := 0, product.lsb;
    x := if product.word >= addend.word then product.word - addend.word else addend.word - product.word;
    ScaleZero(low);
    ShiftJamIs(product.word, 0);
    ShiftJamIs(addend.word, 0);
    JammedByNothing(product.word);
    JammedByNothing(addend.word);
    JammedByNothing(x);
    ScaleAdds(product.word, addend.word, low);
    ScaleAdds(addend.word, product.word, low);
    ScaleOrder(product.word, addend.word, low);
  }

  // -------------------------------------------------------------------- the theorem

  /** The exact product of two magnitude words, in units of 2^-4096. */
  function ExactProduct(f: Format, m: nat, n: nat): int
    requires Supported(f)
  {
    PlaceRange(f, m, n);
    Scale(Times(Significand(f, m), Significand(f, n)), Place(f, m) + Place(f, n) - 4096)
  }

  predicate Finite(f: Format, word: nat) { Magnitude(f, word) < InfinityWord(f) }

  function ExactFused(f: Format, lhs: nat, rhs: nat, addend: nat): int
    requires Supported(f)
  {
    var product := ExactProduct(f, Magnitude(f, lhs), Magnitude(f, rhs));
    Signum((SignOf(f, lhs) + SignOf(f, rhs)) % 2, product) + Signum(SignOf(f, addend), Value(f, Magnitude(f, addend)))
  }

  lemma PlaceRange(f: Format, m: nat, n: nat)
    requires Supported(f)
    ensures Place(f, m) + Place(f, n) >= 4096
  {
    hide Exponent;
  }

  /** Scaled to the unit both factors are measured in, it is their product. */
  lemma ExactProductIs(f: Format, m: nat, n: nat)
    requires Supported(f)
    ensures Scale(ExactProduct(f, m, n), 4096) == Value(f, m) * Value(f, n)
  {
    hide Scale, Significand, Place;
    PlaceRange(f, m, n);
    var s, t, i, j := Significand(f, m), Significand(f, n), Place(f, m), Place(f, n);
    ScaleScale(Times(s, t), i + j - 4096, 4096);
    ScaleScale(s * t, i, j);
    ScaleTimes(s, t, i);
    ScaleTimes(Scale(s, i), t, j);
  }

  lemma FusedStands(lhs: nat, rhs: nat, addend: nat, f: Format) returns (x: nat, d: nat, low: nat)
    requires Supported(f)
    ensures Stands(FusedSum(UnpackFloat(lhs, f), UnpackFloat(rhs, f), UnpackFloat(addend, f), f),
                   ExactFused(f, lhs, rhs, addend), (SignOf(f, lhs) + SignOf(f, rhs)) % 2, SignOf(f, addend), x, d, low)
  {
    hide Scale, Pow2, Shifted, Dropped, Prepared, Combine, UnpackFloat, Significand, Place, Jammed, Magnitude, SignOf,
      Ready;
    UnpackIs(lhs, f);
    UnpackIs(rhs, f);
    UnpackIs(addend, f);
    var a, b, c, p := UnpackFloat(lhs, f), UnpackFloat(rhs, f), UnpackFloat(addend, f), f.precision;
    ProductBound(a.significand, b.significand, p + 1);
    PreparedIs(Times(a.significand, b.significand), a.lsbBias + b.lsbBias - 4096, 125 - 2 * p);
    PreparedIs(c.significand, c.lsbBias, 126 - p);
    var product := Prepared(Times(a.significand, b.significand), a.lsbBias + b.lsbBias - 4096, 125 - 2 * p);
    var summand := Prepared(c.significand, c.lsbBias, 126 - p);
    var ps := ProductSign(a, b);
    assert product.word < Pow2(127) && summand.word < Pow2(127) by {
      ReadyBelow(product, 125 - 2 * p);
      ReadyBelow(summand, 126 - p);
    }
    assert product.lsb < 0x2000 && summand.lsb < 0x2000 by {
      PreparedLsb(Times(a.significand, b.significand), a.lsbBias + b.lsbBias - 4096, 125 - 2 * p);
      PreparedLsb(c.significand, c.lsbBias, 126 - p);
    }
    if product.word == 0 || summand.word == 0 {
      CombineOneZero(product, summand, ps, c.sign);
      var one := if summand.word == 0 then product else summand;
      x, d, low := one.word, 0, one.lsb;
    } else if ps == c.sign {
      x, d, low := CombineSum(product, summand, ps, 125 - 2 * p, 126 - p);
    } else {
      x, d, low := CombineDifference(product, summand, ps, c.sign, 125 - 2 * p, 126 - p);
    }
  }

  lemma ReadyBelow(z: Scaled, pad: nat)
    requires Ready(z, pad)
    ensures z.word < Pow2(127)
  {
  }

  lemma PreparedLsb(significand: nat, lsb: int, pad: nat)
    ensures Prepared(significand, lsb, pad).lsb < 0x2000
  {
  }

  lemma ProductBound(s: nat, t: nat, n: nat)
    requires s < Pow2(n) && t < Pow2(n)
    ensures Times(s, t) < Pow2(n + n)
  {
    hide Pow2;
    Pow2Adds(n, n);
    ProductOrder(s, Pow2(n), t);
    StrictProduct(t, Pow2(n), Pow2(n));
  }

  /** For all finite operands of every format: the result is the exact a * b + c rounded once to
      nearest, ties to even, with the sign of the exact sum, or of the zero rule when it is zero. */
  lemma FusedRounds(lhs: nat, rhs: nat, addend: nat, code: nat, requestValid: bool) returns (n: nat)
    requires var f := FormatOf(code); Finite(f, lhs) && Finite(f, rhs) && Finite(f, addend)
    ensures var f, r := FormatOf(code), FusedFormats(lhs, rhs, addend, code, requestValid);
            var sum := ExactFused(f, lhs, rhs, addend);
            var sign := SumSign((SignOf(f, lhs) + SignOf(f, rhs)) % 2, SignOf(f, addend), sum);
            && Nearest(f, Whole(Magn(sum)), n)
            && r.result == Signed(f, sign, AtMost(n, InfinityWord(f)))
            && r.overflow == (n >= InfinityWord(f))
            && r.inexact == (r.overflow || Value(f, n) != Magn(sum))
            && r.underflow == (n < Pow2(f.precision) && Value(f, n) != Magn(sum))
            && r.zero == (n == 0)
            && r.valid == requestValid && !r.invalid && !r.divideByZero
  {
    hide Scale, Pow2, Shifted, Dropped, PackFloat, UnpackFloat, FusedSum, Value, Nearest, RoundedWord, InfinityWord,
      Jammed, Magnitude, SignOf, ExactFused, QuietNan;
    var f := FormatOf(code);
    UnpackIs(lhs, f);
    UnpackIs(rhs, f);
    UnpackIs(addend, f);
    var total := FusedSum(UnpackFloat(lhs, f), UnpackFloat(rhs, f), UnpackFloat(addend, f), f);
    var x, d, low := FusedStands(lhs, rhs, addend, f);
    n := RoundedWord(f, total.magnitude, total.high);
    assert total.high < 0x2000 by { HighRange(lhs, rhs, addend, f); }
    PackIs(total.sign, total.magnitude, total.high, f);
    PackFlags(total.sign, total.magnitude, total.high, f);
    JammedZero(x, d);
    if x == 0 {
      ScaleZero(low);
      ScaleZero(total.high);
      RoundedOfZero(f, total.high);
      NearestZero(f);
    } else {
      Pow2Grows(f.precision + 2, 125);
      JamRounds(f, x, d, low);
    }
  }

  lemma HighRange(lhs: nat, rhs: nat, addend: nat, f: Format)
    requires Supported(f)
    ensures FusedSum(UnpackFloat(lhs, f), UnpackFloat(rhs, f), UnpackFloat(addend, f), f).high < 0x2000
  {
    hide Pow2, Shifted, Dropped, UnpackFloat, ShiftJam, LowBits, NormalizeAmount;
  }
}
