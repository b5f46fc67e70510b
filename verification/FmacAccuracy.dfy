/** What the BF16 multiply-accumulate computes as a number: the fields of its words, what a change
    of signs does, and how far its result can lie from the exact a * b + acc. */
module FmacAccuracy {
  import opened Bits
  import opened Scaling
  import opened FmacPipeline

  // ------------------------------------------------------------------------ fields

  /** A BF16 word is its sign, its exponent field and its seven fraction bits. */
  lemma WordFields16(x: nat)
    requires x < 0x1_0000
    ensures x == 0x8000 * Sign16(x) + 0x80 * Exponent16(x) + x % 0x80
    ensures Sign16(x) < 2 && Exponent16(x) < 256
  {
    NestedDivide(x, 0x80, 256);
  }

  // ------------------------------------------------------------------------- signs

  /** The operands of -(a * b + acc). */
  function Negated(x: Operands): Operands {
    Operands((x.a + 0x8000) % 0x1_0000, x.b, (x.acc + 0x8000_0000) % 0x1_0000_0000)
  }

  lemma NegatedFields16(a: nat)
    requires a < 0x1_0000
    ensures var n := (a + 0x8000) % 0x1_0000;
            Sign16(n) == 1 - Sign16(a) && Exponent16(n) == Exponent16(a) && n % 128 == a % 128
  {
    hide Sign16, Exponent16;
    var n := (a + 0x8000) % 0x1_0000;
    WordFields16(a);
    WordFields16(n);
    FieldsUnique16(Sign16(n), Exponent16(n), n % 0x80, 1 - Sign16(a), Exponent16(a), a % 0x80);
  }

  lemma FieldsUnique16(s: nat, e: nat, f: nat, s': nat, e': nat, f': nat)
    requires s < 2 && s' < 2 && e < 256 && e' < 256 && f < 0x80 && f' < 0x80
    requires 0x8000 * s + 0x80 * e + f == 0x8000 * s' + 0x80 * e' + f'
    ensures s == s' && e == e' && f == f'
  {
  }

  lemma NegatedFields32(acc: nat)
    requires acc < 0x1_0000_0000
    ensures var n := (acc + 0x8000_0000) % 0x1_0000_0000;
            Sign32(n) == 1 - Sign32(acc) && Exponent32(n) == Exponent32(acc) && Low23(n) == Low23(acc)
  {
    hide Sign32, Exponent32, Low23, Word32;
    var n := (acc + 0x8000_0000) % 0x1_0000_0000;
    assert n == Word32(1 - Sign32(acc), Exponent32(acc), Low23(acc)) by {
      WholeWord(acc);
      WordFields32(acc);
      FieldBounds32(acc);
      TopFlipped(Sign32(acc), Exponent32(acc), Low23(acc));
    }
    assert n == Word32(Sign32(n), Exponent32(n), Low23(n)) by {
      WholeWord(n);
      WordFields32(n);
    }
    FieldBounds32(acc);
    FieldBounds32(n);
    FieldsUnique32(Sign32(n), Exponent32(n), Low23(n), 1 - Sign32(acc), Exponent32(acc), Low23(acc));
  }

  lemma WholeWord(x: nat)
    requires x < 0x1_0000_0000
    ensures x % 0x1_0000_0000 == x
  {
  }

  lemma TopFlipped(s: nat, e: nat, f: nat)
    requires s < 2 && e < 256 && f < 0x80_0000
    ensures (Word32(s, e, f) + 0x8000_0000) % 0x1_0000_0000 == Word32(1 - s, e, f)
  {
    var w := Word32(0, e, f);
    assert 0 <= w < 0x8000_0000;
    if s == 1 { DivideUnique(w, 1, 0x1_0000_0000); } else { WholeWord(w + 0x8000_0000); }
  }

  lemma FieldBounds32(x: nat)
    ensures Sign32(x) < 2 && Exponent32(x) < 256 && Low23(x) < 0x80_0000
  {
  }

  lemma FieldsUnique32(s: nat, e: nat, f: nat, s': nat, e': nat, f': nat)
    requires s < 2 && s' < 2 && e < 256 && e' < 256 && f < 0x80_0000 && f' < 0x80_0000
    requires Word32(s, e, f) == Word32(s', e', f')
    ensures s == s' && e == e' && f == f'
  {
  }

  lemma NegatedSum(x: Operands)
    requires x.a < 0x1_0000 && x.acc < 0x1_0000_0000
    ensures var s, t := Accumulate(x), Accumulate(Negated(x));
            s.exponent == t.exponent && s.magnitude == t.magnitude && s.sign < 2
            && (s.magnitude != 0 ==> t.sign == 1 - s.sign)
  {
    hide Exponent16, Exponent32, Sign16, Sign32, Low8, Low10, Low23, Low26, Shifted, TopBit, Times;
    NegatedFields16(x.a);
    NegatedFields32(x.acc);
    FieldBounds32(x.acc);
    SignBit16(x.a);
    SignBit16(x.b);
  }

  lemma SignBit16(x: nat)
    ensures Sign16(x) < 2
  {
  }

  /** Bit 31 flipped. */
  function Flipped(w: nat): nat { (w + 0x8000_0000) % 0x1_0000_0000 }

  lemma NormalizedFlips(s: Sum, t: Sum)
    requires s.magnitude == t.magnitude > 0 && s.exponent == t.exponent && s.sign < 2 && t.sign == 1 - s.sign
    ensures Normalize(t) == Flipped(Normalize(s))
  {
    hide Displaced, Displacement, Low8, Low23, Word32, Flipped;
    var d := Displacement(s.magnitude);
    var e, f := Low8(s.exponent + 1024 + d), Low23(Displaced(s.magnitude, d));
    FieldBounds(s.exponent + 1024 + d, Displaced(s.magnitude, d));
    WordFlips(s.sign, e, f);
  }

  lemma WordFlips(s: nat, e: nat, f: nat)
    requires s < 2 && e < 256 && f < 0x80_0000
    ensures Flipped(Word32(s, e, f)) == Word32(1 - s, e, f)
  {
    hide Word32;
    TopFlipped(s, e, f);
  }

  /** Nothing is left: a zero product and a flushed accumulator, or a sum that cancels. */
  predicate Cancels(x: Operands) {
    if Exponent16(x.a) == 0 || Exponent16(x.b) == 0 then Exponent32(x.acc) == 0 else Accumulate(x).magnitude == 0
  }

  /** Flipping the signs of a and acc flips the sign bit of the result and nothing else; where nothing
      is left both results are the zero word. */
  lemma SignLaw(x: Operands)
    requires x.a < 0x1_0000 && x.acc < 0x1_0000_0000
    ensures var r, n := Evaluate(x), Evaluate(Negated(x)); if Cancels(x) then r == 0 == n else n == Flipped(r)
  {
    hide Exponent16, Exponent32, Accumulate, Normalize, Flipped;
    NegatedFields16(x.a);
    NegatedFields32(x.acc);
    if Exponent16(x.a) == 0 || Exponent16(x.b) == 0 {
      WholeWord(x.acc);
      FlippedWhole(x.acc);
    } else {
      NegatedSum(x);
      var s, t := Accumulate(x), Accumulate(Negated(x));
      if s.magnitude != 0 {
        NormalizedFlips(s, t);
      } else {
        NormalizedZero(s);
        NormalizedZero(t);
      }
    }
  }

  lemma NormalizedZero(s: Sum)
    requires s.magnitude == 0
    ensures Normalize(s) == 0
  {
  }

  lemma FlippedWhole(acc: nat)
    requires acc < 0x1_0000_0000
    ensures Flipped(acc) % 0x1_0000_0000 == Flipped(acc) == (acc + 0x8000_0000) % 0x1_0000_0000
  {
  }

  lemma FieldBounds(e: int, m: nat)
    ensures Low8(e) < 256 && Low23(m) < 0x80_0000
  {
  }

  // ------------------------------------------------------------------------ accuracy

  function Signum(sign: nat, v: int): int { if sign == 1 then -v else v }

  /** The value of a BF16 word in units of 2^-134, subnormals read as zero. */
  function Value16(w: nat): int {
    var e := w / 0x80 % 256;
    if e == 0 then 0 else Signum(w / 0x8000 % 2, Scale(128 + w % 128, e))
  }

  /** The value of a binary32 word in units of 2^-150, subnormals read as zero. */
  function Value32(w: nat): int {
    var e := w / 0x80_0000 % 256;
    if e == 0 then 0 else Signum(w / 0x8000_0000 % 2, Scale(0x80_0000 + w % 0x80_0000, e))
  }

  /** a * b + acc in units of 2^-268. */
  function Exact(x: Operands): int { Value16(x.a) * Value16(x.b) + Scale(Value32(x.acc), 118) }

  predicate Within(a: int, b: int, bound: int) { -bound < a - b < bound }

  lemma SignumScales(sign: nat, v: int, n: nat)
    ensures Scale(Signum(sign, v), n) == Signum(sign, Scale(v, n))
  {
  }

  /** A right shift by the distance of two scales, capped at 26, of fewer than 24 bits. */
  lemma AlignedDown(m: nat, low: nat, high: nat)
    requires m < Pow2(24) && low <= high
    ensures var distance := high - low;
            var q := Shifted(m, if distance > 26 then 26 else distance);
            Scale(q, high) <= Scale(m, low) < Scale(q + 1, high)
  {
    hide Scale, Shifted, Dropped, Pow2;
    var distance := high - low;
    if distance > 26 {
      Pow2Grows(24, 26);
      ShiftedAway(m, 26);
      ScaleZero(high);
      ScaleZero(low);
      ScaleOrder(0, m, low);
      Pow2Grows(24, distance);
      ScaleOrder(m, Pow2(distance), low);
      ScalePow2(distance, low);
      ScaleOne(high);
    } else {
      var q, r := Shifted(m, distance), Dropped(m, distance);
      SplitAt(m, distance);
      ScaleAdds(Scale(q, distance), r, low);
      ScaleScale(q, distance, low);
      ScaleAdds(q, 1, high);
      ScaleOne(high);
      ScaleZero(low);
      ScaleOrder(0, r, low);
      ScaleOrder(r, Pow2(distance), low);
      ScalePow2(distance, low);
    }
  }

  /** The product's exponent field before any wrap, and its 24-bit mantissa. */
  function ProductExponent(x: Operands): int {
    var product := Times(128 + x.a % 128, 128 + x.b % 128);
    Exponent16(x.a) + Exponent16(x.b) - 127 + if TopBit(product) then 1 else 0
  }

  function ProductMantissa(x: Operands): nat {
    var product := Times(128 + x.a % 128, 128 + x.b % 128);
    (if TopBit(product) then product / 2 else product) * 512
  }

  function ProductSign(x: Operands): nat { (Sign16(x.a) + Sign16(x.b)) % 2 }

  /** The larger exponent field of the two summands. */
  function LargerExponent(x: Operands): nat {
    var pe, ce := ProductExponent(x), Exponent32(x.acc);
    if pe > ce then pe else ce
  }

  /** Exponents that neither wrap nor can be cancelled to below one. */
  predicate InRange(x: Operands) {
    var e, c := Exponent16(x.a) + Exponent16(x.b), Exponent32(x.acc);
    && Exponent16(x.a) != 0 && Exponent16(x.b) != 0
    && 127 <= e <= 379 && c <= 253 && (e >= 151 || c >= 24)
  }

  lemma TopFits(product: nat)
    requires product < 0x1_0000
    ensures var half := if TopBit(product) then product / 2 else product;
            half < 0x8000 && (if TopBit(product) then product == 2 * half + product % 2 else product == half)
  {
  }

  lemma ProductRange(a: nat, b: nat)
    ensures Times(128 + a % 128, 128 + b % 128) < 0x1_0000
  {
    ProductOrder(128 + a % 128, 255, 128 + b % 128);
  }

  /** The halved product drops one bit: 256 of its units at most. */
  lemma ProductIsClose(x: Operands)
    requires InRange(x)
    ensures ProductExponent(x) >= 0 && ProductMantissa(x) < Pow2(24)
    ensures var kept := Scale(Signum(ProductSign(x), Scale(ProductMantissa(x), ProductExponent(x))), 118);
            Within(kept, Value16(x.a) * Value16(x.b), Scale(256, ProductExponent(x) + 118) + 1)
  {
    hide Scale, Pow2, Times, TopBit, Exponent16, Sign16;
    var ma, mb, ea, eb := 128 + x.a % 128, 128 + x.b % 128, Exponent16(x.a), Exponent16(x.b);
    var product := Times(ma, mb);
    var half, e := if TopBit(product) then product / 2 else product, ProductExponent(x);
    ProductRange(x.a, x.b);
    TopFits(product);
    StagePowers();
    SignedProduct(x);
    SignumScales(ProductSign(x), Scale(half * 512, e), 118);
    ScaleScale(half * 512, e, 118);
    NineMore(half, e + 118);
    if TopBit(product) {
      ScaleNext(half, ea + eb);
      ScaleAdds(2 * half, product % 2, ea + eb);
      EightMore(e + 118);
      ScaleZero(ea + eb);
      ScaleOrder(product % 2, 1, ea + eb);
      ScaleOrder(0, product % 2, ea + eb);
    } else {
      ScaleZero(e + 118);
      ScaleOrder(0, 256, e + 118);
    }
  }

  lemma NineMore(x: int, n: nat)
    ensures Scale(x * 512, n) == Scale(x, n + 9)
  {
    assert Pow2(9) == 512 by { StagePowers(); }
    Pow2Adds(n, 9);
    assert (x * 512) * Pow2(n) == x * (Pow2(n) * 512);
  }

  lemma EightMore(n: nat)
    ensures Scale(256, n) == Scale(1, n + 8)
  {
    StagePowers();
    Pow2Adds(n, 8);
  }

  lemma SignedProduct(x: Operands)
    requires Exponent16(x.a) != 0 && Exponent16(x.b) != 0
    ensures Value16(x.a) * Value16(x.b)
         == Signum(ProductSign(x), Scale(Times(128 + x.a % 128, 128 + x.b % 128), Exponent16(x.a) + Exponent16(x.b)))
  {
    hide Scale, Times;
    var ma, mb, ea, eb := 128 + x.a % 128, 128 + x.b % 128, Exponent16(x.a), Exponent16(x.b);
    var p, q := Scale(ma, ea), Scale(mb, eb);
    ScaleTimes(ma, q, ea);
    ScaleTimes(ma, mb, eb);
    ScaleScale(Times(ma, mb), eb, ea);
    SignedTimes(p, q);
  }

  lemma SignedTimes(p: int, q: int)
    ensures (-p) * q == -(p * q) && p * (-q) == -(p * q) && (-p) * (-q) == p * q
  {
  }

  /** The aligned sum: only the operand with the smaller exponent is cut, by less than one unit. */
  lemma SumIsClose(x: Operands)
    requires InRange(x) && ProductExponent(x) >= 0 && ProductMantissa(x) < Pow2(24)
    ensures var s := Accumulate(x);
            var sum := Signum(ProductSign(x), Scale(ProductMantissa(x), ProductExponent(x))) + Value32(x.acc);
            && ProductExponent(x) <= s.exponent == LargerExponent(x) && 24 <= s.exponent <= 253
            && s.magnitude < 0x400_0000
            && Within(Signum(s.sign, Scale(s.magnitude, s.exponent)), sum, Scale(1, s.exponent))
  {
    hide Scale, Pow2, Exponent16, Exponent32, Sign16, Sign32, Shifted, Accumulate, ProductMantissa, ProductSign,
      Value32, Mantissa32;
    var pe, pm, ce, cm := ProductExponent(x), ProductMantissa(x), Exponent32(x.acc), Mantissa32(x.acc);
    StagePowers();
    AccumulateIs(x);
    MantissaRange(x.acc);
    AccumulatorValue(x.acc);
    SignBits(x);
    var distance := if pe > ce then pe - ce else ce - pe;
    var shift := if distance > 26 then 26 else distance;
    var p := if pe > ce then pm else Shifted(pm, shift);
    var c := if pe > ce then Shifted(cm, shift) else cm;
    var e := if pe > ce then pe else ce;
    if pe > ce { AlignedDown(cm, ce, pe); } else { AlignedDown(pm, pe, ce); }
    SignedSum(ProductSign(x), Sign32(x.acc), p, c, e);
    CutSum(ProductSign(x), Sign32(x.acc), p, c, Scale(pm, pe), Scale(cm, ce), e);
  }

  lemma SignBits(x: Operands)
    ensures ProductSign(x) < 2 && Sign32(x.acc) < 2
  {
  }

  lemma NoWrap(e: nat, k: nat)
    requires k <= 1 && e + k <= 255
    ensures Low8(Low10(Low10(e + 1024) + k)) == e + k
  {
    assert Low10(e + 1024) == e;
  }

  /** The sum in terms of the unwrapped exponent. */
  lemma AccumulateIs(x: Operands)
    requires InRange(x) && ProductExponent(x) >= 0 && ProductMantissa(x) < 0x100_0000
    ensures var pe, pm, ce, cm := ProductExponent(x), ProductMantissa(x), Exponent32(x.acc), Mantissa32(x.acc);
            var distance := if pe > ce then pe - ce else ce - pe;
            var shift := if distance > 26 then 26 else distance;
            var p, c := if pe > ce then pm else Shifted(pm, shift), if pe > ce then Shifted(cm, shift) else cm;
            var ps, cs := ProductSign(x), Sign32(x.acc);
            Accumulate(x) == Sum(if ps == cs || p >= c then ps else cs, if pe > ce then pe else ce,
                               if ps == cs then p + c else if p >= c then p - c else c - p)
            && p < 0x100_0000 && c < 0x100_0000
  {
    hide Times, TopBit, Exponent16, Exponent32, Sign16, Sign32, Shifted, Low8, Low10, Low23, Low26;
    var pe, pm, ce, cm := ProductExponent(x), ProductMantissa(x), Exponent32(x.acc), Mantissa32(x.acc);
    var distance := if pe > ce then pe - ce else ce - pe;
    var shift := if distance > 26 then 26 else distance;
    NoWrap(Exponent16(x.a) + Exponent16(x.b) - 127, if TopBit(Times(128 + x.a % 128, 128 + x.b % 128)) then 1 else 0);
    MantissaRange(x.acc);
    ShiftedAtMost(pm, shift);
    ShiftedAtMost(cm, shift);
    Fits((if pe > ce then pm else Shifted(pm, shift)) + if pe > ce then Shifted(cm, shift) else cm);
  }

  lemma Fits(y: nat)
    requires y < 0x400_0000
    ensures Low26(y) == y
  {
  }

  lemma AccumulatorValue(acc: nat)
    ensures Value32(acc) == Signum(Sign32(acc), Scale(Mantissa32(acc), Exponent32(acc)))
  {
    hide Scale, Pow2;
    ScaleZero(0);
  }

  lemma SignedSum(ps: nat, cs: nat, p: nat, c: nat, e: nat)
    requires ps < 2 && cs < 2
    ensures var magnitude := if ps == cs then p + c else if p >= c then p - c else c - p;
            Signum(if ps == cs || p >= c then ps else cs, Scale(magnitude, e))
            == Signum(ps, Scale(p, e)) + Signum(cs, Scale(c, e))
  {
    hide Scale;
    ScaleAdds(p, c, e);
    ScaleAdds(c, p, e);
  }

  lemma CutSum(ps: nat, cs: nat, p: nat, c: nat, exactP: int, exactC: int, e: nat)
    requires (exactP == Scale(p, e) && Scale(c, e) <= exactC < Scale(c + 1, e))
          || (exactC == Scale(c, e) && Scale(p, e) <= exactP < Scale(p + 1, e))
    ensures var sum := Signum(ps, Scale(p, e)) + Signum(cs, Scale(c, e));
            Within(sum, Signum(ps, exactP) + Signum(cs, exactC), Scale(1, e))
  {
    hide Scale;
    ScaleAdds(p, 1, e);
    ScaleAdds(c, 1, e);
  }

  /** Normalizing keeps the value but for at most two bits cut off at the right. */
  lemma NormalizeIsClose(s: Sum)
    requires 24 <= s.exponent <= 253 && s.magnitude < 0x400_0000 && s.sign < 2
    ensures Within(Value32(Normalize(s)), Signum(s.sign, Scale(s.magnitude, s.exponent)), Scale(4, s.exponent))
  {
    hide Scale, Pow2, Shifted, Dropped, Leading, Low8, Low23;
    ScaleZero(s.exponent);
    ScaleOrder(0, 4, s.exponent);
    if s.magnitude == 0 {
      ZeroWord();
    } else {
      var d := Displacement(s.magnitude);
      var m, e := Displaced(s.magnitude, d), s.exponent + d;
      DisplacedIs(s.magnitude, s.exponent);
      ExponentField(s.exponent, d);
      FieldsBack(s.sign, e, m - 0x80_0000);
      Fraction(m);
    }
  }

  lemma ZeroWord()
    ensures Value32(0) == 0
  {
    hide Scale;
    assert 0 / 0x80_0000 % 256 == 0;
  }

  lemma ExponentField(e: nat, d: int)
    requires 0 <= e + d <= 255
    ensures Low8(e + 1024 + d) == e + d
  {
  }

  lemma Fraction(m: nat)
    requires 0x80_0000 <= m < 0x100_0000
    ensures Low23(m) == m - 0x80_0000
  {
  }

  lemma FieldsBack(sign: nat, e: nat, f: nat)
    requires sign < 2 && 0 < e < 256 && f < 0x80_0000
    ensures Value32(Word32(sign, e, f)) == Signum(sign, Scale(0x80_0000 + f, e))
  {
    hide Scale;
    var w := Word32(sign, e, f);
    DivideUnique(f, sign * 256 + e, 0x80_0000);
    DivideUnique(e, sign, 256);
    NestedDivide(w, 0x80_0000, 256);
  }

  lemma DisplacedIs(magnitude: nat, e: nat)
    requires 0 < magnitude < 0x400_0000 && 24 <= e
    ensures var d := Displacement(magnitude);
            && -23 <= d <= 2 && 0x80_0000 <= Displaced(magnitude, d) < 0x100_0000
            && Scale(magnitude, e) - Scale(4, e) < Scale(Displaced(magnitude, d), e + d) <= Scale(magnitude, e)
  {
    hide Scale, Pow2, Shifted, Dropped, Leading;
    StagePowers();
    LeadingBelow(magnitude, 26);
    var l, d := Leading(magnitude), Displacement(magnitude);
    ScaleZero(e);
    ScaleOrder(0, 4, e);
    if d > 0 {
      var q, r := Shifted(magnitude, d), Dropped(magnitude, d);
      ShiftedBelow(magnitude, 24, d);
      ShiftedBelow(magnitude, 23, d);
      SplitAt(magnitude, d);
      ScaleAdds(Scale(q, d), r, e);
      ScaleScale(q, d, e);
      Pow2Grows(d, 2);
      ScaleOrder(r, 4, e);
      ScaleOrder(0, r, e);
    } else {
      var k := 0 - d;
      ScaleOrder(Pow2(l), magnitude, k);
      ScaleOrder(magnitude, Pow2(l + 1), k);
      ScalePow2(l, k);
      ScalePow2(l + 1, k);
      ScaleScale(magnitude, k, e + d);
    }
  }

  /** With exponents in range the result is within 262 units in the last place of the larger summand
      of the exact a * b + acc; a zero or subnormal factor leaves the accumulator exactly. */
  lemma EvaluateIsClose(x: Operands)
    ensures Exponent16(x.a) == 0 || Exponent16(x.b) == 0 ==> Scale(Value32(Evaluate(x)), 118) == Exact(x)
    ensures InRange(x) ==> Within(Scale(Value32(Evaluate(x)), 118), Exact(x), Scale(262, LargerExponent(x) + 118))
  {
    hide Scale, Pow2, Times, TopBit, Accumulate, Normalize, Value16, ProductExponent, ProductMantissa, ProductSign;
    if Exponent16(x.a) == 0 || Exponent16(x.b) == 0 {
      ZeroFactor(x);
    } else if InRange(x) {
      var s, pe := Accumulate(x), ProductExponent(x);
      ProductIsClose(x);
      SumIsClose(x);
      SumSign(x);
      NormalizeIsClose(s);
      Carries(x, s, Value32(Normalize(s)));
    }
  }

  lemma SumSign(x: Operands)
    ensures Accumulate(x).sign < 2
  {
    hide Exponent16, Exponent32, Low8, Low10, Low23, Low26, Shifted, TopBit, Times;
  }

  lemma ZeroFactor(x: Operands)
    requires Exponent16(x.a) == 0 || Exponent16(x.b) == 0
    ensures Scale(Value32(Evaluate(x)), 118) == Exact(x)
  {
    hide Scale, Normalize, Accumulate;
    ScaleZero(118);
    SameFields(x.acc);
    assert Value16(x.a) * Value16(x.b) == 0;
  }

  lemma SameFields(acc: nat)
    ensures Value32(acc % 0x1_0000_0000) == Value32(acc)
  {
    hide Scale;
    SplitResidue(acc, 0x80_0000, 512);
    NestedDivide(acc, 0x80_0000, 256);
    SplitResidue(acc / 0x80_0000, 256, 2);
    SplitResidue(acc % 0x1_0000_0000, 0x80_0000, 512);
    NestedDivide(acc % 0x1_0000_0000, 0x80_0000, 256);
  }

  lemma Carries(x: Operands, s: Sum, r: int)
    requires ProductExponent(x) >= 0 && ProductExponent(x) <= s.exponent
    requires var kept := Signum(ProductSign(x), Scale(ProductMantissa(x), ProductExponent(x)));
             && Within(Scale(kept, 118), Value16(x.a) * Value16(x.b), Scale(256, ProductExponent(x) + 118) + 1)
             && Within(Signum(s.sign, Scale(s.magnitude, s.exponent)), kept + Value32(x.acc), Scale(1, s.exponent))
    requires Within(r, Signum(s.sign, Scale(s.magnitude, s.exponent)), Scale(4, s.exponent))
    ensures Within(Scale(r, 118), Exact(x), Scale(262, s.exponent + 118))
  {
    hide Scale, Pow2, Value16, Value32, ProductExponent, ProductMantissa, ProductSign;
    var kept := Signum(ProductSign(x), Scale(ProductMantissa(x), ProductExponent(x)));
    var sum, e, pe := Signum(s.sign, Scale(s.magnitude, s.exponent)), s.exponent, ProductExponent(x);
    WithinScaled(sum, kept + Value32(x.acc), 1, e);
    WithinScaled(r, sum, 4, e);
    ScaleAdds(kept, Value32(x.acc), 118);
    PlaceGrows(256, pe + 118, e + 118);
    ScaleAdds(256, 1, e + 118);
    ScaleAdds(257, 4, e + 118);
    ScaleAdds(261, 1, e + 118);
    ScaleOne(e + 118);
  }

  lemma WithinScaled(a: int, b: int, k: int, e: nat)
    requires Within(a, b, Scale(k, e))
    ensures Within(Scale(a, 118), Scale(b, 118), Scale(k, e + 118))
  {
    hide Scale;
    ScaleScale(k, e, 118);
    ScaleAdds(a, b, 118);
    ScaleOrder(a - b, Scale(k, e), 118);
    ScaleOrder(0 - Scale(k, e), a - b, 118);
    ScaleAdds(0, Scale(k, e), 118);
    ScaleZero(118);
  }

  lemma PlaceGrows(x: nat, m: nat, n: nat)
    requires m <= n
    ensures Scale(x, m) <= Scale(x, n)
  {
    Pow2Grows(m, n);
    ProductOrder(Pow2(m), Pow2(n), x);
  }

  /** Past that range the exponent wraps: 2^127 * 2^127 + 0 gives 0.25. */
  lemma ExponentWrapsAround()
    ensures var x := Operands(0x7F00, 0x7F00, 0);
            !InRange(x) && Evaluate(x) == 0x3E80_0000 && Value16(0x7F00) == Scale(128, 254)
  {
    hide Scale, Accumulate, Normalize, Exponent16;
    WrappedFields();
    WrappedSum();
    WrappedWord();
  }

  lemma WrappedWord()
    ensures Normalize(Sum(0, 125, 0x80_0000)) == 0x3E80_0000
    ensures 0x7F00 / 0x80 % 256 == 254 && 0x7F00 / 0x8000 % 2 == 0 && 0x7F00 % 128 == 0
  {
    hide Scale, Pow2, Shifted, Leading;
    StagePowers();
    LeadingUnique(0x80_0000, 23);
    ScaleByZero(0x80_0000);
  }

  lemma WrappedSum()
    ensures Accumulate(Operands(0x7F00, 0x7F00, 0)) == Sum(0, 125, 0x80_0000)
  {
    hide Pow2, Shifted, Times, TopBit, Exponent16, Exponent32, Sign16, Sign32, Low8, Low10, Low26;
    WrappedFields();
    StagePowers();
    ShiftedAway(0, 26);
  }

  lemma WrappedFields()
    ensures Exponent16(0x7F00) == 254 && Sign16(0x7F00) == 0 && Exponent32(0) == 0 && Sign32(0) == 0
    ensures Times(128, 128) == 0x4000 && !TopBit(0x4000)
    ensures Low10(254 + 254 + 1024 - 127) == 381 && Low10(381) == 381 && Low8(381) == 125
    ensures Low26(0x80_0000) == 0x80_0000
  {
  }
}
