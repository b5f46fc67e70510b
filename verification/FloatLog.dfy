/** The fixed-point logarithm (examples/functional_float/fp32_log_step.py, fp32_log.py):
    natural numbers in units of 2^-80, compared with exact real series. */
module FloatLog {
  import opened Bits
  import opened Scaling
  import opened FloatValue
  import opened FloatFormats
  import opened FloatFused
  import opened FloatConvert

  // ---------------------------------------------------------------- the product

  /** The product of two 128-bit words shifted right by 80, from four 64-bit partial products. */
  function MultiplyShift80(lhs: nat, rhs: nat): nat {
    var al, ah, bl, bh := Dropped(lhs, 64), Shifted(lhs, 64), Dropped(rhs, 64), Shifted(rhs, 64);
    var low, crossA, crossB := Times(al, bl), Times(ah, bl), Times(al, bh);
    var middle := Shifted(low, 64) + Dropped(crossA, 64) + Dropped(crossB, 64);
    var high := Dropped(Times(ah, bh) + Shifted(crossA, 64) + Shifted(crossB, 64) + Shifted(middle, 64), 128);
    LowBits(high, 48, 128) + Shifted(Dropped(middle, 64), 16)
  }

  lemma Expanded(ah: nat, al: nat, bh: nat, bl: nat, n: nat)
    ensures (Scale(ah, n) + al) * (Scale(bh, n) + bl)
         == Scale(Scale(ah * bh, n) + ah * bl + al * bh, n) + al * bl
  {
    hide Scale;
    ScaleTimes(ah, bh, n);
    ScaleTimes(Scale(ah, n), bh, n);
    ScaleTimes(ah, bl, n);
    ScaleTimes(al, bh, n);
    ScaleAdds(Scale(ah * bh, n) + ah * bl, al * bh, n);
    ScaleAdds(Scale(ah * bh, n), ah * bl, n);
    Distributes(Scale(ah, n), al, Scale(bh, n), bl);
  }

  lemma Distributes(a: int, b: int, c: int, d: int)
    ensures (a + b) * (c + d) == a * c + a * d + b * c + b * d
  {
  }

  /** Carrying the partial products into place. */
  lemma Carried(hh: nat, crossA: nat, crossB: nat, low: nat, n: nat)
    ensures var middle := Shifted(low, n) + Dropped(crossA, n) + Dropped(crossB, n);
            var high := hh + Shifted(crossA, n) + Shifted(crossB, n) + Shifted(middle, n);
            Scale(Scale(hh, n) + crossA + crossB, n) + low
            == Scale(high, n + n) + Scale(Dropped(middle, n), n) + Dropped(low, n)
  {
    hide Scale, Shifted, Dropped, Pow2;
    var middle := Shifted(low, n) + Dropped(crossA, n) + Dropped(crossB, n);
    var high := hh + Shifted(crossA, n) + Shifted(crossB, n) + Shifted(middle, n);
    SplitAt(low, n);
    SplitAt(crossA, n);
    SplitAt(crossB, n);
    SplitAt(middle, n);
    ScaleAdds(hh, Shifted(crossA, n), n);
    ScaleAdds(hh + Shifted(crossA, n), Shifted(crossB, n), n);
    ScaleAdds(hh + Shifted(crossA, n) + Shifted(crossB, n), Shifted(middle, n), n);
    ScaleAdds(Scale(high, n), Dropped(middle, n), n);
    ScaleScale(high, n, n);
    var upper := Scale(hh, n) + crossA + crossB;
    assert upper == Scale(high, n) + Dropped(middle, n) - Shifted(low, n);
    ScaleAdds(upper, Shifted(low, n), n);
  }

  /** Exactly floor(x * y / 2^80), for operands of at most 80 bits. */
  lemma MultiplyShiftIs(x: nat, y: nat)
    requires x < Pow2(80) && y < Pow2(80)
    ensures MultiplyShift80(x, y) == Shifted(Times(x, y), 80) < Pow2(80)
  {
    hide Scale, Shifted, Dropped, Pow2, LowBits;
    var al, ah, bl, bh := Dropped(x, 64), Shifted(x, 64), Dropped(y, 64), Shifted(y, 64);
    var low, crossA, crossB := Times(al, bl), Times(ah, bl), Times(al, bh);
    var middle := Shifted(low, 64) + Dropped(crossA, 64) + Dropped(crossB, 64);
    var sum := Times(ah, bh) + Shifted(crossA, 64) + Shifted(crossB, 64) + Shifted(middle, 64);
    SplitAt(x, 64);
    SplitAt(y, 64);
    Expanded(ah, al, bh, bl, 64);
    Carried(Times(ah, bh), crossA, crossB, low, 64);
    SplitAt(middle, 64);
    SplitAt(low, 64);
    ProductBound(x, y, 80);
    Assembled(Times(x, y), sum, Dropped(middle, 64), Dropped(low, 64));
  }

  lemma Assembled(product: nat, high: nat, middle: nat, low: nat)
    requires middle < Pow2(64) && low < Pow2(64) && product < Pow2(160)
    requires product == Scale(high, 128) + Scale(middle, 64) + low
    ensures LowBits(Dropped(high, 128), 48, 128) + Shifted(middle, 16) == Shifted(product, 80) < Pow2(80)
  {
    hide Scale, Shifted, Dropped, Pow2, LowBits;
    SplitAt(middle, 16);
    var top, rest := Shifted(middle, 16), Dropped(middle, 16);
    ScaleAdds(Scale(top, 16), rest, 64);
    ScaleScale(top, 16, 64);
    ScaleScale(high, 48, 80);
    ScaleAdds(Scale(high, 48), top, 80);
    ScaleOrder(rest + 1, Pow2(16), 64);
    ScaleAdds(rest, 1, 64);
    ScaleOne(64);
    ScalePow2(16, 64);
    ScaleZero(64);
    ScaleOrder(0, rest, 64);
    ScaleZero(48);
    ScaleOrder(0, high, 48);
    SplitUnique(product, 80, Scale(high, 48) + top, Scale(rest, 64) + low);
    ShiftedBelow(product, 80, 80);
    ScalePow2(32, 48);
    ScaleOrder(Pow2(32), high, 48);
    Pow2Grows(32, 128);
    ShiftedAway(high, 128);
    Pow2Grows(80, 128);
    FitsWord(high, 48, 128);
  }

  // ----------------------------------------------------------------- the series

  datatype LogState = LogState(term: nat, total: nat, denominator: nat)

  function LogStep(s: LogState, square: nat): LogState
    requires s.denominator > 0
  {
    var term := MultiplyShift80(s.term, square);
    LogState(term, s.total + Quotient(term, s.denominator), s.denominator + 2)
  }

  function LogSteps(z: nat, square: nat, steps: nat): (s: LogState)
    ensures s.denominator == 2 * steps + 3
  {
    if steps == 0 then LogState(z, z, 3) else LogStep(LogSteps(z, square, steps - 1), square)
  }

  method ComputeSeries(z: nat) returns (total: nat)
    ensures total == LogSteps(z, MultiplyShift80(z, z), 24).total
  {
    hide LogStep, MultiplyShift80;
    var square := MultiplyShift80(z, z);
    var state := LogState(z, z, 3);
    for iteration := 0 to 24
      invariant state == LogSteps(z, square, iteration)
    {
      state := LogStep(state, square);
    }
    total := state.total;
  }

  // --------------------------------------------------------- real multiplication

  /** Products of reals, as laws the solver can use without nonlinear arithmetic. */
  ghost function Prod(a: real, b: real): real { a * b }

  ghost function Over(a: real, d: nat): real
    requires d > 0
  {
    a / d as real
  }

  lemma OverIs(a: real, d: nat)
    requires d > 0
    ensures Prod(Over(a, d), d as real) == a
  {
  }

  lemma ProdOrder(a: real, b: real, c: real)
    requires a <= b && c >= 0.0
    ensures Prod(c, a) <= Prod(c, b)
  {
  }

  lemma ProdStrict(a: real, b: real, c: real)
    requires a < b && c > 0.0
    ensures Prod(a, c) < Prod(b, c)
  {
  }

  lemma ProdScaled(a: real, b: real, k: real)
    ensures Prod(a, k * b) == k * Prod(a, b)
  {
  }

  lemma ProdAdds(a: real, b: real, c: real)
    ensures Prod(a, b + c) == Prod(a, b) + Prod(a, c)
    ensures Prod(a, b - c) == Prod(a, b) - Prod(a, c)
    ensures Prod(b + c, a) == Prod(b, a) + Prod(c, a)
    ensures Prod(b - c, a) == Prod(b, a) - Prod(c, a)
  {
  }

  lemma ProdBy(a: real, k: real)
    ensures Prod(a, k) == k * a == Prod(k, a)
  {
  }

  lemma ProdSwaps(a: real, b: real)
    ensures Prod(a, b) == Prod(b, a)
  {
  }

  lemma ProdAssociates(a: real, b: real, c: real)
    ensures Prod(Prod(a, b), c) == Prod(a, Prod(b, c))
  {
  }

  lemma {:induction false} ProdOfNaturals(a: nat, b: nat)
    ensures (a * b) as real == Prod(a as real, b as real)
  {
    if a > 0 {
      ProdOfNaturals(a - 1, b);
      assert a * b == (a - 1) * b + b;
      assert a as real == (a - 1) as real + 1.0;
    }
  }

  // --------------------------------------------------------------- the exact series

  /** x^(2k + 1), and the first k + 1 terms of x + x^3/3 + x^5/5 + ..., the series of atanh x. */
  ghost function OddPower(x: real, k: nat): real {
    if k == 0 then x else Prod(OddPower(x, k - 1), Prod(x, x))
  }

  ghost function Atanh(x: real, k: nat): real {
    Over(OddPower(x, k), 2 * k + 1) + if k == 0 then 0.0 else Atanh(x, k - 1)
  }

  /** The arguments a reduced significand gives: 0 to 1/3. */
  predicate Reduced(x: real) { 0.0 <= x && 3.0 * x <= 1.0 }

  lemma SquareAtMost(x: real)
    requires Reduced(x)
    ensures 0.0 <= Prod(x, x) && 9.0 * Prod(x, x) <= 1.0
  {
    hide Prod;
    ProdOrder(3.0 * x, 1.0, x);
    ProdOrder(0.0, x, x);
    ProdScaled(x, x, 3.0);
    ProdBy(x, 1.0);
    ProdBy(x, 0.0);
  }

  lemma {:induction false} OddPowerRange(x: real, k: nat)
    requires Reduced(x)
    ensures Reduced(OddPower(x, k))
    ensures k > 0 ==> 9.0 * OddPower(x, k) <= OddPower(x, k - 1)
  {
    hide Prod;
    if k > 0 {
      OddPowerRange(x, k - 1);
      SquareAtMost(x);
      var p := OddPower(x, k - 1);
      ProdOrder(9.0 * Prod(x, x), 1.0, p);
      ProdOrder(0.0, Prod(x, x), p);
      ProdScaled(p, Prod(x, x), 9.0);
      ProdBy(p, 1.0);
      ProdBy(p, 0.0);
    }
  }

  // ----------------------------------------------------------------- flooring errors

  /** The floor of t / u, as an inequality of reals. */
  lemma FloorOf(t: nat, u: nat)
    requires u > 0
    ensures var q := Quotient(t, u) as real;
            Prod(q, u as real) <= t as real < Prod(q, u as real) + u as real
  {
    hide Prod;
    var q, r := Quotient(t, u), t % u;
    assert t == q * u + r;
    ProdOfNaturals(q, u);
    assert t as real == (q * u) as real + r as real;
  }

  /** One floored product of a term, at most 7/4 short of a, and the square, at most 5/3 short
      of b, is again at most 7/4 short of what it stands for. */
  lemma ProductError(t: real, s: real, a: real, b: real, c: real, u: real, q: real)
    requires u > 0.0 && s >= 0.0 && 0.0 <= a && 3.0 * a <= u && 9.0 * b <= u
    requires a - 1.75 <= t <= a && 3.0 * (b - s) <= 5.0 && s <= b && Prod(c, u) == Prod(a, b)
    requires Prod(q, u) <= Prod(t, s) < Prod(q, u) + u
    ensures c - 1.75 <= q <= c
  {
    hide Prod;
    var gap := b - s;
    ProdOrder(s, b, a);
    assert 3.0 * (Prod(a, b) - Prod(a, s)) <= 5.0 * a by {
      ProdOrder(3.0 * gap, 5.0, a);
      ProdScaled(a, gap, 3.0);
      ProdBy(a, 5.0);
      ProdAdds(a, b, s);
    }
    ProdOrder(t, a, s);
    ProdSwaps(s, t);
    ProdSwaps(s, a);
    assert Prod(s, a) - Prod(s, t) <= 1.75 * s by {
      ProdOrder(a - t, 1.75, s);
      ProdBy(s, 1.75);
      ProdAdds(s, a, t);
    }
    assert Prod(t, s) <= Prod(a, b) <= Prod(t, s) + 0.75 * u;
    if q > c { ProdStrict(c, q, u); }
    if c - 1.75 > q {
      ProdStrict(q + 1.75, c, u);
      ProdAdds(u, q, 1.75);
      ProdBy(u, 1.75);
    }
  }

  /** Dividing such a term by d >= 3 and flooring again costs at most 19/12. */
  lemma QuotientError(p: real, c: real, d: real, e: real, w: real)
    requires d >= 3.0 && c - 1.75 <= p <= c && Prod(e, d) == c && Prod(w, d) <= p < Prod(w, d) + d
    ensures 12.0 * (e - w) <= 19.0 && w <= e
  {
    hide Prod;
    if w > e { ProdStrict(e, w, d); }
    var gap := e - w - 1.0;
    if 12.0 * gap > 7.0 {
      ProdOrder(7.0, 12.0 * gap, d);
      ProdScaled(d, gap, 12.0);
      ProdBy(d, 7.0);
      ProdSwaps(d, gap);
      ProdAdds(d, e - w, 1.0);
      ProdAdds(d, e, w);
      ProdBy(d, 1.0);
    }
  }

  /** The floored square of z, at most 5/3 short. */
  lemma SquareError(z: real, exact: real, b: real, u: real, q: real)
    requires u > 0.0 && 0.0 <= z <= exact <= z + 1.0 && 3.0 * exact <= u && Prod(b, u) == Prod(exact, exact)
    requires Prod(q, u) <= Prod(z, z) < Prod(q, u) + u
    ensures q <= b && 3.0 * (b - q) <= 5.0
  {
    hide Prod;
    ProdAdds(exact + z, exact, z);
    ProdAdds(exact, exact, z);
    ProdAdds(z, exact, z);
    ProdSwaps(exact, z);
    ProdOrder(exact - z, 1.0, exact + z);
    ProdOrder(0.0, exact - z, exact + z);
    ProdBy(exact + z, 1.0);
    ProdBy(exact + z, 0.0);
    assert Prod(z, z) <= Prod(exact, exact) <= Prod(z, z) + exact + z;
    if q > b { ProdStrict(b, q, u); }
    if 3.0 * (b - q) > 5.0 {
      ProdOrder(5.0, 3.0 * (b - q), u);
      ProdScaled(u, b - q, 3.0);
      ProdBy(u, 5.0);
      ProdAdds(u, b, q);
      ProdSwaps(u, b);
      ProdSwaps(u, q);
    }
  }

  // -------------------------------------------------------------------- the machine

  ghost function Units(x: real): real { Prod(Pow2(80) as real, x) }

  /** The term is short by at most 7/4 units, the total by at most 1 + 19/12 for each step. */
  ghost predicate CloseAfter(x: real, k: nat, s: LogState) {
    && s.term < Pow2(80)
    && s.term as real <= Units(OddPower(x, k)) <= s.term as real + 1.75
    && s.total as real <= Units(Atanh(x, k)) && 12.0 * (Units(Atanh(x, k)) - s.total as real) <= 12.0 + 19.0 * k as real
  }

  lemma Regroup(u: real, p: real, y: real)
    ensures Prod(Prod(u, Prod(p, y)), u) == Prod(Prod(u, p), Prod(u, y))
  {
  }

  lemma FlooredProduct(t: nat, s: nat)
    requires t < Pow2(80) && s < Pow2(80)
    ensures var q, u := MultiplyShift80(t, s), Pow2(80) as real;
            Prod(q as real, u) <= Prod(t as real, s as real) < Prod(q as real, u) + u && q < Pow2(80)
  {
    MultiplyShiftIs(t, s);
    hide Prod, Pow2, MultiplyShift80;
    FloorOf(Times(t, s), Pow2(80));
    ProdOfNaturals(t, s);
  }

  lemma UnitsInOrder(x: real, y: real, n: real)
    requires x <= y
    ensures Units(x) <= Units(y) && Units(n * x) == n * Units(x)
  {
    hide Prod, Pow2;
    ProdOrder(x, y, Pow2(80) as real);
    ProdScaled(Pow2(80) as real, x, n);
  }

  lemma UnitsOfRange(x: real)
    requires Reduced(x)
    ensures 0.0 <= Units(x) && 3.0 * Units(x) <= Pow2(80) as real
  {
    hide Prod, Pow2;
    UnitsInOrder(0.0, x, 0.0);
    UnitsInOrder(3.0 * x, 1.0, 1.0);
    UnitsInOrder(x, x, 3.0);
    ProdBy(Pow2(80) as real, 0.0);
    ProdBy(Pow2(80) as real, 1.0);
  }

  lemma UnitsOfSquare(x: real)
    requires Reduced(x)
    ensures 9.0 * Units(Prod(x, x)) <= Pow2(80) as real
  {
    hide Prod, Pow2;
    SquareAtMost(x);
    UnitsInOrder(9.0 * Prod(x, x), 1.0, 1.0);
    UnitsInOrder(Prod(x, x), Prod(x, x), 9.0);
    ProdBy(Pow2(80) as real, 1.0);
  }

  lemma SquareIsClose(x: real, z: nat)
    requires Reduced(x) && z as real <= Units(x) <= z as real + 1.0
    ensures var s := MultiplyShift80(z, z);
            && z < Pow2(80) && s < Pow2(80)
            && s as real <= Units(Prod(x, x)) && 3.0 * (Units(Prod(x, x)) - s as real) <= 5.0
  {
    hide Prod, Pow2, MultiplyShift80;
    UnitsOfRange(x);
    FlooredProduct(z, z);
    Regroup(Pow2(80) as real, x, x);
    SquareError(z as real, Units(x), Units(Prod(x, x)), Pow2(80) as real, MultiplyShift80(z, z) as real);
  }

  lemma StepIsClose(x: real, square: nat, k: nat, s: LogState)
    requires Reduced(x) && CloseAfter(x, k, s) && s.denominator == 2 * k + 3 && square < Pow2(80)
    requires square as real <= Units(Prod(x, x)) && 3.0 * (Units(Prod(x, x)) - square as real) <= 5.0
    ensures CloseAfter(x, k + 1, LogStep(s, square))
  {
    hide Prod, Pow2, MultiplyShift80, Over, Quotient;
    var u, term := Pow2(80) as real, MultiplyShift80(s.term, square);
    var exact, d := Units(OddPower(x, k + 1)), 2 * k + 3;
    OddPowerRange(x, k);
    UnitsOfRange(OddPower(x, k));
    UnitsOfSquare(x);
    FlooredProduct(s.term, square);
    Regroup(u, OddPower(x, k), Prod(x, x));
    ProductError(s.term as real, square as real, Units(OddPower(x, k)), Units(Prod(x, x)), exact, u, term as real);
    FloorOf(term, d);
    var next := Over(OddPower(x, k + 1), d);
    OverIs(OddPower(x, k + 1), d);
    ProdAssociates(u, next, d as real);
    QuotientError(term as real, exact, d as real, Units(next), Quotient(term, d) as real);
    ProdAdds(u, next, Atanh(x, k));
  }

  lemma {:induction false} StepsAreClose(x: real, z: nat, k: nat)
    requires Reduced(x) && z as real <= Units(x) <= z as real + 1.0
    ensures CloseAfter(x, k, LogSteps(z, MultiplyShift80(z, z), k))
  {
    hide Prod, Pow2, MultiplyShift80, LogStep, Units;
    SquareIsClose(x, z);
    if k == 0 {
      AtanhStarts(x);
    } else {
      hide CloseAfter;
      StepsAreClose(x, z, k - 1);
      StepIsClose(x, MultiplyShift80(z, z), k - 1, LogSteps(z, MultiplyShift80(z, z), k - 1));
    }
  }

  lemma AtanhStarts(x: real)
    ensures OddPower(x, 0) == x == Atanh(x, 0)
  {
  }

  // ------------------------------------------------------------- the rest of the series

  lemma OverAtMost(a: real, d: nat, n: nat)
    requires a >= 0.0 && 0 < n <= d
    ensures 0.0 <= Over(a, d) && Prod(Over(a, d), n as real) <= a
  {
    OverIs(a, d);
    if Over(a, d) < 0.0 { ProdStrict(Over(a, d), 0.0, d as real); }
    ProdOrder(n as real, d as real, Over(a, d));
  }

  /** Every further term is at most a ninth of the one before it. */
  lemma {:induction false} Tail(x: real, k: nat)
    requires Reduced(x) && k >= 24
    ensures Atanh(x, 24) <= Atanh(x, k)
    ensures 408.0 * (Atanh(x, k) - Atanh(x, 24)) <= OddPower(x, 24) - OddPower(x, k)
    decreases k
  {
    hide Prod, Over;
    if k > 24 {
      Tail(x, k - 1);
      OddPowerRange(x, k);
      OverAtMost(OddPower(x, k), 2 * k + 1, 51);
      ProdBy(Over(OddPower(x, k), 2 * k + 1), 51.0);
    }
  }

  function Nines(k: nat): (n: nat)
    ensures n > 0
  {
    if k == 0 then 1 else 9 * Nines(k - 1)
  }

  lemma {:induction false} OddPowerSmall(x: real, k: nat)
    requires Reduced(x)
    ensures 3.0 * Prod(Nines(k) as real, OddPower(x, k)) <= 1.0
  {
    hide Prod;
    if k == 0 {
      ProdBy(x, 1.0);
    } else {
      OddPowerSmall(x, k - 1);
      OddPowerRange(x, k);
      var n, p := Nines(k - 1) as real, OddPower(x, k);
      assert Nines(k) as real == 9.0 * n;
      ProdSwaps(9.0 * n, p);
      ProdSwaps(n, p);
      ProdScaled(p, n, 9.0);
      ProdScaled(n, p, 9.0);
      ProdOrder(9.0 * p, OddPower(x, k - 1), n);
    }
  }

  lemma Constants()
    ensures Pow2(80) == 0x1_0000_0000_0000_0000_0000
    ensures Nines(24) == 79766443076872509863361
  {
    hide Nines, Pow2;
    PowersOf80();
    PowersOfNine();
  }

  lemma PowersOf80()
    ensures Pow2(80) == 0x1_0000_0000_0000_0000_0000
  {
    hide Pow2;
    FieldPowers();
    Pow2Adds(5, 5);
    Pow2Adds(10, 10);
    Pow2Adds(20, 20);
    Pow2Adds(40, 40);
  }

  lemma {:induction false} NinesAdd(m: nat, n: nat)
    ensures Nines(m + n) == Nines(m) * Nines(n)
  {
    if m > 0 { NinesAdd(m - 1, n); }
  }

  lemma PowersOfNine()
    ensures Nines(24) == 79766443076872509863361
  {
    assert Nines(3) == 729;
    NinesAdd(3, 3);
    NinesAdd(6, 6);
    NinesAdd(12, 12);
  }

  /** From the 25th term on, nothing that adds up to one unit. */
  lemma TailInUnits(x: real, k: nat)
    requires Reduced(x) && k >= 24
    ensures 0.0 <= Units(Atanh(x, k)) - Units(Atanh(x, 24)) <= 0.02
  {
    hide Prod, Atanh, OddPower, Nines, Pow2;
    Tail(x, k);
    OddPowerRange(x, k);
    OddPowerSmall(x, 24);
    Constants();
    var u, gap, p := Pow2(80) as real, Atanh(x, k) - Atanh(x, 24), OddPower(x, 24);
    ProdAdds(u, Atanh(x, k), Atanh(x, 24));
    ProdBy(gap, u);
    ProdBy(p, Nines(24) as real);
  }

  /** Twenty-four floored steps against the series carried as far as one likes: never above it
      and within 40 units of 2^-80. */
  lemma SeriesIsClose(x: real, z: nat, k: nat)
    requires Reduced(x) && z as real <= Units(x) <= z as real + 1.0 && k >= 24
    ensures var total := LogSteps(z, MultiplyShift80(z, z), 24).total as real;
            && total <= Units(Atanh(x, 24)) <= total + 39.0
            && total <= Units(Atanh(x, k)) < total + 40.0
  {
    hide Prod, Atanh, OddPower, Pow2, MultiplyShift80, LogSteps, Units;
    StepsAreClose(x, z, 24);
    TailInUnits(x, k);
  }

  // ------------------------------------------------------------------- ln 2

  const LN_TWO: nat := 837963523372001241319907

  /** One more term of the series at 1/3, as linear equations. */
  lemma NextThird(k: nat, d: real)
    requires k > 0 && d == (2 * k + 1) as real
    ensures 9.0 * OddPower(1.0 / 3.0, k) == OddPower(1.0 / 3.0, k - 1)
    ensures d * (Atanh(1.0 / 3.0, k) - Atanh(1.0 / 3.0, k - 1)) == OddPower(1.0 / 3.0, k)
  {
    var t := 1.0 / 3.0;
    assert Prod(t, t) == 1.0 / 9.0;
    OverIs(OddPower(t, k), 2 * k + 1);
  }

  lemma AtanhOfThird()
    ensures LN_TWO as real < 2.0 * Units(Atanh(1.0 / 3.0, 24)) < LN_TWO as real + 0.9
  {
    hide OddPower, Atanh, Pow2, Prod;
    AtanhStarts(1.0 / 3.0);
    NextThird(1, 3.0); NextThird(2, 5.0); NextThird(3, 7.0); NextThird(4, 9.0);
    NextThird(5, 11.0); NextThird(6, 13.0); NextThird(7, 15.0); NextThird(8, 17.0);
    NextThird(9, 19.0); NextThird(10, 21.0); NextThird(11, 23.0); NextThird(12, 25.0);
    NextThird(13, 27.0); NextThird(14, 29.0); NextThird(15, 31.0); NextThird(16, 33.0);
    NextThird(17, 35.0); NextThird(18, 37.0); NextThird(19, 39.0); NextThird(20, 41.0);
    NextThird(21, 43.0); NextThird(22, 45.0); NextThird(23, 47.0); NextThird(24, 49.0);
    PowersOf80();
    ProdBy(Atanh(1.0 / 3.0, 24), Pow2(80) as real);
  }

  /** The constant is ln 2 = 2 atanh(1/3), rounded down to a unit. */
  lemma LnTwoIsClose(k: nat)
    requires k >= 24
    ensures LN_TWO as real < 2.0 * Units(Atanh(1.0 / 3.0, k)) < LN_TWO as real + 1.0
  {
    hide Prod, Atanh, OddPower, Pow2, Units;
    AtanhOfThird();
    TailInUnits(1.0 / 3.0, k);
  }

  // --------------------------------------------------------------- the whole kernel

  /** 128-bit subtraction. */
  function Minus128(a: nat, b: nat): nat { (a - b) % Pow2(128) }

  /** How far the significand is shifted to put its leading one at bit 23. */
  function LogShift(parts: FloatParts): int {
    if parts.zero then 0 else 23 - LeadingOrZero(parts.significand)
  }

  function LogSignificand(parts: FloatParts): nat {
    if LogShift(parts) < 0 then 0 else Field(parts.significand, LogShift(parts))
  }

  function LogArgument(m: nat): nat {
    Quotient(LowBits(Minus128(m, 0x80_0000), 80, 128), m + 0x80_0000)
  }

  /** ln of the significand and the exponent's share, combined by sign. */
  function LogWord(parts: FloatParts, total: nat, value: nat, requestValid: bool): FloatWord {
    var ln := LowBits(total, 1, 128);
    var bias := U13(parts.lsbBias + 23 - LogShift(parts));
    var below := bias < 4096;
    var share := Times(if below then 4096 - bias else bias - 4096, LN_TWO);
    var negative := below && share > ln;
    var magnitude := Dropped(if !below then ln + share else if negative then share - ln else ln - share, 128);
    var rounded := PackFloat(if negative then 1 else 0, magnitude, 4016, BINARY32);
    var invalid := parts.snan || (parts.sign == 1 && !parts.zero && !parts.nan);
    var finite := !(parts.nan || invalid || parts.inf || parts.zero);
    FloatWord(
      if parts.nan || invalid then QuietNan(BINARY32)
      else if parts.zero then Signed(BINARY32, 1, 0x7F80_0000)
      else if parts.inf then 0x7F80_0000
      else rounded.result,
      requestValid && !invalid, invalid, rounded.overflow && finite, rounded.underflow && finite,
      finite && value != 0x3F80_0000, finite && rounded.zero, parts.zero)
  }

  function LogBits(value: nat, requestValid: bool): FloatWord {
    var parts := UnpackFloat(value, BINARY32);
    var z := LogArgument(LogSignificand(parts));
    LogWord(parts, LogSteps(z, MultiplyShift80(z, z), 24).total, value, requestValid)
  }

  method ComputeLogBits(value: nat, requestValid: bool) returns (r: FloatWord)
    ensures r == LogBits(value, requestValid)
  {
    hide LogWord, LogArgument, LogSignificand, UnpackFloat, MultiplyShift80, LogSteps;
    var parts := UnpackFloat(value, BINARY32);
    var total := ComputeSeries(LogArgument(LogSignificand(parts)));
    r := LogWord(parts, total, value, requestValid);
  }

  /** (m - 2^23) / (m + 2^23), the argument of atanh whose double is ln(m / 2^23). */
  ghost function LogRatio(m: nat): real { Over((m - 0x80_0000) as real, m + 0x80_0000) }

  lemma RatioReduced(m: nat)
    requires 0x80_0000 <= m < 0x100_0000
    ensures Reduced(LogRatio(m))
  {
    hide Prod, Over;
    var d := m + 0x80_0000;
    OverIs((m - 0x80_0000) as real, d);
    var x := LogRatio(m);
    if x < 0.0 { ProdStrict(x, 0.0, d as real); ProdBy(d as real, 0.0); }
    if 3.0 * x > 1.0 {
      ProdStrict(1.0, 3.0 * x, d as real);
      ProdSwaps(3.0 * x, d as real);
      ProdScaled(d as real, x, 3.0);
      ProdSwaps(x, d as real);
      ProdBy(d as real, 1.0);
    }
  }

  lemma ArgumentIs(m: nat)
    requires 0x80_0000 <= m < 0x100_0000
    ensures LogArgument(m) as real <= Units(LogRatio(m)) <= LogArgument(m) as real + 1.0
  {
    hide Prod, Over, Pow2, Quotient, LowBits;
    var a, d := m - 0x80_0000, m + 0x80_0000;
    SmallMinus(m);
    assert LowBits(a, 80, 128) == Scale(a, 80) by { PowerOf23(); Pow2Next(23); SmallLeftShift(a); }
    hide LogArgument, Scale;
    var n := Field(a, 80);
    assert LogArgument(m) == Quotient(n, d) by { ArgumentUnfolds(m); }
    FloorOf(n, d);
    ScaleIsProduct(a);
    ProdOfNaturals(a, Pow2(80));
    var q, u, w := Quotient(n, d) as real, Pow2(80) as real, Units(LogRatio(m));
    OverIs(a as real, d);
    ProdAssociates(u, LogRatio(m), d as real);
    ProdSwaps(u, a as real);
    if q > w { ProdStrict(w, q, d as real); }
    if w > q + 1.0 {
      ProdStrict(q + 1.0, w, d as real);
      ProdAdds(d as real, q, 1.0);
      ProdBy(d as real, 1.0);
    }
  }

  lemma PowerOf23()
    ensures Pow2(23) == 0x80_0000
  {
    hide Pow2;
    FieldPowers();
    Pow2Adds(11, 11);
    Pow2Next(22);
  }

  lemma SmallMinus(m: nat)
    requires 0x80_0000 <= m < 0x100_0000
    ensures Minus128(m, 0x80_0000) == m - 0x80_0000
  {
    PowerOf23();
    hide Pow2;
    Pow2Grows(23, 128);
  }

  lemma SmallLeftShift(a: nat)
    requires a < Pow2(24)
    ensures LowBits(a, 80, 128) == Scale(a, 80)
  {
    hide Pow2, Scale, LowBits;
    ScaleOrder(a, Pow2(24), 80);
    ScalePow2(24, 80);
    Pow2Grows(104, 128);
    FitsWord(a, 80, 128);
  }

  lemma ArgumentUnfolds(m: nat)
    ensures LogArgument(m) == Quotient(LowBits(Minus128(m, 0x80_0000), 80, 128), m + 0x80_0000)
  {
  }

  lemma ScaleIsProduct(a: nat)
    ensures Scale(a, 80) == a * Pow2(80)
  {
  }

  lemma {:induction false} TotalBelow(x: real, z: nat, k: nat)
    requires Reduced(x) && z as real <= Units(x) <= z as real + 1.0
    ensures LogSteps(z, MultiplyShift80(z, z), k).total <= (k + 1) * Pow2(80)
  {
    hide Prod, Pow2, MultiplyShift80, Units, Atanh, OddPower, Quotient;
    StepsAreClose(x, z, k);
    if k > 0 {
      TotalBelow(x, z, k - 1);
      hide CloseAfter;
      StepGrows(LogSteps(z, MultiplyShift80(z, z), k - 1), MultiplyShift80(z, z));
      OneMore(k, Pow2(80));
    }
  }

  lemma StepGrows(s: LogState, square: nat)
    requires s.denominator > 0
    ensures LogStep(s, square).total <= s.total + LogStep(s, square).term
  {
    hide MultiplyShift80, Quotient;
  }

  lemma OneMore(k: nat, p: nat)
    ensures (k + 1) * p == k * p + p
  {
  }

  /** Nothing the sum of the two shares of a logarithm needs is lost to 128 bits. */
  lemma LogWordIs(parts: FloatParts, total: nat, value: nat, requestValid: bool) returns (l: int, n: nat)
    requires total <= 25 * Pow2(80) && 3900 <= parts.lsbBias + 23 - LogShift(parts) < 4300
    requires !(parts.nan || parts.snan || parts.inf || parts.zero || parts.sign == 1)
    ensures l == 2 * total + (parts.lsbBias + 23 - LogShift(parts) - 4096) * LN_TWO
    ensures Scale(Magn(l), 4016) >= 0 && Nearest(BINARY32, Whole(Scale(Magn(l), 4016)), n)
    ensures var r := LogWord(parts, total, value, requestValid);
            && r.result == Signed(BINARY32, if l < 0 then 1 else 0, AtMost(n, InfinityWord(BINARY32)))
            && r.valid == requestValid && !r.invalid && !r.divideByZero && r.inexact == (value != 0x3F80_0000)
            && !r.overflow && !r.underflow && r.zero == (l == 0)
  {
    hide Pow2, Nearest, Scale, InfinityWord, PackFloat, LowBits, Dropped, Value, LogShift, QuietNan, U13;
    var bias := parts.lsbBias + 23 - LogShift(parts);
    SumBound(total, bias - 4096);
    Pow2Grows(88, 128);
    Small13(bias);
    l := 2 * total + (bias - 4096) * LN_TWO;
    n := PackRounds(if l < 0 then 1 else 0, Magn(l), 4016, BINARY32);
    LogWordRange(Magn(l), n);
  }

  lemma SumBound(total: nat, e: int)
    requires total <= 25 * Pow2(80) && -196 <= e < 204
    ensures LowBits(total, 1, 128) == 2 * total
    ensures var l := 2 * total + e * LN_TWO; Magn(l) < Pow2(88) && Dropped(Magn(l), 128) == Magn(l)
  {
    hide Pow2, Scale, LowBits, Dropped;
    PowersOf80();
    Pow2Adds(80, 8);
    FieldPowers();
    Pow2Grows(88, 128);
    ScaleByZero(total);
    ScaleNext(total, 0);
    FitsWord(total, 1, 128);
    ShiftedAway(Magn(2 * total + e * LN_TWO), 128);
  }

  /** The word of 2^(e - 149 + 23). */
  lemma PowerWord(e: nat)
    ensures Value(BINARY32, (e + 1) * 0x80_0000) == Scale(0x80_0000, 3947 + e) == Pow2(3970 + e)
  {
    hide Pow2, Scale, Value;
    PowerOf23();
    Pow2Next(23);
    ScaleIs(e, 23);
    ValueOfQuanta(BINARY32, e, 0x80_0000);
    ScalePow2(23, 3947 + e);
  }

  /** At least 2^-80 and below 2^8: neither tiny nor out of range. */
  lemma LogWordRange(magnitude: nat, n: nat)
    requires magnitude < Pow2(88) && Scale(magnitude, 4016) >= 0 && Nearest(BINARY32, Whole(Scale(magnitude, 4016)), n)
    ensures n < InfinityWord(BINARY32)
    ensures if magnitude == 0 then n == 0 && Value(BINARY32, n) == Scale(magnitude, 4016) else n >= Pow2(23)
  {
    hide Pow2, Scale, Value, Nearest;
    var f := BINARY32;
    PowerOf23();
    PowerWord(134);
    NearestOfItself(f, 135 * 0x80_0000);
    ScaleOrder(magnitude, Pow2(88), 4016);
    ScalePow2(88, 4016);
    NearestMonotone(f, Scale(magnitude, 4016), Pow2(4104), n, 135 * 0x80_0000);
    if magnitude == 0 {
      ScaleZero(4016);
      ValueZero(f);
      NearestZero(f);
      NearestUnique(f, Whole(0), n, 0);
    } else {
      PowerWord(46);
      NearestOfItself(f, 47 * 0x80_0000);
      ScaleOrder(1, magnitude, 4016);
      ScaleOne(4016);
      NearestMonotone(f, Pow2(4016), Scale(magnitude, 4016), 47 * 0x80_0000, n);
    }
  }

  /** l units approximate ln(m / 2^23) + e ln 2, by series carried to k terms. */
  ghost predicate Logarithm(l: int, m: nat, e: int, k: nat) {
    var exact := 2.0 * Units(Atanh(LogRatio(m), k)) + e as real * (2.0 * Units(Atanh(1.0 / 3.0, k)));
    -80.0 - Magn(e) as real < l as real - exact < 80.0 + Magn(e) as real
  }

  lemma SharesAreClose(m: nat, e: int, k: nat)
    requires 0x80_0000 <= m < 0x100_0000 && k >= 24
    ensures var z := LogArgument(m);
            Logarithm(2 * LogSteps(z, MultiplyShift80(z, z), 24).total + e * LN_TWO, m, e, k)
  {
    hide Prod, Pow2, MultiplyShift80, LogSteps, Units, Atanh, LogArgument, LogRatio;
    RatioReduced(m);
    ArgumentIs(m);
    SeriesIsClose(LogRatio(m), LogArgument(m), k);
    LnTwoIsClose(k);
    ShareError(e, 2.0 * Units(Atanh(1.0 / 3.0, k)));
  }

  lemma ShareError(e: int, two: real)
    requires LN_TWO as real < two < LN_TWO as real + 1.0
    ensures -(Magn(e) as real) <= (e * LN_TWO) as real - e as real * two <= Magn(e) as real
  {
    var gap := two - LN_TWO as real;
    assert (e * LN_TWO) as real == e as real * LN_TWO as real;
    assert e as real * two == e as real * LN_TWO as real + e as real * gap;
    if e >= 0 { RealBetween(e as real, gap); } else { RealBetween(-e as real, gap); }
  }

  lemma RealBetween(a: real, gap: real)
    requires a >= 0.0 && 0.0 < gap < 1.0
    ensures 0.0 <= a * gap <= a && -a * gap == -(a * gap)
  {
  }

  // ------------------------------------------------------------- the sign of the logarithm

  lemma {:induction false} OddPowerInOrder(x: real, y: real, k: nat)
    requires Reduced(x) && Reduced(y) && x <= y
    ensures OddPower(x, k) <= OddPower(y, k)
  {
    hide Prod;
    if k > 0 {
      OddPowerInOrder(x, y, k - 1);
      OddPowerRange(x, k - 1);
      OddPowerRange(y, k - 1);
      SquareAtMost(y);
      var p, q := OddPower(x, k - 1), OddPower(y, k - 1);
      ProdOrder(x, y, x);
      ProdOrder(x, y, y);
      ProdSwaps(x, y);
      ProdOrder(Prod(x, x), Prod(y, y), p);
      ProdOrder(p, q, Prod(y, y));
      ProdSwaps(p, Prod(y, y));
      ProdSwaps(q, Prod(y, y));
    }
  }

  /** The series grows at least as fast as its argument. */
  lemma {:induction false} AtanhGrows(x: real, y: real, k: nat)
    requires Reduced(x) && Reduced(y) && x <= y
    ensures Atanh(y, k) - Atanh(x, k) >= y - x
  {
    hide Prod, Over, OddPower;
    if k == 0 {
      AtanhStarts(x);
      AtanhStarts(y);
    } else {
      AtanhGrows(x, y, k - 1);
      OddPowerInOrder(x, y, k);
      OverInOrder(OddPower(x, k), OddPower(y, k), 2 * k + 1);
    }
  }

  lemma OverInOrder(a: real, b: real, d: nat)
    requires a <= b && d > 0
    ensures Over(a, d) <= Over(b, d)
  {
    OverIs(a, d);
    OverIs(b, d);
    hide Over, Prod;
    if Over(a, d) > Over(b, d) { ProdStrict(Over(b, d), Over(a, d), d as real); }
  }

  /** No significand reaches 2: the argument of the series stays below 1/3, by 2^-24 of it. */
  lemma RatioBelowThird(m: nat)
    requires 0x80_0000 <= m < 0x100_0000
    ensures 0x100_0000 as real * (1.0 - 3.0 * LogRatio(m)) >= 1.0
  {
    hide Prod, Over;
    var d, x := m + 0x80_0000, LogRatio(m);
    OverIs((m - 0x80_0000) as real, d);
    var w := 1.0 / 0x100_0000 as real;
    if 3.0 * x > 1.0 - w {
      ProdStrict(1.0 - w, 3.0 * x, d as real);
      ProdSwaps(3.0 * x, d as real);
      ProdScaled(d as real, x, 3.0);
      ProdSwaps(x, d as real);
      ProdBy(d as real, 1.0 - w);
    }
  }

  lemma TotalBelowHalf(m: nat, z: nat)
    requires 0x80_0000 <= m < 0x100_0000 && z == LogArgument(m)
    ensures 2 * LogSteps(z, MultiplyShift80(z, z), 24).total < LN_TWO
  {
    hide Prod, Pow2, MultiplyShift80, LogSteps, Atanh, LogArgument, LogRatio;
    var x, u, t := LogRatio(m), Pow2(80) as real, 1.0 / 3.0;
    RatioReduced(m);
    ArgumentIs(m);
    SeriesIsClose(x, z, 24);
    RatioBelowThird(m);
    AtanhGrows(x, t, 24);
    AtanhOfThird();
    PowersOf80();
    ProdBy(Atanh(x, 24), u);
    ProdBy(Atanh(t, 24), u);
  }

  lemma {:induction false} TotalAtLeast(z: nat, square: nat, k: nat)
    ensures LogSteps(z, square, k).total >= z
  {
    hide MultiplyShift80, Quotient;
    if k > 0 { TotalAtLeast(z, square, k - 1); }
  }

  lemma {:induction false} AtanhOfZero(k: nat)
    ensures OddPower(0.0, k) == 0.0 == Atanh(0.0, k)
  {
    if k > 0 { AtanhOfZero(k - 1); }
  }

  lemma TotalZero(m: nat, z: nat)
    requires 0x80_0000 <= m < 0x100_0000 && z == LogArgument(m)
    ensures LogSteps(z, MultiplyShift80(z, z), 24).total == 0 <==> m == 0x80_0000
  {
    hide Prod, Pow2, MultiplyShift80, LogSteps, Atanh, LogArgument, OddPower, Over;
    var x, u, d := LogRatio(m), Pow2(80) as real, m + 0x80_0000;
    RatioReduced(m);
    ArgumentIs(m);
    OverIs((m - 0x80_0000) as real, d);
    PowersOf80();
    ProdBy(x, u);
    if m == 0x80_0000 {
      ProdBy(x, d as real);
      SeriesIsClose(x, z, 24);
      AtanhOfZero(24);
      ProdBy(u, 0.0);
    } else {
      var w := 1.0 / 0x200_0000 as real;
      if x < w { ProdStrict(x, w, d as real); ProdBy(d as real, w); }
      TotalAtLeast(z, MultiplyShift80(z, z), 24);
    }
  }

  /** The fixed-point result has the sign of the exponent, and is zero for the significand and
      exponent of one alone. */
  lemma SumHasSign(m: nat, e: int, z: nat, l: int)
    requires 0x80_0000 <= m < 0x100_0000 && z == LogArgument(m)
    requires l == 2 * LogSteps(z, MultiplyShift80(z, z), 24).total + e * LN_TWO
    ensures l < 0 <==> e < 0
    ensures l == 0 <==> e == 0 && m == 0x80_0000
  {
    hide Pow2, MultiplyShift80, LogSteps, LogArgument;
    TotalBelowHalf(m, z);
    TotalZero(m, z);
    if e < 0 { ExponentShare(e); } else { ExponentShare(0 - e); }
  }

  lemma ExponentShare(e: int)
    requires e <= 0
    ensures e < 0 ==> e * LN_TWO <= 0 - LN_TWO
    ensures (0 - e) * LN_TWO == -(e * LN_TWO) >= 0
  {
  }

  /** Below, at and above one, by significand and exponent. */
  lemma AgainstOne(n: nat, m: nat, e: int)
    requires 0x80_0000 <= m < 0x100_0000 && -4073 <= e && Value(BINARY32, n) == Scale(m, e + 4073)
    ensures n < 0x3F80_0000 <==> e < 0
    ensures n == 0x3F80_0000 <==> e == 0 && m == 0x80_0000
  {
    hide Pow2, Scale, Value;
    var f, one := BINARY32, 0x80_0000;
    PowerOf23();
    Pow2Next(23);
    ScaleIs(126, 23);
    ValueOfQuanta(f, 126, one);
    assert Value(f, 0x3F80_0000) == Scale(one, 4073);
    ValueOrder(f, n, 0x3F80_0000);
    ValueOrder(f, 0x3F80_0000, n);
    if e < 0 {
      ScaleOrder(m, 2 * one, e + 4073);
      ScaleNext(one, e + 4073);
      PlaceOrder(one, e + 4074, 4073);
    } else {
      ScaleOrder(one, m, 4073);
      PlaceOrder(m, 4073, e + 4073);
    }
  }

  lemma PlaceOrder(x: nat, p: nat, q: nat)
    requires x > 0 && p <= q
    ensures Scale(x, p) <= Scale(x, q) && (p < q ==> Scale(x, p) < Scale(x, q))
  {
    hide Pow2, Scale;
    ScaleScale(x, q - p, p);
    ScaleIs(x, q - p);
    if p < q {
      Pow2Next(q - p - 1);
      ProductOrder(2, Pow2(q - p), x);
      ScaleOrder(x, Scale(x, q - p), p);
    } else {
      ScaleByZero(x);
    }
  }

  /** The logarithm of a positive finite word: the exact value is m * 2^(e - 23), the fixed-point
      result l is within 80 + |e| units of 2^-80 of its logarithm, and the word returned is l
      rounded once. */
  lemma LogIsClose(value: nat, requestValid: bool) returns (m: nat, e: int, l: int, n: nat)
    requires Finite(BINARY32, value) && SignOf(BINARY32, value) == 0 && Magnitude(BINARY32, value) > 0
    ensures 0x80_0000 <= m < 0x100_0000 && -149 <= e <= 127
    ensures Value(BINARY32, Magnitude(BINARY32, value)) == Scale(m, e + 4073)
    ensures forall k: nat {:trigger Logarithm(l, m, e, k)} | k >= 24 :: Logarithm(l, m, e, k)
    ensures l < 0 <==> Magnitude(BINARY32, value) < 0x3F80_0000
    ensures l == 0 <==> Magnitude(BINARY32, value) == 0x3F80_0000
    ensures Scale(Magn(l), 4016) >= 0 && Nearest(BINARY32, Whole(Scale(Magn(l), 4016)), n)
    ensures var r := LogBits(value, requestValid);
            && r.result == Signed(BINARY32, if l < 0 then 1 else 0, AtMost(n, InfinityWord(BINARY32)))
            && r.valid == requestValid && !r.invalid && !r.divideByZero && r.inexact == (value != 0x3F80_0000)
            && !r.overflow && !r.underflow && r.zero == (l == 0)
  {
    hide Pow2, Scale, Nearest, InfinityWord, UnpackFloat, LogWord, LogArgument, LogSteps, MultiplyShift80, Magnitude,
      SignOf, Significand, Place, Logarithm, LogRatio, Leading;
    var f, parts := BINARY32, UnpackFloat(value, BINARY32);
    UnpackIs(value, f);
    PlaceOfFinite(value);
    SignificandPositive(f, Magnitude(f, value));
    LeadingBelow(parts.significand, 24);
    var shift := LogShift(parts);
    m, e := LogSignificand(parts), parts.lsbBias + 23 - shift - 4096;
    ShiftedToTop(parts.significand);
    ScaleScale(parts.significand, shift, parts.lsbBias - shift);
    var z := LogArgument(m);
    RatioReduced(m);
    ArgumentIs(m);
    TotalBelow(LogRatio(m), z, 24);
    l, n := LogWordIs(parts, LogSteps(z, MultiplyShift80(z, z), 24).total, value, requestValid);
    forall k: nat {:trigger Logarithm(l, m, e, k)} | k >= 24 ensures Logarithm(l, m, e, k) {
      SharesAreClose(m, e, k);
    }
    SumHasSign(m, e, z, l);
    AgainstOne(Magnitude(f, value), m, e);
  }

  /** The logarithm of one is a positive zero, and is exact. */
  lemma LogOfOne(requestValid: bool)
    ensures var r := LogBits(0x3F80_0000, requestValid);
            r.result == 0 && r.zero && !r.inexact && !r.overflow && !r.underflow && !r.invalid && !r.divideByZero
  {
    hide Pow2, Scale, Nearest, InfinityWord, LogBits, Logarithm, Value, Shifted, Dropped;
    var f := BINARY32;
    PowerOf23();
    Pow2Next(23);
    OneIsFinite();
    InfinityFits(f);
    ScaleZero(31);
    SplitUnique(0x3F80_0000, 31, 0, 0x3F80_0000);
    var m, e, l, n := LogIsClose(0x3F80_0000, requestValid);
    ScaleZero(4016);
    ValueZero(f);
    NearestZero(f);
    NearestUnique(f, Whole(0), n, 0);
    InfinityPositive(f);
  }

  lemma OneIsFinite()
    ensures 0x3F80_0000 < InfinityWord(BINARY32)
  {
    PowerOf23();
  }

  lemma ShiftedToTop(s: nat)
    requires 0 < s < Pow2(24)
    ensures Leading(s) <= 23 && 0x80_0000 <= Scale(s, 23 - Leading(s)) < 0x100_0000
  {
    hide Pow2, Scale, Leading;
    LeadingBelow(s, 24);
    var l := Leading(s);
    ScaleOrder(Pow2(l), s, 23 - l);
    ScaleOrder(s, Pow2(l + 1), 23 - l);
    ScalePow2(l, 23 - l);
    ScalePow2(l + 1, 23 - l);
    PowerOf23();
    Pow2Next(23);
  }

  lemma SignificandPositive(f: Format, n: nat)
    requires n > 0
    ensures Significand(f, n) > 0
  {
    hide Pow2, Scale, Shifted, Dropped;
    SplitAt(n, f.precision);
    ScaleZero(f.precision);
  }

  lemma PlaceOfFinite(value: nat)
    requires Finite(BINARY32, value)
    ensures 3947 <= Place(BINARY32, Magnitude(BINARY32, value)) <= 4200
  {
    hide Pow2, Scale, Shifted, Dropped, Magnitude, InfinityWord;
    var f, n := BINARY32, Magnitude(BINARY32, value);
    SplitAt(n, f.precision);
    InfinityIs(f, Exponent(f, n), Fraction(f, n));
  }
}
