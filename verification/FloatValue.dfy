/** What a floating-point word means, and what it means to be the nearest one.
    Every finite value the kernel handles is a natural number of units of 2^-4096, the scale
    its biased exponents count from; quotients are given by a numerator and a denominator. */
module FloatValue {
  import opened Bits
  import opened Scaling

  /** `maximum` is the exponent field of infinities, `position` the bit of the sign. */
  datatype Format = Format(precision: nat, bias: nat, maximum: nat, position: nat)

  const BINARY32 := Format(23, 127, 255, 31)
  const BINARY64 := Format(52, 1023, 2047, 63)
  const BINARY16 := Format(10, 15, 31, 15)
  const BFLOAT16 := Format(7, 127, 255, 15)

  predicate Supported(f: Format) { f == BINARY32 || f == BINARY64 || f == BINARY16 || f == BFLOAT16 }

  /** The scale of the smallest subnormal: its last place is 2^(Base - 4096). */
  function Base(f: Format): (b: nat)
    requires Supported(f)
  {
    4097 - f.bias - f.precision
  }

  /** The exponent field of a magnitude word, and the rest. */
  function Exponent(f: Format, n: nat): nat { Shifted(n, f.precision) }

  function Fraction(f: Format, n: nat): nat { Dropped(n, f.precision) }

  /** The scale of the last place of a magnitude word. */
  function Place(f: Format, n: nat): nat
    requires Supported(f)
  {
    if Exponent(f, n) == 0 then Base(f) else Base(f) + Exponent(f, n) - 1
  }

  function Significand(f: Format, n: nat): nat {
    if Exponent(f, n) == 0 then Fraction(f, n) else Pow2(f.precision) + Fraction(f, n)
  }

  /** The value of a magnitude word.  From the infinity word on, the value the same encoding
      would have with a larger exponent field. */
  function Value(f: Format, n: nat): int
    requires Supported(f)
  {
    Scale(Significand(f, n), Place(f, n))
  }

  function InfinityWord(f: Format): nat { f.maximum * Pow2(f.precision) }

  // ------------------------------------------------------------- exact values

  /** An exact result, in units of 2^-4096: a quotient num / den or the root of a square. */
  datatype Exact = Ratio(num: nat, den: nat) | Root(square: nat)

  /** A whole number of units. */
  function Whole(v: nat): Exact { Ratio(v, 1) }

  predicate Proper(x: Exact) { x.Ratio? ==> x.den > 0 }

  /** c is less than, or equal to, twice the exact value. */
  predicate Less(c: int, x: Exact) {
    match x
    case Ratio(num, den) => den * c < 2 * num
    case Root(square) => c < 0 || c * c < 4 * square
  }

  predicate Same(c: int, x: Exact) {
    match x
    case Ratio(num, den) => den * c == 2 * num
    case Root(square) => c >= 0 && c * c == 4 * square
  }

  predicate More(c: int, x: Exact) { !Less(c, x) && !Same(c, x) }

  lemma ComparesInOrder(c: int, c': int, x: Exact)
    requires Proper(x) && c < c' && !More(c', x)
    ensures Less(c, x) && !Same(c, x)
  {
    match x {
      case Ratio(num, den) => StrictProduct(c, c', den);
      case Root(square) =>
        if c >= 0 {
          StrictProduct(c, c', c');
          ProductOrder(c, c', c);
        }
    }
  }

  lemma LessIsNotSame(c: int, x: Exact)
    ensures !(Less(c, x) && Same(c, x))
  {
  }

  lemma StrictProduct(a: int, b: int, c: nat)
    requires a < b && c > 0
    ensures a * c < b * c
  {
    ProductOrder(a + 1, b, c);
  }

  /** `n` is the magnitude word nearest to the exact value, and the even one of two equally near:
      the value lies between the midpoints on either side of it. */
  predicate Nearest(f: Format, x: Exact, n: nat)
    requires Supported(f)
  {
    (n > 0 ==> PastMidpointBelow(f, x, n)) && BeforeMidpointAbove(f, x, n)
  }

  predicate PastMidpointBelow(f: Format, x: Exact, n: nat)
    requires Supported(f) && n > 0
  {
    var mid := Value(f, n - 1) + Value(f, n);
    Less(mid, x) || (Same(mid, x) && n % 2 == 0)
  }

  predicate BeforeMidpointAbove(f: Format, x: Exact, n: nat)
    requires Supported(f)
  {
    var mid := Value(f, n) + Value(f, n + 1);
    More(mid, x) || (Same(mid, x) && n % 2 == 0)
  }

  // --------------------------------------------------------- the line of values

  lemma FieldsOf(f: Format, n: nat, e: nat, fraction: nat)
    requires n == Scale(e, f.precision) + fraction && fraction < Pow2(f.precision)
    ensures Exponent(f, n) == e && Fraction(f, n) == fraction
  {
    SplitUnique(n, f.precision, e, fraction);
  }

  /** A significand at a scale, written as the word that has it: the carry into the next
      binade needs no case of its own. */
  lemma ValueOfQuanta(f: Format, e: nat, t: nat)
    requires Supported(f) && t <= Pow2(f.precision + 1) && (e > 0 ==> t >= Pow2(f.precision))
    ensures Scale(e, f.precision) >= 0
    ensures Value(f, Scale(e, f.precision) + t) == Scale(t, Base(f) + e)
    ensures t < Pow2(f.precision + 1) ==> Place(f, Scale(e, f.precision) + t) == Base(f) + e
  {
    hide Scale, Pow2, Shifted, Dropped;
    var p, n := f.precision, Scale(e, f.precision) + t;
    Pow2Next(p);
    ScaleZero(p);
    ScaleOrder(0, e, p);
    if t < Pow2(p) {
      FieldsOf(f, n, 0, t);
    } else if t < Pow2(p + 1) {
      ScaleAdds(e, 1, p);
      ScaleOne(p);
      FieldsOf(f, n, e + 1, t - Pow2(p));
    } else {
      ScaleAdds(e, 2, p);
      ScaleOne(p);
      ScaleAdds(1, 1, p);
      FieldsOf(f, n, e + 2, 0);
      ScaleNext(Pow2(p), Base(f) + e);
    }
  }

  /** Every magnitude word is some significand at some scale. */
  lemma QuantaOf(f: Format, n: nat) returns (e: nat, t: nat)
    requires Supported(f)
    ensures n == Scale(e, f.precision) + t && t < Pow2(f.precision + 1) && (e > 0 ==> t >= Pow2(f.precision))
    ensures Value(f, n) == Scale(t, Base(f) + e) && Place(f, n) == Base(f) + e
    ensures e == (if Exponent(f, n) == 0 then 0 else Exponent(f, n) - 1) && t == Significand(f, n)
  {
    hide Scale, Pow2, Shifted, Dropped;
    var p := f.precision;
    SplitAt(n, p);
    Pow2Next(p);
    ScaleZero(p);
    if Exponent(f, n) == 0 {
      e, t := 0, Fraction(f, n);
    } else {
      e, t := Exponent(f, n) - 1, Pow2(p) + Fraction(f, n);
      ScaleAdds(e, 1, p);
      ScaleOne(p);
    }
    ValueOfQuanta(f, e, t);
  }

  /** Consecutive words differ by one unit in the last place of the lower one. */
  lemma ValueNext(f: Format, n: nat)
    requires Supported(f)
    ensures Value(f, n + 1) == Value(f, n) + Pow2(Place(f, n))
  {
    hide Scale, Pow2, Value, Place;
    var e, t := QuantaOf(f, n);
    ValueOfQuanta(f, e, t + 1);
    ScaleAdds(t, 1, Base(f) + e);
    ScaleOne(Base(f) + e);
  }

  lemma ValueZero(f: Format)
    requires Supported(f)
    ensures Value(f, 0) == 0
  {
    hide Scale, Pow2;
    ScaleZero(f.precision);
    ValueOfQuanta(f, 0, 0);
    ScaleZero(Base(f));
  }

  lemma {:induction false} ValueIncreases(f: Format, m: nat, n: nat)
    requires Supported(f) && m < n
    ensures Value(f, m) < Value(f, n)
    decreases n
  {
    hide Value, Place;
    ValueNext(f, n - 1);
    if m < n - 1 { ValueIncreases(f, m, n - 1); }
  }

  lemma ValueOrder(f: Format, m: nat, n: nat)
    requires Supported(f)
    ensures m < n <==> Value(f, m) < Value(f, n)
    ensures m == n <==> Value(f, m) == Value(f, n)
  {
    hide Value;
    if m < n { ValueIncreases(f, m, n); }
    if n < m { ValueIncreases(f, n, m); }
  }

  // -------------------------------------------------------- nearest, spelled out

  function Distance(a: int, b: int): nat { if a < b then b - a else a - b }

  /** No word is nearer to num / den, and one equally near means this one is even. */
  predicate Best(f: Format, num: nat, den: nat, n: nat, k: nat)
    requires Supported(f)
  {
    var here, there := Distance(num, den * Value(f, n)), Distance(num, den * Value(f, k));
    here <= there && (here == there && k != n ==> n % 2 == 0)
  }

  lemma NearestIsBest(f: Format, num: nat, den: nat, n: nat, k: nat)
    requires Supported(f) && den > 0 && Nearest(f, Ratio(num, den), n)
    ensures Best(f, num, den, n, k)
  {
    hide Value;
    var v, w := Value(f, n), Value(f, k);
    if k < n {
      var u := Value(f, n - 1);
      ValueIncreases(f, n - 1, n);
      if k < n - 1 { ValueIncreases(f, k, n - 1); }
      ProductsInOrder(den, w, u, v);
    } else if k > n {
      var u := Value(f, n + 1);
      ValueIncreases(f, n, n + 1);
      if k > n + 1 { ValueIncreases(f, n + 1, k); }
      ProductsInOrder(den, -w, -u, -v);
      Negated(den, w, u, v);
    }
  }

  lemma ProductsInOrder(den: nat, w: int, u: int, v: int)
    requires den > 0 && w <= u < v
    ensures den * w <= den * u < den * v && den * (u + v) == den * u + den * v
  {
    ProductOrder(w, u, den);
    StrictProduct(u, v, den);
  }

  lemma Negated(den: nat, w: int, u: int, v: int)
    ensures den * -w == -(den * w) && den * -u == -(den * u) && den * -v == -(den * v)
    ensures den * (v + u) == den * u + den * v
  {
  }

  lemma BestIsNearest(f: Format, num: nat, den: nat, n: nat)
    requires Supported(f) && den > 0
    requires n > 0 ==> Best(f, num, den, n, n - 1)
    requires Best(f, num, den, n, n + 1)
    ensures Nearest(f, Ratio(num, den), n)
  {
    hide Value;
    var v, u := Value(f, n), Value(f, n + 1);
    ValueIncreases(f, n, n + 1);
    ProductsInOrder(den, v, v, u);
    if n > 0 {
      var w := Value(f, n - 1);
      ValueIncreases(f, n - 1, n);
      ProductsInOrder(den, w, w, v);
    }
  }

  /** Rounding is a function: at most one word is the nearest. */
  lemma NearestUnique(f: Format, x: Exact, m: nat, n: nat)
    requires Supported(f) && Proper(x) && Nearest(f, x, m) && Nearest(f, x, n)
    ensures m == n
  {
    if m < n {
      NearestApart(f, x, m, n);
    } else if n < m {
      NearestApart(f, x, n, m);
    }
  }

  lemma NearestApart(f: Format, x: Exact, m: nat, n: nat)
    requires Supported(f) && Proper(x) && m < n
    ensures !(Nearest(f, x, m) && Nearest(f, x, n))
  {
    hide Value, Less, Same;
    var above, below := Value(f, m) + Value(f, m + 1), Value(f, n - 1) + Value(f, n);
    if m + 1 < n {
      ValueIncreases(f, m, n - 1);
      ValueIncreases(f, m + 1, n);
      if !More(below, x) { ComparesInOrder(above, below, x); }
    } else {
      LessIsNotSame(above, x);
    }
  }

  // ------------------------------------------------------------ how to get there

  /** x is within half a place of `t` units at scale Base + e, ties going to even. */
  predicate HalfAway(f: Format, x: Exact, e: nat, t: nat)
    requires Supported(f)
  {
    var below, above := Scale(2 * t - 1, Base(f) + e), Scale(2 * t + 1, Base(f) + e);
    && (Less(below, x) || (Same(below, x) && t % 2 == 0) || t == 0)
    && (More(above, x) || (Same(above, x) && t % 2 == 0))
  }

  /** x has its leading one where scale Base + e puts it, or lies below the normal range. */
  predicate InBinade(f: Format, x: Exact, e: nat)
    requires Supported(f)
  {
    && More(2 * Scale(Pow2(f.precision + 1), Base(f) + e), x)
    && (e > 0 ==> !More(2 * Scale(Pow2(f.precision), Base(f) + e), x))
  }

  lemma RoundingAbove(f: Format, x: Exact, e: nat, t: nat)
    requires Supported(f) && Proper(x) && InBinade(f, x, e) && HalfAway(f, x, e, t)
    requires t <= Pow2(f.precision + 1) && (e > 0 ==> t >= Pow2(f.precision))
    ensures Scale(e, f.precision) >= 0 && BeforeMidpointAbove(f, x, Scale(e, f.precision) + t)
  {
    hide Scale, Pow2, Value, Place, Base, Less, Same;
    ValueOfQuanta(f, e, t);
    var n := Scale(e, f.precision) + t;
    WordParity(f, e, t);
    if t < Pow2(f.precision + 1) {
      ValueOfQuanta(f, e, t + 1);
      ScaleAdds(t, t + 1, Base(f) + e);
    } else {
      ValueIncreases(f, n, n + 1);
      var mid := Value(f, n) + Value(f, n + 1);
      if !More(mid, x) { ComparesInOrder(2 * Value(f, n), mid, x); }
    }
  }

  lemma RoundingBelow(f: Format, x: Exact, e: nat, t: nat)
    requires Supported(f) && Proper(x) && InBinade(f, x, e) && HalfAway(f, x, e, t)
    requires t <= Pow2(f.precision + 1) && (e > 0 ==> t >= Pow2(f.precision))
    ensures Scale(e, f.precision) >= 0
    ensures Scale(e, f.precision) + t > 0 ==> PastMidpointBelow(f, x, Scale(e, f.precision) + t)
  {
    hide Scale, Pow2, Value, Place, Base, Less, Same;
    ValueOfQuanta(f, e, t);
    var n := Scale(e, f.precision) + t;
    WordParity(f, e, t);
    if n > 0 {
      if e > 0 && t == Pow2(f.precision) {
        ValueIncreases(f, n - 1, n);
        ComparesInOrder(Value(f, n - 1) + Value(f, n), 2 * Value(f, n), x);
      } else {
        assert t > 0 by { ScaleZero(f.precision); }
        ValueOfQuanta(f, e, t - 1);
        ScaleAdds(t - 1, t, Base(f) + e);
      }
    }
  }

  lemma RoundingIsNearest(f: Format, x: Exact, e: nat, t: nat)
    requires Supported(f) && Proper(x) && InBinade(f, x, e) && HalfAway(f, x, e, t)
    requires t <= Pow2(f.precision + 1) && (e > 0 ==> t >= Pow2(f.precision))
    ensures Scale(e, f.precision) >= 0 && Nearest(f, x, Scale(e, f.precision) + t)
  {
    hide Scale, Pow2, InBinade, HalfAway, BeforeMidpointAbove, PastMidpointBelow;
    RoundingAbove(f, x, e, t);
    RoundingBelow(f, x, e, t);
  }

  lemma WordParity(f: Format, e: nat, t: nat)
    requires Supported(f)
    ensures (Scale(e, f.precision) + t) % 2 == t % 2
  {
    hide Scale;
    ScaleNext(e, f.precision - 1);
  }
}
