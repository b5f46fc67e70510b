/** Multiplication and division by powers of two, as laws the solver can use without
    nonlinear arithmetic. */
module Scaling {
  import opened Bits

  /** x * 2^n */
  function Scale(x: int, n: nat): int { x * Pow2(n) }

  /** The same for a field of a word. */
  function Field(x: nat, n: nat): (r: nat)
    ensures r == Scale(x, n)
  {
    ProductOrder(0, x, Pow2(n));
    x * Pow2(n)
  }

  function Times(x: nat, y: nat): (r: nat)
    ensures r == x * y
  {
    ProductOrder(0, x, y);
    x * y
  }

  /** floor(x / 2^n) */
  function Shifted(x: nat, n: nat): nat { Quotient(x, Pow2(n)) }

  function Dropped(x: nat, n: nat): nat { x % Pow2(n) }

  lemma ScaleZero(n: nat)
    ensures Scale(0, n) == 0
  {
  }

  lemma ScaleByZero(x: int)
    ensures Scale(x, 0) == x
  {
  }

  lemma ScaleIs(x: int, n: nat)
    ensures Scale(x, n) == x * Pow2(n)
  {
  }

  lemma ScaleOne(n: nat)
    ensures Scale(1, n) == Pow2(n)
  {
  }

  lemma ScaleNext(x: int, n: nat)
    ensures Scale(x, n + 1) == 2 * Scale(x, n) == Scale(2 * x, n)
  {
  }

  lemma ScaleAdds(x: int, y: int, n: nat)
    ensures Scale(x + y, n) == Scale(x, n) + Scale(y, n)
    ensures Scale(x - y, n) == Scale(x, n) - Scale(y, n)
  {
  }

  lemma ScaleScale(x: int, m: nat, n: nat)
    ensures Scale(Scale(x, m), n) == Scale(x, m + n)
  {
    Pow2Adds(m, n);
    assert (x * Pow2(m)) * Pow2(n) == x * (Pow2(m) * Pow2(n));
  }

  lemma ScaleTimes(x: int, y: int, n: nat)
    ensures Scale(x * y, n) == x * Scale(y, n) == Scale(x, n) * y
  {
    var p := Pow2(n);
    assert (x * y) * p == x * (y * p);
    assert (x * p) * y == (x * y) * p;
  }

  lemma ScaleOrder(x: int, y: int, n: nat)
    ensures x <= y <==> Scale(x, n) <= Scale(y, n)
    ensures x < y <==> Scale(x, n) < Scale(y, n)
    ensures x == y <==> Scale(x, n) == Scale(y, n)
  {
    var p := Pow2(n);
    if x < y { ProductOrder(x + 1, y, p); assert Scale(x + 1, n) == Scale(x, n) + p; }
    if y < x { ProductOrder(y + 1, x, p); assert Scale(y + 1, n) == Scale(y, n) + p; }
  }

  lemma Pow2Next(n: nat)
    ensures Pow2(n + 1) == 2 * Pow2(n)
  {
  }

  lemma {:induction false} Pow2Order(m: nat, n: nat)
    requires m < n
    ensures 2 * Pow2(m) <= Pow2(n)
    decreases n
  {
    if m < n - 1 { Pow2Order(m, n - 1); }
  }

  lemma Pow2Grows(m: nat, n: nat)
    requires m <= n
    ensures Pow2(m) <= Pow2(n)
  {
    if m < n { Pow2Order(m, n); }
  }

  /** A number is its quotient scaled back plus its remainder. */
  lemma SplitAt(x: nat, n: nat)
    ensures x == Scale(Shifted(x, n), n) + Dropped(x, n)
    ensures 0 <= Dropped(x, n) < Pow2(n)
  {
    assert x == Pow2(n) * (x / Pow2(n)) + x % Pow2(n);
  }

  lemma SplitUnique(x: nat, n: nat, high: nat, low: nat)
    requires x == Scale(high, n) + low && low < Pow2(n)
    ensures Shifted(x, n) == high && Dropped(x, n) == low
  {
    DivideUnique(low, high, Pow2(n));
  }

  lemma ShiftedScale(x: nat, n: nat)
    ensures Scale(x, n) >= 0 && Shifted(Scale(x, n), n) == x && Dropped(Scale(x, n), n) == 0
  {
    assert Scale(x, n) >= 0 by { ScaleZero(n); ScaleOrder(0, x, n); }
    SplitUnique(Scale(x, n), n, x, 0);
  }

  lemma ShiftedShifted(x: nat, m: nat, n: nat)
    ensures Shifted(Shifted(x, m), n) == Shifted(x, m + n)
  {
    Pow2Adds(m, n);
    NestedDivide(x, Pow2(m), Pow2(n));
  }

  /** Position of the leading one. */
  function Leading(x: nat): (l: nat)
    requires x > 0
    ensures Pow2(l) <= x < Pow2(l + 1)
  {
    if x == 1 then 0 else 1 + Leading(x / 2)
  }

  lemma LeadingUnique(x: nat, l: nat)
    requires Pow2(l) <= x < Pow2(l + 1)
    ensures x > 0 && Leading(x) == l
  {
    var k := Leading(x);
    if k < l { Pow2Grows(k + 1, l); }
    if l < k { Pow2Grows(l + 1, k); }
  }

  lemma LeadingBelow(x: nat, n: nat)
    requires 0 < x < Pow2(n)
    ensures Leading(x) < n
  {
    if Leading(x) >= n { Pow2Grows(n, Leading(x)); }
  }

  lemma ScalePow2(m: nat, n: nat)
    ensures Scale(Pow2(m), n) == Pow2(m + n)
  {
    Pow2Adds(m, n);
  }

  /** Shifting out `s` bits of a number below, or not below, 2^(n + s). */
  lemma ShiftedBelow(x: nat, n: nat, s: nat)
    ensures x < Pow2(n + s) <==> Shifted(x, s) < Pow2(n)
  {
    hide Scale, Shifted, Dropped, Pow2;
    SplitAt(x, s);
    ScalePow2(n, s);
    var q := Shifted(x, s);
    if q < Pow2(n) {
      ScaleOrder(q + 1, Pow2(n), s);
      ScaleAdds(q, 1, s);
      ScaleOne(s);
    } else {
      ScaleOrder(Pow2(n), q, s);
    }
  }

  lemma ShiftedAway(x: nat, n: nat)
    requires x < Pow2(n)
    ensures Shifted(x, n) == 0 && Dropped(x, n) == x
  {
    hide Scale, Shifted, Dropped, Pow2;
    ScaleZero(n);
    SplitUnique(x, n, 0, x);
  }
}
