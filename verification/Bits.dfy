/** Powers of two and the bitwise operators on naturals, shared by every fixed-width model. */
module Bits {

  function Pow2(n: nat): (p: nat)
    ensures p > 0
  {
    if n == 0 then 1 else 2 * Pow2(n - 1)
  }

  lemma {:induction false} Pow2Adds(m: nat, n: nat)
    ensures Pow2(m + n) == Pow2(m) * Pow2(n)
  {
    if m != 0 {
      Pow2Adds(m - 1, n);
      assert Pow2(m + n) == 2 * Pow2(m - 1 + n);
    }
  }

  lemma ProductOrder(a: int, b: int, c: int)
    requires a <= b && c >= 0
    ensures a * c <= b * c
  {
  }

  function Quotient(a: nat, d: nat): (q: nat)
    requires d > 0
    ensures q <= a
  {
    QuotientShrinks(a, d);
    a / d
  }

  lemma QuotientShrinks(a: nat, d: nat)
    requires d > 0
    ensures 0 <= a / d <= a
  {
    var q := a / d;
    if q > a {
      ProductOrder(1, d, q);
    }
  }

  /** Quotient and remainder are unique. */
  lemma DivideUnique(low: int, high: int, d: nat)
    requires 0 <= low < d
    ensures (low + d * high) / d == high && (low + d * high) % d == low
  {
    var x := low + d * high;
    var q := x / d;
    var e := q - high;
    assert d * e == low - x % d by {
      assert x == d * q + x % d;
      assert d * e == d * q - d * high;
    }
    if e >= 1 { ProductOrder(1, e, d); }
    if e <= -1 { ProductOrder(e, -1, d); }
  }

  lemma NestedDivide(x: int, a: nat, b: nat)
    requires a > 0 && b > 0
    ensures a * b > 0 && x / a / b == x / (a * b)
  {
    var q := x / a / b;
    var low := x % a + a * (x / a % b);
    assert a * b > 0 by { ProductOrder(1, a, b); }
    assert x == low + (a * b) * q by {
      assert x == a * (x / a) + x % a;
      assert x / a == b * q + x / a % b;
      assert a * (b * q) == (a * b) * q;
      assert a * (x / a) == a * (b * q) + a * (x / a % b);
    }
    assert a * (x / a % b) <= a * (b - 1) by { ProductOrder(x / a % b, b - 1, a); }
    assert a * (b - 1) == a * b - a;
    DivideUnique(low, q, a * b);
  }

  lemma SplitResidue(x: int, a: nat, b: nat)
    requires a > 0 && b > 0
    ensures a * b > 0 && x % (a * b) % a == x % a && x % (a * b) / a == x / a % b
  {
    NestedDivide(x, a, b);
    var q := x / (a * b);
    var r := x % (a * b);
    assert x == (a * b) * q + r;
    assert x / a == b * q + x / a % b;
    assert a * (b * q) == (a * b) * q;
    assert a * (x / a) == a * (b * q) + a * (x / a % b);
    assert r == x % a + a * (x / a % b);
    DivideUnique(x % a, x / a % b, a);
  }

  predicate Both(x: bool, y: bool) { x && y }

  predicate Either(x: bool, y: bool) { x || y }

  predicate Differ(x: bool, y: bool) { x != y }

  /** The operator `op` applied to the low `width` bits of two naturals. */
  function Bitwise(op: (bool, bool) -> bool, a: nat, b: nat, width: nat): (r: nat)
    ensures r < Pow2(width)
  {
    if width == 0 then 0
    else 2 * Bitwise(op, a / 2, b / 2, width - 1) + (if op(a % 2 == 1, b % 2 == 1) then 1 else 0)
  }

  /** Bit k of the result is `op` of the two bits k. */
  lemma {:induction false} BitwiseBit(op: (bool, bool) -> bool, a: nat, b: nat, width: nat, k: nat)
    requires k < width
    ensures Bitwise(op, a, b, width) / Pow2(k) % 2
         == if op(a / Pow2(k) % 2 == 1, b / Pow2(k) % 2 == 1) then 1 else 0
    decreases k
  {
    if k != 0 {
      var r := Bitwise(op, a, b, width);
      BitwiseBit(op, a / 2, b / 2, width - 1, k - 1);
      assert r / 2 == Bitwise(op, a / 2, b / 2, width - 1);
      NestedDivide(a, 2, Pow2(k - 1));
      NestedDivide(b, 2, Pow2(k - 1));
      NestedDivide(r, 2, Pow2(k - 1));
    }
  }

  lemma Pow2Of32()
    ensures Pow2(32) == 0x1_0000_0000
  {
    assert Pow2(8) == 0x100;
    Pow2Adds(8, 8);
    Pow2Adds(16, 16);
  }

  lemma {:induction false} OrWithZero(a: nat, width: nat)
    requires a < Pow2(width)
    ensures Bitwise(Either, 0, a, width) == a
    decreases width
  {
    if width != 0 { OrWithZero(a / 2, width - 1); }
  }

  /** An OR of a field below bit `k` with a multiple of 2^k is their sum. */
  lemma {:induction false} OrDisjoint(low: nat, high: nat, k: nat, width: nat)
    requires k <= width && low < Pow2(k) && Pow2(k) * high < Pow2(width)
    ensures Bitwise(Either, low, Pow2(k) * high, width) == low + Pow2(k) * high
    decreases width
  {
    if k == 0 {
      OrWithZero(high, width);
    } else {
      var h := Pow2(k - 1) * high;
      assert Pow2(k) * high == 2 * h;
      OrDisjoint(low / 2, high, k - 1, width - 1);
      DivideUnique(0, h, 2);
    }
  }
}
