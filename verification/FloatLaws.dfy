/** Laws that hold between the kernels: where a product is exact, division and square root
    undo it. */
module FloatLaws {
  import opened Bits
  import opened Scaling
  import opened FloatValue
  import opened FloatFormats
  import opened FloatSticky
  import opened FloatFused
  import opened FloatConvert
  import opened FloatArithmetic
  import opened FloatQuotient
  import opened FloatSqrt

  /** A word whose value is the exact result is the nearest one. */
  lemma ExactIsNearest(f: Format, x: Exact, n: nat)
    requires Supported(f) && Proper(x) && Same(2 * Value(f, n), x)
    ensures Nearest(f, x, n)
  {
    hide Value, Same, Less;
    var v := Value(f, n);
    ValueIncreases(f, n, n + 1);
    if !More(v + Value(f, n + 1), x) { ComparesInOrder(2 * v, v + Value(f, n + 1), x); }
    if n > 0 {
      ValueIncreases(f, n - 1, n);
      LessIsNotSame(2 * v, x);
      ComparesInOrder(Value(f, n - 1) + v, 2 * v, x);
    }
  }

  /** What an exact response says: its word is the value itself. */
  lemma ExactResponse(r: Response, f: Format, sign: nat, v: nat, n: nat)
    requires Supported(f) && sign < 2 && Rounds(r, f, sign, Whole(v), n) && !r.inexact
    ensures n < InfinityWord(f) && Value(f, n) == v
    ensures r.result == Signed(f, sign, n) && Magnitude(f, r.result) == n && SignOf(f, r.result) == sign
  {
    hide Value, Same, Nearest, Magnitude, SignOf, InfinityWord, Pow2;
    SameWhole(Value(f, n), v);
    InfinityFits(f);
    PartsOfWord(f, sign, n);
  }

  /** A response whose exact value is that of a word returns that word. */
  lemma RecoversWord(r: Response, f: Format, sign: nat, x: Exact, n: nat, m: nat)
    requires Supported(f) && Proper(x) && Rounds(r, f, sign, x, n) && Same(2 * Value(f, m), x) && m < InfinityWord(f)
    ensures r.result == Signed(f, sign, m) && !r.inexact
  {
    hide Value, Same, Nearest, InfinityWord, Proper;
    ExactIsNearest(f, x, m);
    NearestUnique(f, x, m, n);
  }

  /** x * y over y is x. */
  lemma ProductOverFactor(x: int, y: int, p: nat)
    requires p == x * y && y > 0
    ensures Same(2 * x, Ratio(p, y))
  {
    assert y * (2 * x) == 2 * (x * y);
  }

  lemma RootOfSquare(x: nat, p: nat)
    requires p == x * x
    ensures Same(2 * x, Root(p))
  {
    assert (2 * x) * (2 * x) == 4 * (x * x);
  }

  /** Dividing an exact product by one factor gives the other back, sign included. */
  lemma DivisionUndoesProduct32(lhs: nat, rhs: nat, v: bool)
    requires Finite(BINARY32, lhs) && Finite(BINARY32, rhs) && Magnitude(BINARY32, rhs) > 0
    requires lhs < Pow2(32) && !MulFinite(lhs, rhs, v).inexact
    ensures var r := DivideBits(MulFinite(lhs, rhs, v).result, rhs, v);
            r.response.result == lhs && !r.response.inexact
  {
    hide Value, Same, Nearest, InfinityWord, Proper, Magnitude, SignOf, Pow2, MulFinite, DivideBits, Scale, Rounds,
      ExactProduct;
    var f := BINARY32;
    var m, n := Magnitude(f, lhs), Magnitude(f, rhs);
    var product := MulFinite(lhs, rhs, v);
    var k := Product32Rounds(lhs, rhs, v);
    SignBit(f, lhs);
    SignBit(f, rhs);
    ExactResponse(product, f, (SignOf(f, lhs) + SignOf(f, rhs)) % 2, ExactProduct(f, m, n), k);
    var w := Quotient32Rounds(product.result, rhs, v);
    ExactProductIs(f, m, n);
    ProductOverFactor(Value(f, m), Value(f, n), Field(Value(f, k), 4096));
    ProperQuotient(f, k, n);
    RecoversWord(DivideBits(product.result, rhs, v).response, f, SignOf(f, lhs), ExactQuotient(f, k, n), w, m);
    WordOfParts(f, lhs);
  }

  lemma DivisionUndoesProduct64(lhs: nat, rhs: nat, v: bool)
    requires Finite(BINARY64, lhs) && Finite(BINARY64, rhs) && Magnitude(BINARY64, rhs) > 0
    requires lhs < Pow2(64) && !ProductFp64(lhs, rhs, v).inexact
    ensures var r := DivideFp64(ProductFp64(lhs, rhs, v).result, rhs, v);
            r.response.result == lhs && !r.response.inexact
  {
    hide Value, Same, Nearest, InfinityWord, Proper, Magnitude, SignOf, Pow2, ProductFp64, DivideFp64, Scale, Rounds,
      ExactProduct;
    var f := BINARY64;
    var m, n := Magnitude(f, lhs), Magnitude(f, rhs);
    var product := ProductFp64(lhs, rhs, v);
    var k := Product64Rounds(lhs, rhs, v);
    SignBit(f, lhs);
    SignBit(f, rhs);
    ExactResponse(product, f, (SignOf(f, lhs) + SignOf(f, rhs)) % 2, ExactProduct(f, m, n), k);
    var w := Quotient64Rounds(product.result, rhs, v);
    ExactProductIs(f, m, n);
    ProductOverFactor(Value(f, m), Value(f, n), Field(Value(f, k), 4096));
    ProperQuotient(f, k, n);
    RecoversWord(DivideFp64(product.result, rhs, v).response, f, SignOf(f, lhs), ExactQuotient(f, k, n), w, m);
    WordOfParts(f, lhs);
  }

  function Square(word: nat, wide64: bool, v: bool): Response {
    if wide64 then ProductFp64(word, word, v) else MulFinite(word, word, v)
  }

  /** The root of an exact square is the magnitude that was squared. */
  lemma RootUndoesSquare(word: nat, wide64: bool, v: bool)
    requires Finite(FormatWide(wide64), word) && !Square(word, wide64, v).inexact
    ensures var r := SquareRoot(Square(word, wide64, v).result, wide64, v);
            r.result == Magnitude(FormatWide(wide64), word) && !r.inexact && !r.invalid
  {
    hide Value, Same, Nearest, InfinityWord, Proper, Magnitude, SignOf, Pow2, ProductFp64, MulFinite, SquareRoot, Scale,
      Rounds, ExactProduct;
    var f := FormatWide(wide64);
    var m, square := Magnitude(f, word), Square(word, wide64, v);
    var k;
    if wide64 { k := Product64Rounds(word, word, v); } else { k := Product32Rounds(word, word, v); }
    ExactResponse(square, f, 0, ExactProduct(f, m, m), k);
    var w := SquareRootRounds(square.result, wide64, v);
    ExactProductIs(f, m, m);
    ValueZero(f);
    if m > 0 { ValueIncreases(f, 0, m); }
    RootOfSquare(Value(f, m), Field(Value(f, k), 4096));
    ProperRoot(f, k);
    RecoversWord(SquareRoot(square.result, wide64, v), f, 0, ExactRoot(f, k), w, m);
    ScaleZero(f.position);
  }

  lemma ProperRoot(f: Format, m: nat)
    requires Supported(f) && Value(f, m) >= 0
    ensures Proper(ExactRoot(f, m))
  {
  }
}
