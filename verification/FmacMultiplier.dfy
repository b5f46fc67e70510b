/** The carry-save multiplier of the BF16 multiply-accumulate (examples/bf16_fmac/bf16_fmac.py). */
module FmacMultiplier {
  import opened Bits
  import opened Scaling

  /** Residues modulo 2^16, the width of every row. */
  function Row(x: int): nat { x % 0x1_0000 }

  function Xor(a: nat, b: nat): nat { Bitwise(Differ, a, b, 16) }

  function And(a: nat, b: nat): nat { Bitwise(Both, a, b, 16) }

  function Or(a: nat, b: nat): nat { Bitwise(Either, a, b, 16) }

  datatype CarrySave = CarrySave(sum: nat, carry: nat)

  function Compress(a: nat, b: nat, c: nat): CarrySave {
    CarrySave(Xor(Xor(a, b), c), Row(2 * Or(And(a, b), And(c, Xor(a, b)))))
  }

  datatype Ripple = Ripple(word: nat, carry: nat)

  /** A chain of full adders over the low n bits, lowest first. */
  function RippleAdd(a: nat, b: nat, carry: nat, n: nat): Ripple
    requires carry < 2
  {
    if n == 0 then Ripple(0, carry)
    else
      var x, y := a % 2, b % 2;
      var differ := (x + y) % 2;
      var up := if (x == 1 && y == 1) || (carry == 1 && differ == 1) then 1 else 0;
      var rest := RippleAdd(a / 2, b / 2, up, n - 1);
      Ripple(2 * rest.word + (differ + carry) % 2, rest.carry)
  }

  /** The eight rows of a product: the multiplicand where the multiplier has a bit. */
  function PartialProduct(a: nat, b: nat, k: nat): nat {
    if Shifted(a, k) % 2 == 1 then Row(Field(b, k)) else 0
  }

  datatype Rows = Rows(row0: nat, row1: nat, row2: nat, row3: nat)

  /** Eight rows to four, before the first register. */
  function Compressed(a: nat, b: nat): Rows {
    var first := Compress(PartialProduct(a, b, 0), PartialProduct(a, b, 1), PartialProduct(a, b, 2));
    var second := Compress(PartialProduct(a, b, 3), PartialProduct(a, b, 4), PartialProduct(a, b, 5));
    var third := Compress(first.sum, first.carry, second.sum);
    var fourth := Compress(second.carry, PartialProduct(a, b, 6), PartialProduct(a, b, 7));
    Rows(third.sum, third.carry, fourth.sum, fourth.carry)
  }

  /** Four rows to two, and a carry-select addition in two halves. */
  function Added(r: Rows): nat {
    var third := Compress(r.row0, r.row1, r.row2);
    var fourth := Compress(third.sum, third.carry, r.row3);
    var low := RippleAdd(fourth.sum % 256, fourth.carry % 256, 0, 8);
    var high0 := RippleAdd(fourth.sum / 256, fourth.carry / 256, 0, 8);
    var high1 := RippleAdd(fourth.sum / 256, fourth.carry / 256, 1, 8);
    256 * (if low.carry == 1 then high1.word else high0.word) + low.word
  }

  // --------------------------------------------------------------- correctness

  lemma BitwiseHalves(op: (bool, bool) -> bool, a: nat, b: nat, n: nat)
    requires n > 0
    ensures var r := Bitwise(op, a, b, n);
            r / 2 == Bitwise(op, a / 2, b / 2, n - 1) && r % 2 == if op(a % 2 == 1, b % 2 == 1) then 1 else 0
  {
  }

  function SumBits(a: nat, b: nat, c: nat, n: nat): nat { Bitwise(Differ, Bitwise(Differ, a, b, n), c, n) }

  function CarryBits(a: nat, b: nat, c: nat, n: nat): nat {
    Bitwise(Either, Bitwise(Both, a, b, n), Bitwise(Both, c, Bitwise(Differ, a, b, n), n), n)
  }

  /** One column of a carry-save adder is a full adder. */
  lemma FullAdder(a: nat, b: nat, c: nat, n: nat)
    requires n > 0
    ensures SumBits(a, b, c, n) / 2 == SumBits(a / 2, b / 2, c / 2, n - 1)
    ensures CarryBits(a, b, c, n) / 2 == CarryBits(a / 2, b / 2, c / 2, n - 1)
    ensures SumBits(a, b, c, n) % 2 + 2 * (CarryBits(a, b, c, n) % 2) == a % 2 + b % 2 + c % 2
  {
    hide Bitwise;
    var x, y := Bitwise(Differ, a, b, n), Bitwise(Both, a, b, n);
    BitwiseHalves(Differ, a, b, n);
    BitwiseHalves(Both, a, b, n);
    BitwiseHalves(Differ, x, c, n);
    BitwiseHalves(Both, c, x, n);
    BitwiseHalves(Either, y, Bitwise(Both, c, x, n), n);
  }

  /** Three rows and the two that replace them have the same sum. */
  lemma {:induction false} CarrySaveSum(a: nat, b: nat, c: nat, n: nat)
    requires a < Pow2(n) && b < Pow2(n) && c < Pow2(n)
    ensures SumBits(a, b, c, n) + 2 * CarryBits(a, b, c, n) == a + b + c
  {
    if n > 0 {
      FullAdder(a, b, c, n);
      CarrySaveSum(a / 2, b / 2, c / 2, n - 1);
      hide SumBits, CarryBits, Bitwise;
    }
  }

  lemma CompressIs(a: nat, b: nat, c: nat)
    requires a < 0x1_0000 && b < 0x1_0000 && c < 0x1_0000
    ensures var r := Compress(a, b, c);
            r.sum < 0x1_0000 && r.carry < 0x1_0000 && Row(r.sum + r.carry) == Row(a + b + c)
  {
    hide Pow2, Bitwise;
    PowerOf16();
    CarrySaveSum(a, b, c, 16);
    RowAdds(SumBits(a, b, c, 16), 2 * CarryBits(a, b, c, 16));
  }

  lemma PowerOf16()
    ensures Pow2(16) == 0x1_0000
  {
    assert Pow2(8) == 256;
    hide Pow2;
    Pow2Adds(8, 8);
  }

  lemma RowAdds(x: int, y: int)
    ensures Row(x + Row(y)) == Row(x + y)
  {
  }

  function Weight(carry: nat, n: nat): nat { if carry == 1 then Pow2(n) else 0 }

  lemma OneBit(x: nat, y: nat, carry: nat)
    requires x < 2 && y < 2 && carry < 2
    ensures var differ := (x + y) % 2;
            var up := if (x == 1 && y == 1) || (carry == 1 && differ == 1) then 1 else 0;
            (differ + carry) % 2 + 2 * up == x + y + carry
  {
  }

  lemma {:induction false} RippleIs(a: nat, b: nat, carry: nat, n: nat)
    requires carry < 2 && a < Pow2(n) && b < Pow2(n)
    ensures var r := RippleAdd(a, b, carry, n);
            r.carry < 2 && r.word < Pow2(n) && r.word + Weight(r.carry, n) == a + b + carry
  {
    if n > 0 {
      Pow2Next(n - 1);
      hide Pow2;
      var x, y := a % 2, b % 2;
      var differ := (x + y) % 2;
      var up := if (x == 1 && y == 1) || (carry == 1 && differ == 1) then 1 else 0;
      OneBit(x, y, carry);
      RippleIs(a / 2, b / 2, up, n - 1);
    }
  }

  /** The two halves with a selected carry add two rows exactly, modulo 2^16. */
  lemma CarrySelect(x: nat, y: nat)
    requires x < 0x1_0000 && y < 0x1_0000
    ensures var low := RippleAdd(x % 256, y % 256, 0, 8);
            low.carry < 2 && 256 * RippleAdd(x / 256, y / 256, low.carry, 8).word + low.word == Row(x + y)
  {
    hide Pow2, RippleAdd, Row;
    PowerOf8();
    var low := RippleAdd(x % 256, y % 256, 0, 8);
    RippleIs(x % 256, y % 256, 0, 8);
    RippleIs(x / 256, y / 256, low.carry, 8);
    var high := RippleAdd(x / 256, y / 256, low.carry, 8);
    RowOf(x + y, 256 * high.word + low.word, high.carry);
  }

  lemma RowOf(x: int, r: nat, k: nat)
    requires r < 0x1_0000 && x == r + if k == 1 then 0x1_0000 else 0
    ensures Row(x) == r
  {
  }

  lemma AddedIs(r: Rows)
    requires r.row0 < 0x1_0000 && r.row1 < 0x1_0000 && r.row2 < 0x1_0000 && r.row3 < 0x1_0000
    ensures Added(r) == Row(r.row0 + r.row1 + r.row2 + r.row3)
  {
    hide Compress, RippleAdd;
    var third := Compress(r.row0, r.row1, r.row2);
    CompressIs(r.row0, r.row1, r.row2);
    var fourth := Compress(third.sum, third.carry, r.row3);
    CompressIs(third.sum, third.carry, r.row3);
    CarrySelect(fourth.sum, fourth.carry);
    RowShifts(third.sum + third.carry, r.row0 + r.row1 + r.row2, r.row3);
  }

  lemma RowShifts(x: int, y: int, z: int)
    requires Row(x) == Row(y)
    ensures Row(x + z) == Row(y + z)
  {
  }

  /** The first k rows together. */
  function RowsBelow(a: nat, b: nat, k: nat): nat {
    if k == 0 then 0 else RowsBelow(a, b, k - 1) + PartialProduct(a, b, k - 1)
  }

  lemma PartialProductIs(a: nat, b: nat, k: nat)
    requires b < 256 && k < 8
    ensures PartialProduct(a, b, k) == (if Shifted(a, k) % 2 == 1 then Scale(b, k) else 0) < 0x1_0000
  {
    hide Pow2, Scale, Shifted;
    Pow2Grows(k, 8);
    assert Pow2(8) == 256 by { PowerOf8(); }
    ScaleOrder(b, Pow2(8), k);
    ScalePow2(8, k);
    Pow2Grows(8 + k, 16);
    PowerOf16();
    ScaleZero(k);
    ScaleOrder(0, b, k);
  }

  lemma PowerOf8()
    ensures Pow2(8) == 256
  {
  }

  lemma {:induction false} RowsMultiply(a: nat, b: nat, k: nat)
    requires b < 256 && k <= 8
    ensures RowsBelow(a, b, k) == Times(Dropped(a, k), b)
  {
    hide Pow2, Scale, Shifted, Dropped, PartialProduct;
    if k == 0 {
      NothingDropped(a);
    } else {
      RowsMultiply(a, b, k - 1);
      PartialProductIs(a, b, k - 1);
      NextBit(a, k - 1);
      var low, bit := Dropped(a, k - 1), Shifted(a, k - 1) % 2;
      if bit == 1 {
        ScaleTimes(1, b, k - 1);
        ScaleOne(k - 1);
        assert (low + Pow2(k - 1)) * b == low * b + Pow2(k - 1) * b;
      }
    }
  }

  lemma NothingDropped(a: nat)
    ensures Dropped(a, 0) == 0
  {
  }

  lemma NextBit(a: nat, k: nat)
    ensures Dropped(a, k + 1) == Dropped(a, k) + if Shifted(a, k) % 2 == 1 then Pow2(k) else 0
  {
    hide Pow2, Scale, Shifted, Dropped;
    SplitAt(a, k);
    ShiftedShifted(a, k, 1);
    var high := Shifted(a, k);
    assert Shifted(high, 1) == high / 2 by { HalfOf(high); }
    ScaleAdds(2 * (high / 2), high % 2, k);
    ScaleNext(high / 2, k);
    ScaleZero(k);
    ScaleOne(k);
    Pow2Next(k);
    SplitUnique(a, k + 1, high / 2, Dropped(a, k) + Scale(high % 2, k));
  }

  lemma HalfOf(x: nat)
    ensures Shifted(x, 1) == x / 2
  {
  }

  lemma CompressedIs(a: nat, b: nat)
    requires a < 256 && b < 256
    ensures var r := Compressed(a, b);
            && r.row0 < 0x1_0000 && r.row1 < 0x1_0000 && r.row2 < 0x1_0000 && r.row3 < 0x1_0000
            && Row(r.row0 + r.row1 + r.row2 + r.row3) == Row(RowsBelow(a, b, 8))
  {
    hide Compress, PartialProduct;
    forall k: nat | k < 8 ensures PartialProduct(a, b, k) < 0x1_0000 { PartialProductIs(a, b, k); }
    var first := Compress(PartialProduct(a, b, 0), PartialProduct(a, b, 1), PartialProduct(a, b, 2));
    var second := Compress(PartialProduct(a, b, 3), PartialProduct(a, b, 4), PartialProduct(a, b, 5));
    CompressIs(PartialProduct(a, b, 0), PartialProduct(a, b, 1), PartialProduct(a, b, 2));
    CompressIs(PartialProduct(a, b, 3), PartialProduct(a, b, 4), PartialProduct(a, b, 5));
    CompressIs(first.sum, first.carry, second.sum);
    CompressIs(second.carry, PartialProduct(a, b, 6), PartialProduct(a, b, 7));
    var third := Compress(first.sum, first.carry, second.sum);
    var fourth := Compress(second.carry, PartialProduct(a, b, 6), PartialProduct(a, b, 7));
    var p0, p1 := PartialProduct(a, b, 0) + PartialProduct(a, b, 1) + PartialProduct(a, b, 2),
                  PartialProduct(a, b, 3) + PartialProduct(a, b, 4) + PartialProduct(a, b, 5);
    var p2 := PartialProduct(a, b, 6) + PartialProduct(a, b, 7);
    RowShifts(third.sum + third.carry, first.sum + first.carry + second.sum, fourth.sum + fourth.carry);
    RowShifts(fourth.sum + fourth.carry, second.carry + p2, first.sum + first.carry + second.sum);
    RowShifts(first.sum + first.carry, p0, second.sum + second.carry + p2);
    RowShifts(second.sum + second.carry, p1, p0 + p2);
    EightRows(a, b);
  }

  lemma EightRows(a: nat, b: nat)
    ensures RowsBelow(a, b, 8)
         == PartialProduct(a, b, 0) + PartialProduct(a, b, 1) + PartialProduct(a, b, 2) + PartialProduct(a, b, 3)
            + PartialProduct(a, b, 4) + PartialProduct(a, b, 5) + PartialProduct(a, b, 6) + PartialProduct(a, b, 7)
  {
    hide PartialProduct;
    assert RowsBelow(a, b, 0) == 0;
    assert RowsBelow(a, b, 2) == PartialProduct(a, b, 0) + PartialProduct(a, b, 1);
    assert RowsBelow(a, b, 4) == RowsBelow(a, b, 2) + PartialProduct(a, b, 2) + PartialProduct(a, b, 3);
    assert RowsBelow(a, b, 6) == RowsBelow(a, b, 4) + PartialProduct(a, b, 4) + PartialProduct(a, b, 5);
  }

  /** The tree of carry-save adders, cut by a register in the middle, and the carry-select adder
      behind it multiply two 8-bit numbers exactly. */
  lemma MultiplierIsExact(a: nat, b: nat)
    requires a < 256 && b < 256
    ensures Added(Compressed(a, b)) == Times(a, b) < 0x1_0000
  {
    hide Compressed, Added, RowsBelow;
    CompressedIs(a, b);
    AddedIs(Compressed(a, b));
    RowsMultiply(a, b, 8);
    WholeByte(a);
    ByteProduct(a, b);
  }

  lemma WholeByte(a: nat)
    requires a < 256
    ensures Dropped(a, 8) == a
  {
    PowerOf8();
  }

  lemma ByteProduct(a: nat, b: nat)
    requires a < 256 && b < 256
    ensures a * b < 0x1_0000
  {
    ProductOrder(a, 255, b);
  }
}
