/** The binary32 rounding kernel (examples/functional_float/fp32_product.py): barrel shifters that
    collect the bits they drop, and round-to-nearest-even packing of a 64-bit magnitude. */
module Fp32Round {
  import opened Bits
  import opened Scaling
  import opened FloatValue
  import opened FloatFormats

  // -------------------------------------------------------------- barrel shifters

  function Bit(x: nat, k: nat): nat { Shifted(x, k) % 2 }

  /** One stage more: a shift by a then by b is a shift by a + b, and drops what either drops. */
  lemma BarrelStage(value: nat, a: nat, b: nat)
    ensures Shifted(Shifted(value, a), b) == Shifted(value, a + b)
    ensures Dropped(value, a + b) != 0 <==> Dropped(value, a) != 0 || Dropped(Shifted(value, a), b) != 0
  {
    hide Scale, Pow2, Shifted, Dropped;
    var v := Shifted(value, a);
    SplitAt(value, a);
    SplitAt(v, b);
    SplitAt(value, a + b);
    ShiftedShifted(value, a, b);
    ScaleAdds(Scale(Shifted(v, b), b), Dropped(v, b), a);
    ScaleScale(Shifted(v, b), b, a);
    ScaleZero(a);
    ScaleOrder(0, Dropped(v, b), a);
  }

  /** The low k + 1 bits of an amount, from the low k. */
  lemma AmountStage(amount: nat, k: nat)
    ensures Dropped(amount, k + 1) == Dropped(amount, k) + (if Bit(amount, k) == 1 then Pow2(k) else 0)
  {
    hide Scale, Pow2, Shifted, Dropped;
    GuardSplit(amount, k + 1);
    BitScale(Bit(amount, k), k);
    ScaleZero(k);
    ScaleOne(k);
  }

  /** The seven-stage right barrel is a right shift, and its sticky bit says whether anything
      nonzero was shifted out. */
  method ComputeRightBarrel64(value: nat, amount: nat) returns (shifted: nat, sticky: bool)
    requires value < Pow2(64) && amount < Pow2(7)
    ensures shifted == Shifted(value, amount)
    ensures sticky == (Dropped(value, amount) != 0)
  {
    hide Scale, Pow2, Shifted, Dropped;
    shifted, sticky := value, false;
    BarrelStart(value, amount);
    shifted, sticky := RightStage(value, amount, shifted, sticky, 0);
    shifted, sticky := RightStage(value, amount, shifted, sticky, 1);
    shifted, sticky := RightStage(value, amount, shifted, sticky, 2);
    shifted, sticky := RightStage(value, amount, shifted, sticky, 3);
    shifted, sticky := RightStage(value, amount, shifted, sticky, 4);
    shifted, sticky := RightStage(value, amount, shifted, sticky, 5);
    // Bit 6 clears the whole word.
    var discarded := shifted != 0;
    BarrelLast(value, amount, shifted);
    if Bit(amount, 6) == 1 {
      shifted, sticky := 0, sticky || discarded;
    }
    ShiftedAway(amount, 7);
  }

  /** Stage k of the right barrel. */
  method RightStage(ghost value: nat, amount: nat, shifted: nat, sticky: bool, k: nat)
    returns (shifted': nat, sticky': bool)
    requires shifted == Shifted(value, Dropped(amount, k)) && sticky == (Dropped(value, Dropped(amount, k)) != 0)
    ensures shifted' == Shifted(value, Dropped(amount, k + 1))
    ensures sticky' == (Dropped(value, Dropped(amount, k + 1)) != 0)
  {
    hide Scale, Pow2, Shifted, Dropped;
    shifted', sticky' := shifted, sticky;
    AmountStage(amount, k);
    BarrelStage(value, Dropped(amount, k), Pow2(k));
    if Bit(amount, k) == 1 {
      var discarded := Dropped(shifted, Pow2(k)) != 0;
      shifted' := Shifted(shifted, Pow2(k));
      sticky' := sticky || discarded;
    }
  }

  lemma BarrelStart(value: nat, amount: nat)
    ensures Dropped(amount, 0) == 0 && Shifted(value, 0) == value && Dropped(value, 0) == 0
  {
  }

  /** A shift by 64 more leaves nothing of a 64-bit word and drops all of it. */
  lemma BarrelLast(value: nat, amount: nat, shifted: nat)
    requires value < Pow2(64) && shifted == Shifted(value, Dropped(amount, 6))
    ensures var a := Dropped(amount, 6);
            && Dropped(amount, 7) == (if Bit(amount, 6) == 1 then a + 64 else a)
            && Shifted(value, a + 64) == 0
            && (Dropped(value, a + 64) != 0 <==> Dropped(value, a) != 0 || shifted != 0)
  {
    hide Scale, Shifted, Dropped;
    AmountStage(amount, 6);
    assert Pow2(6) == 64;
    hide Pow2;
    var a := Dropped(amount, 6);
    BarrelStage(value, a, 64);
    Pow2Grows(64, 64 + a);
    ShiftedBelow(value, 64, a);
    ShiftedAway(shifted, 64);
  }

  /** The five-stage left barrel is a left shift within 64 bits. */
  method ComputeLeftBarrel64(value: nat, amount: nat) returns (shifted: nat)
    requires value < Pow2(64) && amount < Pow2(5)
    ensures shifted == LowBits(value, amount, 64)
  {
    hide Scale, Pow2, Shifted, Dropped, LowBits;
    shifted := value;
    BarrelStart(value, amount);
    LeftStart(value);
    shifted := LeftStage(value, amount, shifted, 0);
    shifted := LeftStage(value, amount, shifted, 1);
    shifted := LeftStage(value, amount, shifted, 2);
    shifted := LeftStage(value, amount, shifted, 3);
    shifted := LeftStage(value, amount, shifted, 4);
    ShiftedAway(amount, 5);
  }

  /** Stage k of the left barrel. */
  method LeftStage(ghost value: nat, amount: nat, shifted: nat, k: nat) returns (shifted': nat)
    requires shifted == LowBits(value, Dropped(amount, k), 64)
    ensures shifted' == LowBits(value, Dropped(amount, k + 1), 64)
  {
    hide Scale, Pow2, Shifted, Dropped, LowBits;
    shifted' := shifted;
    AmountStage(amount, k);
    if Bit(amount, k) == 1 {
      shifted' := LowBits(shifted, Pow2(k), 64);
      LeftLeft(value, Dropped(amount, k), Pow2(k), 64);
    }
  }

  lemma LeftStart(value: nat)
    requires value < Pow2(64)
    ensures LowBits(value, 0, 64) == value
  {
    hide Scale, Pow2;
    ScaleByZero(value);
  }

  /** Bits lost to the top of a word would have been lost to any further left shift. */
  lemma LeftLeft(value: nat, a: nat, b: nat, width: nat)
    ensures LowBits(LowBits(value, a, width), b, width) == LowBits(value, a + b, width)
  {
    hide Scale, Pow2, Shifted, Dropped;
    var x := Field(value, a);
    var q, low := Shifted(x, width), Dropped(x, width);
    LowIsDropped(value, a, width);
    LowIsDropped(low, b, width);
    LowIsDropped(value, a + b, width);
    SplitAt(x, width);
    ScaleScale(value, a, b);
    ScaleAdds(Scale(q, width), low, b);
    ScaleScale(q, width, b);
    ScaleScale(q, b, width);
    var y := Field(low, b);
    SplitAt(y, width);
    ScaleAdds(Scale(q, b), Shifted(y, width), width);
    ScaleZero(b);
    ScaleOrder(0, q, b);
    SplitUnique(Field(value, a + b), width, Scale(q, b) + Shifted(y, width), Dropped(y, width));
  }

  lemma LowIsDropped(x: nat, a: nat, width: nat)
    ensures LowBits(x, a, width) == Dropped(Field(x, a), width)
  {
  }

  // ---------------------------------------------------------------------- packing

  function U11(x: int): nat { x % 0x800 }

  datatype Rounded = Rounded(result: nat, overflow: bool, underflow: bool, inexact: bool, zero: bool)

  function ShiftBias11(magnitude: nat, lsb: nat): nat {
    var leading := LeadingOrZero(magnitude);
    var top := U11(lsb + leading);
    if top >= 386 then U11(leading + 489) else U11(leading + 875 - top)
  }

  /** Guard, round and sticky bits from the barrel, and the incremented significand; lines 171 to 200. */
  function RoundBarrel(magnitude: nat, shiftBias: nat): Rounding {
    var right := shiftBias >= 512;
    var right11 := if right then U11(shiftBias - 512) else 0;
    var left11 := if !right then U11(512 - shiftBias) else 0;
    var truncated :=
      if right then Shifted(magnitude, AtMost(right11, 127)) else LowBits(magnitude, AtMost(left11, 31), 64);
    var guard := right && right11 >= 1 && Bit(magnitude, AtMost(U11(right11 - 1), 127)) == 1;
    var round := right && right11 >= 2 && Bit(magnitude, AtMost(U11(right11 - 2), 127)) == 1;
    var sticky := right && Dropped(magnitude, AtMost(if right11 >= 2 then U11(right11 - 2) else 0, 127)) != 0;
    Rounding(
      Dropped(truncated + (if guard && (round || sticky || truncated % 2 == 1) then 1 else 0), 64),
      right && (guard || round || sticky))
  }

  /** The exponent field before overflow is looked at; lines 202 to 208. */
  function ExponentField(top: nat, significand: nat): nat {
    var normalCarry, subnormalCarry := Bit(significand, 24) == 1, Bit(significand, 23) == 1;
    if top >= 386 then U11(top - 385 + (if normalCarry then 1 else 0)) else if subnormalCarry then 1 else 0
  }

  function FractionField(top: nat, significand: nat): nat {
    var carry := if top >= 386 then Bit(significand, 24) == 1 else Bit(significand, 23) == 1;
    if carry then 0 else Dropped(significand, 23)
  }

  function RoundPack(sign: nat, magnitude: nat, lsb: nat): Rounded {
    var top := U11(lsb + LeadingOrZero(magnitude));
    var rounding := RoundBarrel(magnitude, ShiftBias11(magnitude, lsb));
    var exponent := ExponentField(top, rounding.value);
    var overflow := exponent > 254;
    var packed := if overflow then Field(255, 23) else Field(exponent % 256, 23) + FractionField(top, rounding.value);
    var zero := magnitude == 0 || rounding.value == 0;
    Rounded(
      Field(sign, 31) + (if zero then 0 else packed),
      overflow, exponent == 0 && rounding.discarded, rounding.discarded || overflow, zero)
  }

  /** The biased shift, in the shared scale: 3584 more than the 512 this kernel counts from. */
  lemma ShiftBias11Is(magnitude: nat, lsb: nat)
    requires magnitude > 0 && lsb + Leading(magnitude) < 0x800 && Leading(magnitude) < 64
    ensures ShiftBias11(magnitude, lsb) == 512 + 363 + Binade(BINARY32, magnitude, lsb + 3584) - lsb
    ensures lsb <= 386 + Binade(BINARY32, magnitude, lsb + 3584)
    ensures 363 + Binade(BINARY32, magnitude, lsb + 3584) - lsb < 1024
    ensures Base(BINARY32) == 3947
  {
    hide Leading;
  }

  lemma NearShift(magnitude: nat, amount: nat)
    requires magnitude < Pow2(64)
    ensures Shifted(magnitude, AtMost(amount, 127)) == Shifted(magnitude, amount)
    ensures Dropped(magnitude, AtMost(amount, 127)) == Dropped(magnitude, amount)
  {
    hide Pow2, Shifted, Dropped;
    if amount > 127 {
      Pow2Grows(64, 127);
      Pow2Grows(64, amount);
      ShiftedAway(magnitude, 127);
      ShiftedAway(magnitude, amount);
    }
  }

  /** Guard, round and sticky together decide as guard and everything below it. */
  lemma RoundBarrelRight(magnitude: nat, s: nat)
    requires magnitude < Pow2(64) && 0 < s < 1024
    ensures RoundBarrel(magnitude, 512 + s)
            == Rounding(Dropped(NearestEven(magnitude, s), 64), Dropped(magnitude, s) != 0)
  {
    hide Scale, Pow2, Shifted, Dropped, LowBits;
    NearShift(magnitude, s);
    NearShift(magnitude, s - 1);
    GuardSplit(magnitude, s);
    GuardNonzero(Bit(magnitude, s - 1), Dropped(magnitude, s - 1), s - 1);
    if s == 1 {
      BarrelStart(magnitude, 0);
    } else {
      NearShift(magnitude, s - 2);
      GuardSplit(magnitude, s - 1);
      GuardNonzero(Bit(magnitude, s - 2), Dropped(magnitude, s - 2), s - 2);
    }
  }

  lemma RoundBarrelLeft(magnitude: nat, k: nat)
    requires k <= 31 && Scale(magnitude, k) < Pow2(64)
    ensures RoundBarrel(magnitude, 512 - k) == Rounding(Field(magnitude, k), false)
  {
    hide Scale, Pow2, Shifted, Dropped, LowBits;
    BarrelStart(magnitude, 0);
    ScaleByZero(magnitude);
    FitsWord(magnitude, k, 64);
    ShiftedAway(Field(magnitude, k), 64);
  }

  lemma RoundBarrelIs(magnitude: nat, lsb: nat)
    requires 0 < magnitude < Pow2(64) && lsb + Leading(magnitude) < 0x800
    ensures var place := 363 + Binade(BINARY32, magnitude, lsb + 3584);
            RoundBarrel(magnitude, ShiftBias11(magnitude, lsb))
            == Rounding(Quanta(BINARY32, magnitude, lsb + 3584), lsb < place && Dropped(magnitude, place - lsb) != 0)
  {
    hide Scale, Pow2, Shifted, Dropped, Binade, Base, ShiftBias11, Leading, LowBits, RoundBarrel, NearestEven;
    LeadingBelow(magnitude, 64);
    ShiftBias11Is(magnitude, lsb);
    var place, t := 363 + Binade(BINARY32, magnitude, lsb + 3584), Quanta(BINARY32, magnitude, lsb + 3584);
    QuantaRange(BINARY32, magnitude, lsb + 3584);
    Pow2Order(24, 64);
    ShiftedAway(t, 64);
    if lsb < place {
      RoundBarrelRight(magnitude, place - lsb);
    } else {
      RoundBarrelLeft(magnitude, lsb - place);
    }
  }

  lemma FieldsAgree(magnitude: nat, lsb: nat) returns (field: nat, fraction: nat)
    requires 0 < magnitude < Pow2(64) && lsb + Leading(magnitude) < 0x800
    ensures var top, t := U11(lsb + Leading(magnitude)), Quanta(BINARY32, magnitude, lsb + 3584);
            && field == ExponentField(top, t) && fraction == FractionField(top, t)
            && (t == 0 <==> RoundedWord(BINARY32, magnitude, lsb + 3584) == 0)
    ensures fraction < Pow2(23) && Scale(field, 23) + fraction == RoundedWord(BINARY32, magnitude, lsb + 3584)
  {
    hide Scale, Pow2, Shifted, Dropped, Leading, Quanta, RoundedWord;
    LeadingBelow(magnitude, 64);
    Pow2Order(64, 128);
    field, fraction := PackedFields(BINARY32, magnitude, lsb + 3584);
  }

  /** What packing owes: the binary32 word nearest to magnitude * 2^(lsb - 512), ties to even, or
      infinity past the largest finite one, and the flags of that rounding. */
  predicate Packs(r: Rounded, sign: nat, magnitude: nat, lsb: nat) {
    var n := RoundedWord(BINARY32, magnitude, lsb + 3584);
    && r.result == Signed(BINARY32, sign, AtMost(n, InfinityWord(BINARY32)))
    && r.overflow == (n >= InfinityWord(BINARY32))
    && r.zero == (n == 0)
    && r.inexact == (r.overflow || Value(BINARY32, n) != Scale(magnitude, lsb + 3584))
    && r.underflow == (n < Pow2(23) && Value(BINARY32, n) != Scale(magnitude, lsb + 3584))
  }

  lemma UnwrappedPacks(sign: nat, magnitude: nat, lsb: nat)
    requires 0 < magnitude < Pow2(64) && lsb + Leading(magnitude) < 0x800
    ensures Packs(RoundPack(sign, magnitude, lsb), sign, magnitude, lsb)
  {
    hide Scale, Pow2, Shifted, Dropped, Binade, Base, ShiftBias11, Leading, RoundBarrel, Quanta, RoundedWord,
      InfinityWord, Value, ExponentField, FractionField, U11;
    LeadingBelow(magnitude, 64);
    ShiftBias11Is(magnitude, lsb);
    RoundBarrelIs(magnitude, lsb);
    var field, fraction := FieldsAgree(magnitude, lsb);
    InfinityIs(BINARY32, field, fraction);
    ExactIffNothingDropped(BINARY32, magnitude, lsb + 3584);
    ScaleZero(23);
    ScaleOne(23);
    ScaleOrder(1, field, 23);
  }

  /** A leading one past 11 bits wraps to the bottom of the scale, and the magnitude is shifted away. */
  lemma WrappedPacks(sign: nat, magnitude: nat, lsb: nat)
    requires 0 < magnitude < Pow2(64) && lsb < 0x800 <= lsb + Leading(magnitude)
    ensures var r := RoundPack(sign, magnitude, lsb);
            r.result == Field(sign, 31) && !r.overflow && r.underflow && r.inexact && r.zero
    ensures RoundedWord(BINARY32, magnitude, lsb + 3584) >= InfinityWord(BINARY32)
  {
    hide Scale, Pow2, Shifted, Dropped, Leading, RoundBarrel, NearestEven, Quanta;
    LeadingBelow(magnitude, 64);
    var s := 2411 - lsb;
    assert ShiftBias11(magnitude, lsb) == 512 + s;
    RoundBarrelRight(magnitude, s);
    Pow2Grows(64, s);
    Pow2Grows(64, s - 1);
    ShiftedAway(magnitude, s);
    ShiftedAway(magnitude, s - 1);
    assert NearestEven(magnitude, s) == 0 by { FarNearest(magnitude, s); }
    ZeroShift(64);
    ZeroShift(24);
    ZeroShift(23);
    var binade := Binade(BINARY32, magnitude, lsb + 3584);
    ScaleOrder(255, binade, 23);
    ScaleIs(255, 23);
  }

  lemma FarNearest(magnitude: nat, s: nat)
    requires s > 0 && magnitude < Pow2(s - 1)
    ensures NearestEven(magnitude, s) == 0
  {
    hide Pow2, Shifted, Dropped;
    Pow2Next(s - 1);
    ShiftedAway(magnitude, s);
    ShiftedAway(magnitude, s - 1);
  }

  /** Packing meets that exactly when its 11-bit scale of the leading one does not wrap, and exactly
      below the overflow threshold for a zero. */
  lemma RoundPackIs(sign: nat, magnitude: nat, lsb: nat)
    requires magnitude < Pow2(64) && lsb < 0x800
    ensures Packs(RoundPack(sign, magnitude, lsb), sign, magnitude, lsb)
       <==> if magnitude == 0 then lsb < 640 else lsb + Leading(magnitude) < 0x800
  {
    hide Pow2, Leading, RoundPack, RoundedWord, InfinityWord, Value, Scale;
    if magnitude == 0 {
      RoundPackZero(sign, lsb);
      RoundedOfZero(BINARY32, lsb + 3584);
      ScaleZero(lsb + 3584);
      ValueZero(BINARY32);
      InfinityPositive(BINARY32);
    } else if lsb + Leading(magnitude) < 0x800 {
      UnwrappedPacks(sign, magnitude, lsb);
    } else {
      WrappedPacks(sign, magnitude, lsb);
    }
  }

  lemma RoundBarrelZero(shiftBias: nat)
    ensures RoundBarrel(0, shiftBias) == Rounding(0, false)
  {
    hide Pow2, Scale, Shifted, Dropped, U11;
    forall n: nat ensures Shifted(0, n) == 0 && Dropped(0, n) == 0 && Field(0, n) == 0 { ZeroShift(n); }
  }

  /** A zero magnitude packs to a signed zero, and a scale that would overflow still says so. */
  lemma RoundPackZero(sign: nat, lsb: nat)
    requires lsb < 0x800
    ensures var r := RoundPack(sign, 0, lsb);
            && r.result == Field(sign, 31) && !r.underflow && r.zero
            && r.overflow == r.inexact == (lsb >= 640)
  {
    hide Pow2, Scale, Shifted, Dropped, RoundBarrel, ShiftBias11;
    RoundBarrelZero(ShiftBias11(0, lsb));
    ZeroShift(24);
    ZeroShift(23);
  }
}
