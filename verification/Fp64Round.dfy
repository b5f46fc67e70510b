/** The binary64 rounding kernel (examples/functional_float/fp64_round.py). */
module Fp64Round {
  import opened Bits
  import opened Scaling
  import opened FloatValue
  import opened FloatFormats
  import opened FloatFused

  function ShiftBias13(magnitude: nat, lsb: nat): nat {
    var leading := LeadingOrZero(magnitude);
    var top := U13(lsb + leading);
    if top >= 3074 then U13(leading + 4044) else U13(leading + 7118 - top)
  }

  function RoundFp64(sign: nat, magnitude: nat, lsb: nat): FloatWord {
    var top := U13(lsb + LeadingOrZero(magnitude));
    var normal := top >= 3074;
    var rounding := RoundShifted(magnitude, ShiftBias13(magnitude, lsb));
    var normalCarry, subnormalCarry := Shifted(rounding.value, 53) % 2 == 1, Shifted(rounding.value, 52) % 2 == 1;
    var exponent :=
      if normal then U13(top - 3073 + (if normalCarry then 1 else 0)) else if subnormalCarry then 1 else 0;
    var carry := if normal then normalCarry else subnormalCarry;
    var overflow := exponent > 2046;
    var fraction := if carry || overflow then 0 else Dropped(rounding.value, 52);
    var zero := magnitude == 0 || rounding.value == 0;
    var packed := if zero then 0 else Field(if overflow then 2047 else exponent, 52) + fraction;
    FloatWord(
      Field(sign, 63) + packed, true, false, overflow, exponent == 0 && rounding.discarded,
      rounding.discarded || overflow, packed == 0, false)
  }

  lemma ShiftBias13Is(magnitude: nat, lsb: nat)
    requires magnitude > 0 && lsb + Leading(magnitude) < 0x2000 && Leading(magnitude) < 128
    ensures ShiftBias13(magnitude, lsb) == ShiftBias(BINARY64, magnitude, lsb)
  {
    hide Leading, U13, U14;
    var leading := Leading(magnitude);
    Small13(lsb + leading);
    Small14(lsb + leading);
    Small14(3074);
    Small13(leading + 4044);
    Small14(leading + 4044);
    if lsb + leading < 3074 {
      Small13(7118 - lsb);
      Small14(7118 - lsb);
    }
  }

  lemma UnwrappedRounds(sign: nat, magnitude: nat, lsb: nat)
    requires 0 < magnitude < Pow2(128) && lsb + Leading(magnitude) < 0x2000
    ensures RoundFp64(sign, magnitude, lsb) == PackFloat(sign, magnitude, lsb, BINARY64)
  {
    hide Scale, Pow2, Shifted, Dropped, RoundShifted, ShiftBias, Leading, ShiftBias13, U13, U14, RoundedWord,
      InfinityWord, AtMost;
    var leading := Leading(magnitude);
    LeadingBelow(magnitude, 128);
    ShiftBias13Is(magnitude, lsb);
    Small13(lsb + leading);
    Small14(lsb + leading);
    Small14(3074);
    if lsb + leading >= 3074 {
      Small13(lsb + leading - 3073);
      Small13(lsb + leading - 3072);
      Small14(lsb + leading - 3073);
      Small14(lsb + leading - 3072);
    }
    PackIs(sign, magnitude, lsb, BINARY64);
    ZeroResult(magnitude, lsb);
  }

  lemma ZeroResult(magnitude: nat, lsb: nat)
    requires 0 < magnitude < Pow2(128) && lsb < 8192
    ensures var n := RoundedWord(BINARY64, magnitude, lsb);
            n == 0 <==> AtMost(n, InfinityWord(BINARY64)) == 0
  {
    InfinityPositive(BINARY64);
  }

  /** A leading one past 13 bits wraps to the bottom of the scale: the magnitude is shifted away,
      and a zero with an underflow stands where the value overflows. */
  lemma WrappedRounds(sign: nat, magnitude: nat, lsb: nat)
    requires 0 < magnitude < Pow2(128) && lsb < 0x2000 <= lsb + Leading(magnitude)
    ensures var r := RoundFp64(sign, magnitude, lsb);
            r.result == Field(sign, 63) && !r.overflow && r.underflow && r.inexact && r.zero
    ensures PackFloat(sign, magnitude, lsb, BINARY64).overflow
  {
    hide Scale, Pow2, Shifted, Dropped, Leading, RoundShifted, ShiftBias;
    LeadingBelow(magnitude, 128);
    assert ShiftBias13(magnitude, lsb) == 15310 - lsb;
    FarShift(magnitude, 15310 - lsb);
    ZeroShift(52);
    ZeroShift(53);
  }

  lemma FarShift(magnitude: nat, shiftBias: nat)
    requires 0 < magnitude < Pow2(128) && 4096 + 300 < shiftBias < 0x2000
    ensures RoundShifted(magnitude, shiftBias) == Rounding(0, true)
  {
    hide Pow2, Shifted, Dropped, LowBits;
    Pow2Grows(128, 255);
    ShiftedAway(magnitude, 255);
    ZeroShift(128);
  }

  lemma ZeroRounds(sign: nat, lsb: nat)
    requires lsb < 0x2000
    ensures var r, c := RoundFp64(sign, 0, lsb), PackFloat(sign, 0, lsb, BINARY64);
            && r.overflow == r.inexact == (lsb >= 5120) && !c.overflow
            && c == r.(overflow := false, inexact := false)
  {
    hide Pow2, Scale, Shifted, Dropped, ShiftBias13, ShiftBias;
    forall n: nat ensures Shifted(0, n) == 0 && Dropped(0, n) == 0 && Field(0, n) == 0 { ZeroShift(n); }
  }

  /** This kernel packs as the common packer does exactly when its 13-bit scale of the leading one
      does not wrap, and exactly below the overflow threshold for a zero. */
  lemma RoundFp64Is(sign: nat, magnitude: nat, lsb: nat)
    requires magnitude < Pow2(128) && lsb < 0x2000
    ensures RoundFp64(sign, magnitude, lsb) == PackFloat(sign, magnitude, lsb, BINARY64)
       <==> if magnitude == 0 then lsb < 5120 else lsb + Leading(magnitude) < 0x2000
  {
    hide Pow2, Leading, RoundFp64, PackFloat;
    if magnitude == 0 {
      ZeroRounds(sign, lsb);
    } else if lsb + Leading(magnitude) < 0x2000 {
      UnwrappedRounds(sign, magnitude, lsb);
    } else {
      WrappedRounds(sign, magnitude, lsb);
    }
  }
}
