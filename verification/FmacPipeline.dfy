/** The four-register BF16 multiply-accumulate (examples/bf16_fmac/bf16_fmac.py) and the
    driver's reference for it (examples/bf16_fmac/driver.cpp). */
module FmacPipeline {
  import opened Bits
  import opened Scaling
  import opened FmacMultiplier

  datatype Operands = Operands(a: nat, b: nat, acc: nat)

  datatype Metadata = Metadata(
    prodSign: nat, prodExp: nat, accSign: nat, accExp: nat, accMant: nat, prodZero: bool, valid: bool)

  datatype Stage1 = Stage1(metadata: Metadata, rows: Rows)

  datatype Stage2 = Stage2(metadata: Metadata, prodMant: nat)

  datatype Stage3 = Stage3(sign: nat, exp: nat, mant: nat, valid: bool)

  const IDLE := Metadata(0, 0, 0, 0, 0, false, false)

  // ------------------------------------------------------------- fields of the inputs

  function Low5(x: int): nat { x % 32 }

  function Low8(x: int): nat { x % 256 }

  function Low10(x: int): nat { x % 1024 }

  function Low23(x: int): nat { x % 0x80_0000 }

  function Low26(x: int): nat { x % 0x400_0000 }

  predicate TopBit(product: nat) { product / 0x8000 % 2 == 1 }

  /** A binary32 word from its fields. */
  function Word32(sign: nat, exponent: nat, fraction: nat): nat {
    sign * 0x8000_0000 + exponent * 0x80_0000 + fraction
  }

  function Exponent16(x: nat): nat { x / 0x80 % 256 }

  function Exponent32(x: nat): nat { x / 0x80_0000 % 256 }

  /** Subnormals are flushed: an exponent of zero means a mantissa of zero. */
  function Mantissa16(x: nat): nat { if Exponent16(x) == 0 then 0 else 128 + x % 128 }

  function Mantissa32(x: nat): nat { if Exponent32(x) == 0 then 0 else 0x80_0000 + Low23(x) }

  function Sign16(x: nat): nat { x / 0x8000 % 2 }

  function Sign32(x: nat): nat { x / 0x8000_0000 % 2 }

  function MetadataOf(x: Operands, valid: bool): Metadata {
    Metadata(
      (Sign16(x.a) + Sign16(x.b)) % 2, Low10(Exponent16(x.a) + Exponent16(x.b) - 127), Sign32(x.acc), Exponent32(x.acc),
      Mantissa32(x.acc), Exponent16(x.a) == 0 || Exponent16(x.b) == 0, valid)
  }

  // --------------------------------------------------------------- the combinational stages

  function First(x: Operands, valid: bool): Stage1 {
    Stage1(MetadataOf(x, valid), Compressed(Mantissa16(x.a), Mantissa16(x.b)))
  }

  function Second(s: Stage1): Stage2 { Stage2(s.metadata, Added(s.rows)) }

  function RightStage(x: nat, bit: nat, power: nat): nat
    requires power > 0
  {
    if bit == 1 then Quotient(x, power) else x
  }

  function LeftStage(x: nat, bit: nat, power: nat): nat { if bit == 1 then Times(x, power) % 0x400_0000 else x }

  /** Shifts of 26 bits by stages of 1, 2, 4, 8 and 16. */
  function RightBarrel26(value: nat, amount: nat): nat {
    var s1 := RightStage(RightStage(value, amount % 2, 2), amount / 2 % 2, 4);
    var s3 := RightStage(RightStage(s1, amount / 4 % 2, 16), amount / 8 % 2, 256);
    RightStage(s3, amount / 16 % 2, 0x1_0000)
  }

  function LeftBarrel26(value: nat, amount: nat): nat {
    var s1 := LeftStage(LeftStage(value, amount % 2, 2), amount / 2 % 2, 4);
    var s3 := LeftStage(LeftStage(s1, amount / 4 % 2, 16), amount / 8 % 2, 256);
    LeftStage(s3, amount / 16 % 2, 0x1_0000)
  }

  datatype Alignment = Alignment(prodMant: nat, accMant: nat, shift: nat, prodBigger: bool, exp: nat)

  function Align(s: Stage2): Alignment {
    var msb := TopBit(s.prodMant);
    var mant := if msb then s.prodMant / 2 else s.prodMant;
    var exp := Low8(Low10(s.metadata.prodExp + if msb then 1 else 0));
    var bigger := exp > s.metadata.accExp;
    var diff := if bigger then exp - s.metadata.accExp else s.metadata.accExp - exp;
    Alignment(
      Low26(mant * 512), s.metadata.accMant, if diff > 26 then 26 else Low5(diff), bigger,
      if bigger then exp else s.metadata.accExp)
  }

  function Third(s: Stage2): Stage3 {
    var m, g := s.metadata, Align(s);
    var prod := if g.prodBigger then g.prodMant else RightBarrel26(g.prodMant, g.shift);
    var acc := if g.prodBigger then RightBarrel26(g.accMant, g.shift) else g.accMant;
    var same := m.prodSign == m.accSign;
    var difference := if prod >= acc then prod - acc else acc - prod;
    var sign := if same || prod >= acc then m.prodSign else m.accSign;
    Stage3(
      if m.prodZero then m.accSign else sign, if m.prodZero then m.accExp else g.exp,
      if m.prodZero then g.accMant else if same then Low26(prod + acc) else difference, m.valid)
  }

  /** Leading zeros of 26 bits, by the low-to-high priority chain. */
  function PriorityZeros(mant: nat, n: nat): nat
    requires n <= 26
  {
    if n == 0 then 26
    else if Shifted(mant, n - 1) % 2 == 1 then 26 - n
    else PriorityZeros(mant, n - 1)
  }

  /** The mantissa with its leading one at bit 23. */
  function Shifter(mant: nat, zeros: nat): nat {
    if Low5(zeros) > 2 then LeftBarrel26(mant, Low5(zeros - 2))
    else if Low5(zeros) < 2 then RightBarrel26(mant, Low5(2 - zeros))
    else mant
  }

  function Packed(s: Stage3): nat {
    var zeros := PriorityZeros(s.mant, 26);
    if s.mant == 0 then 0
    else Word32(s.sign, Low8(Low10(s.exp + 2 - zeros)), Low23(Shifter(s.mant, zeros)))
  }

  // ------------------------------------------------------------------- the reference

  function Max(x: nat, y: nat): nat { if x > y then x else y }

  datatype Sum = Sum(sign: nat, exponent: nat, magnitude: nat)

  /** The aligned sum of a product that is not zero and the accumulator. */
  function Accumulate(x: Operands): Sum {
    var ce := Exponent32(x.acc);
    var product := Times(128 + x.a % 128, 128 + x.b % 128);
    var high := TopBit(product);
    var exponent := Low8(Low10(Low10(Exponent16(x.a) + Exponent16(x.b) + 1024 - 127) + if high then 1 else 0));
    var pm := (if high then product / 2 else product) * 512;
    var cm := if ce != 0 then Low23(x.acc) + 0x80_0000 else 0;
    var distance := if exponent > ce then exponent - ce else ce - exponent;
    var shift := if distance > 26 then 26 else distance;
    var p := if exponent > ce then pm else Shifted(pm, shift);
    var c := if exponent > ce then Shifted(cm, shift) else cm;
    var ps, cs := (Sign16(x.a) + Sign16(x.b)) % 2, Sign32(x.acc);
    var magnitude := if ps == cs then Low26(p + c) else if p >= c then p - c else c - p;
    Sum(if ps == cs || p >= c then ps else cs, Max(exponent, ce), magnitude)
  }

  function Displacement(magnitude: nat): int
    requires magnitude > 0
  {
    Leading(magnitude) + 1 - 24
  }

  function Displaced(magnitude: nat, d: int): nat { if d > 0 then Shifted(magnitude, d) else Field(magnitude, -d) }

  /** The sum with its leading one at bit 23, cut to 23 bits. */
  function Normalize(s: Sum): nat {
    if s.magnitude == 0 then 0
    else
      var d := Displacement(s.magnitude);
      Word32(s.sign, Low8(s.exponent + 1024 + d), Low23(Displaced(s.magnitude, d)))
  }

  /** What one multiply-accumulate should give. */
  function Evaluate(x: Operands): nat {
    if Exponent16(x.a) == 0 || Exponent16(x.b) == 0 then
      (if Exponent32(x.acc) != 0 then x.acc % 0x1_0000_0000 else 0)
    else Normalize(Accumulate(x))
  }

  // ----------------------------------------------------------- the shifters and the priority chain

  lemma StagePowers()
    ensures Pow2(0) == 1 && Pow2(1) == 2 && Pow2(2) == 4 && Pow2(4) == 16 && Pow2(8) == 256 && Pow2(16) == 0x1_0000
    ensures Pow2(23) == 0x80_0000 && Pow2(24) == 0x100_0000 && Pow2(26) == 0x400_0000
  {
    assert Pow2(4) == 16 && Pow2(7) == 128;
    PowerOf8();
    PowerOf16();
    hide Pow2;
    Pow2Adds(16, 7);
    Pow2Next(23);
    Pow2Adds(24, 2);
  }

  function On(bit: nat, k: nat): nat { if bit == 1 then k else 0 }

  lemma RightStageIs(x: nat, bit: nat, k: nat, power: nat)
    requires Pow2(k) == power && Pow2(0) == 1
    ensures power > 0 && RightStage(x, bit, power) == Shifted(x, On(bit, k))
  {
  }

  lemma FiveBits(amount: nat)
    requires amount < 32
    ensures On(amount % 2, 1) + On(amount / 2 % 2, 2) + On(amount / 4 % 2, 4) + On(amount / 8 % 2, 8)
            + On(amount / 16 % 2, 16) == amount
  {
    assert amount / 4 == amount / 2 / 2;
    assert amount / 8 == amount / 4 / 2;
    assert amount / 16 == amount / 8 / 2;
  }

  lemma RightBarrelIs(value: nat, amount: nat)
    requires amount < 32
    ensures RightBarrel26(value, amount) == Shifted(value, amount)
  {
    hide Pow2, Shifted, RightStage, On;
    StagePowers();
    FiveBits(amount);
    var n0, n1, n2, n3, n4 := On(amount % 2, 1), On(amount / 2 % 2, 2), On(amount / 4 % 2, 4), On(amount / 8 % 2, 8),
                              On(amount / 16 % 2, 16);
    RightStageIs(value, amount % 2, 1, 2);
    RightStageIs(Shifted(value, n0), amount / 2 % 2, 2, 4);
    ShiftedShifted(value, n0, n1);
    RightStageIs(Shifted(value, n0 + n1), amount / 4 % 2, 4, 16);
    ShiftedShifted(value, n0 + n1, n2);
    RightStageIs(Shifted(value, n0 + n1 + n2), amount / 8 % 2, 8, 256);
    ShiftedShifted(value, n0 + n1 + n2, n3);
    RightStageIs(Shifted(value, n0 + n1 + n2 + n3), amount / 16 % 2, 16, 0x1_0000);
    ShiftedShifted(value, n0 + n1 + n2 + n3, n4);
  }

  lemma LeftStageIs(x: nat, bit: nat, k: nat, power: nat)
    requires Pow2(k) == power && Pow2(0) == 1 && 0 <= Scale(x, On(bit, k)) < 0x400_0000
    ensures LeftStage(x, bit, power) == Scale(x, On(bit, k))
  {
  }

  lemma ScaleMore(x: nat, m: nat, n: nat)
    ensures 0 <= Scale(x, m) <= Scale(x, m + n)
  {
    hide Pow2, Scale;
    ScaleZero(m);
    ScaleOrder(0, x, m);
    ScaleScale(x, m, n);
    Pow2Grows(0, n);
    ScaleGrows(Scale(x, m), n);
  }

  lemma ScaleGrows(x: nat, n: nat)
    ensures x <= Scale(x, n)
  {
    Pow2Grows(0, n);
    ProductOrder(1, Pow2(n), x);
  }

  /** With the leading one moved no higher than bit 25, the left shifter loses nothing. */
  lemma LeftBarrelIs(value: nat, amount: nat)
    requires amount < 32 && Scale(value, amount) < 0x400_0000
    ensures 0 <= Scale(value, amount) && LeftBarrel26(value, amount) == Scale(value, amount)
  {
    hide Pow2, Scale, LeftStage, On;
    StagePowers();
    FiveBits(amount);
    var n0, n1, n2, n3, n4 := On(amount % 2, 1), On(amount / 2 % 2, 2), On(amount / 4 % 2, 4), On(amount / 8 % 2, 8),
                              On(amount / 16 % 2, 16);
    ScaleMore(value, n0, n1 + n2 + n3 + n4);
    ScaleMore(value, n0 + n1, n2 + n3 + n4);
    ScaleMore(value, n0 + n1 + n2, n3 + n4);
    ScaleMore(value, n0 + n1 + n2 + n3, n4);
    ScaleMore(value, amount, 0);
    LeftStageIs(value, amount % 2, 1, 2);
    ScaleScale(value, n0, n1);
    LeftStageIs(Scale(value, n0), amount / 2 % 2, 2, 4);
    ScaleScale(value, n0 + n1, n2);
    LeftStageIs(Scale(value, n0 + n1), amount / 4 % 2, 4, 16);
    ScaleScale(value, n0 + n1 + n2, n3);
    LeftStageIs(Scale(value, n0 + n1 + n2), amount / 8 % 2, 8, 256);
    ScaleScale(value, n0 + n1 + n2 + n3, n4);
    LeftStageIs(Scale(value, n0 + n1 + n2 + n3), amount / 16 % 2, 16, 0x1_0000);
  }

  lemma {:induction false} PriorityIsLeading(mant: nat, n: nat)
    requires 0 < mant < Pow2(n) && n <= 26
    ensures PriorityZeros(mant, n) == 25 - Leading(mant)
  {
    hide Leading, Scale, Shifted, Pow2;
    StagePowers();
    Pow2Next(n - 1);
    ScaleOne(n - 1);
    if mant >= Pow2(n - 1) {
      LeadingUnique(mant, n - 1);
      SplitUnique(mant, n - 1, 1, mant - Pow2(n - 1));
    } else {
      ShiftedAway(mant, n - 1);
      PriorityIsLeading(mant, n - 1);
    }
  }

  // ------------------------------------------------------------- against the reference

  lemma ExponentWraps(exp: nat, d: int)
    ensures Low8(Low10(exp + d)) == Low8(exp + 1024 + d)
  {
    SplitResidue(exp + d, 256, 4);
  }

  lemma ShifterIs(mant: nat)
    requires 0 < mant < 0x400_0000
    ensures Displacement(mant) == 2 - PriorityZeros(mant, 26)
    ensures Shifter(mant, PriorityZeros(mant, 26)) == Displaced(mant, Displacement(mant))
  {
    hide Pow2, Scale, Shifted, LeftBarrel26, RightBarrel26, PriorityZeros, Leading, Low5;
    StagePowers();
    PriorityIsLeading(mant, 26);
    LeadingBelow(mant, 26);
    var d: int := Displacement(mant);
    Small5(2 - d);
    if d < 0 {
      ScaleOrder(mant, Pow2(24 + d), -d);
      ScalePow2(24 + d, -d);
      LeftBarrelIs(mant, -d);
      Small5(-d);
    } else if d > 0 {
      RightBarrelIs(mant, d);
      Small5(d);
    } else {
      ScaleByZero(mant);
    }
  }

  /** The priority chain and the two shifters normalize as the reference does. */
  lemma PackedIs(s: Stage3)
    requires s.mant < 0x400_0000
    ensures Packed(s) == Normalize(Sum(s.sign, s.exp, s.mant))
  {
    hide Shifter, Displaced, Displacement, PriorityZeros, Low8, Low10, Low23, Word32;
    if s.mant > 0 {
      ShifterIs(s.mant);
      ExponentWraps(s.exp, Displacement(s.mant));
    }
  }

  lemma Small5(x: int)
    requires 0 <= x < 32
    ensures Low5(x) == x
  {
  }

  lemma MantissaRange(x: nat)
    ensures Mantissa16(x) < 256 && Mantissa32(x) < 0x100_0000
  {
  }

  lemma BiasWraps(e: int)
    ensures Low10(e - 127) == Low10(e + 1024 - 127)
  {
  }

  lemma Fits26(mant: nat)
    requires mant < 0x8000
    ensures Low26(mant * 512) == mant * 512 < 0x100_0000
  {
  }

  lemma HalfFits(product: nat)
    requires product < 0x1_0000
    ensures (if TopBit(product) then product / 2 else product) < 0x8000
  {
  }

  /** A product that is not zero: the first three stages compute the reference's sum. */
  lemma StagesAccumulate(x: Operands, valid: bool)
    requires Exponent16(x.a) != 0 && Exponent16(x.b) != 0
    ensures var s := Third(Second(First(x, valid)));
            Sum(s.sign, s.exp, s.mant) == Accumulate(x) && s.valid == valid && s.mant < 0x400_0000
  {
    hide Exponent16, Exponent32, Sign16, Sign32, Shifted, RightBarrel26, Added, Compressed, Low5, Low8, Low10, Low23,
      Low26, Times, TopBit;
    MantissaRange(x.a);
    MantissaRange(x.b);
    MantissaRange(x.acc);
    var s := Second(First(x, valid));
    MultiplierIsExact(Mantissa16(x.a), Mantissa16(x.b));
    HalfFits(s.prodMant);
    Fits26(if TopBit(s.prodMant) then s.prodMant / 2 else s.prodMant);
    BiasWraps(Exponent16(x.a) + Exponent16(x.b));
    var g := Align(s);
    ShiftFits(s);
    RightBarrelIs(g.prodMant, g.shift);
    RightBarrelIs(g.accMant, g.shift);
    ShiftedAtMost(g.prodMant, g.shift);
    ShiftedAtMost(g.accMant, g.shift);
    var p := if g.prodBigger then g.prodMant else RightBarrel26(g.prodMant, g.shift);
    var c := if g.prodBigger then RightBarrel26(g.accMant, g.shift) else g.accMant;
    Below26(p + c);
  }

  lemma ShiftFits(s: Stage2)
    ensures var e := Low8(Low10(s.metadata.prodExp + if TopBit(s.prodMant) then 1 else 0));
            var diff := if e > s.metadata.accExp then e - s.metadata.accExp else s.metadata.accExp - e;
            Align(s).shift == (if diff > 26 then 26 else diff) <= 26
  {
    hide Low8, Low10, Low26, TopBit;
  }

  lemma Below26(y: int)
    ensures Low26(y) < 0x400_0000
  {
  }

  lemma ShiftedAtMost(x: nat, n: nat)
    ensures Shifted(x, n) <= x
  {
  }

  lemma ZeroProduct(x: Operands, valid: bool)
    requires Exponent16(x.a) == 0 || Exponent16(x.b) == 0
    ensures var s := Third(Second(First(x, valid)));
            Packed(s) == Evaluate(x) && s.valid == valid
  {
    hide Exponent16, Sign16, RightBarrel26, Added, Compressed, Packed, Normalize, Low8, Low10, Low23, Low26, Exponent32,
      Sign32;
    var s := Third(Second(First(x, valid)));
    MantissaRange(x.acc);
    PackedIs(s);
    AccumulatorBack(x.acc);
  }

  /** The accumulator's own fields, normalized, are the accumulator. */
  lemma AccumulatorBack(acc: nat)
    ensures Normalize(Sum(Sign32(acc), Exponent32(acc), Mantissa32(acc)))
         == if Exponent32(acc) != 0 then acc % 0x1_0000_0000 else 0
  {
    hide Pow2, Scale, Shifted, Leading, Low8, Low23, Word32, Exponent32;
    if Exponent32(acc) != 0 {
      StagePowers();
      var m := Mantissa32(acc);
      MantissaRange(acc);
      LeadingUnique(m, 23);
      ScaleByZero(m);
      SmallFields(acc);
      WordFields32(acc);
    }
  }

  lemma SmallFields(acc: nat)
    ensures Low8(Exponent32(acc) + 1024) == Exponent32(acc) && Low23(0x80_0000 + Low23(acc)) == Low23(acc)
  {
  }

  lemma WordFields32(acc: nat)
    ensures Word32(Sign32(acc), Exponent32(acc), Low23(acc)) == acc % 0x1_0000_0000
  {
    SplitResidue(acc, 0x80_0000, 512);
    NestedDivide(acc, 0x80_0000, 256);
    SplitResidue(acc / 0x80_0000, 256, 2);
  }

  /** The four combinational stages together compute the reference function, for every input. */
  lemma StagesEvaluate(x: Operands, valid: bool)
    ensures var s := Third(Second(First(x, valid))); Packed(s) == Evaluate(x) && s.valid == valid
  {
    hide First, Second, Third, Packed, Accumulate, Normalize;
    if Exponent16(x.a) == 0 || Exponent16(x.b) == 0 {
      ZeroProduct(x, valid);
    } else {
      StagesAccumulate(x, valid);
      PackedIs(Third(Second(First(x, valid))));
    }
  }
}
