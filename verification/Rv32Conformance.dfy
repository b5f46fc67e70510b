/** The core's decoder and datapath implement the instruction set. */
module Rv32Conformance {
  import opened Bits
  import opened Rv32Types
  import opened Rv32Decoder
  import opened Rv32Arithmetic
  import opened Rv32Machine
  import opened Rv32Isa
  import opened Rv32Reference

  // ------------------------------------------------------ immediates and operators

  lemma ExtensionIsWrap(field: nat, range: nat)
    requires field < range <= TWO_32 && range % 2 == 0
    ensures ToWord(Rv32Isa.Signed(field, range)) == if field >= range / 2 then field + (TWO_32 - range) else field
  {
  }

  lemma ImmediateIIs(w: Word)
    ensures ImmediateI(w) == ToWord(OffsetI(Cut(w)))
  {
    var f := Cut(w);
    assert w / 0x10_0000 == f.funct7 * 32 + f.rs2 by { assert w / 0x10_0000 / 32 == w / 0x200_0000; }
    ExtensionIsWrap(f.funct7 * 32 + f.rs2, 0x1000);
  }

  lemma ImmediateSIs(w: Word)
    ensures ImmediateS(w) == ToWord(OffsetS(Cut(w)))
  {
    var f := Cut(w);
    ExtensionIsWrap(f.funct7 * 32 + f.rd, 0x1000);
  }

  lemma SignExtendedIs(w: Word, field: nat, range: nat)
    requires field < range <= TWO_32 && range % 2 == 0 && Negative(w) == (field >= range / 2)
    ensures SignExtended(w, field, TWO_32 - range) == ToWord(Rv32Isa.Signed(field, range))
  {
    ExtensionIsWrap(field, range);
  }

  lemma BranchFieldIs(w: Word)
    ensures BranchField(w) == BranchOffset(Cut(w))
  {
    NestedDivide(w, 0x200_0000, 64);
    SplitResidue(w / 0x80, 2, 16);
    NestedDivide(w, 0x80, 2);
  }

  lemma BranchFieldSign(w: Word)
    ensures Negative(w) == (BranchField(w) >= 0x1000)
  {
  }

  lemma ImmediateBIs(w: Word)
    ensures ImmediateB(w) == ToWord(OffsetB(Cut(w)))
  {
    hide Rv32Isa.Signed, ToWord, SignExtended, BranchField, BranchOffset, Cut, Negative;
    BranchFieldIs(w);
    BranchFieldSign(w);
    SignExtendedIs(w, BranchField(w), 0x2000);
  }

  lemma JumpFieldIs(w: Word)
    ensures JumpField(w) == JumpOffset(w / 0x1000)
  {
    NestedDivide(w, 0x1000, 0x8_0000);
    NestedDivide(w, 0x1000, 0x100);
    NestedDivide(w, 0x1000, 0x200);
  }

  lemma JumpFieldSign(w: Word)
    ensures Negative(w) == (JumpField(w) >= 0x10_0000)
  {
  }

  lemma ImmediateJIs(w: Word)
    ensures ImmediateJ(w) == ToWord(OffsetJ(Cut(w)))
  {
    hide Rv32Isa.Signed, ToWord, SignExtended, JumpOffset, Cut, Upper, Negative, JumpField;
    UpperIs(w);
    JumpFieldIs(w);
    JumpFieldSign(w);
    SignExtendedIs(w, JumpField(w), 0x20_0000);
  }

  lemma UpperIs(w: Word)
    ensures Upper(Cut(w)) == w / 0x1000
  {
    NestedDivide(w, 0x1000, 8);
    NestedDivide(w, 0x8000, 32);
    NestedDivide(w, 0x10_0000, 32);
  }

  lemma ImmediateUIs(w: Word)
    ensures ImmediateU(w) == ToWord(0x1000 * Upper(Cut(w)))
  {
    hide Upper, Cut;
    UpperIs(w);
  }

  lemma SignedLessIs(a: Word, b: Word)
    ensures SignedLess(a, b) == (ToSigned(a) < ToSigned(b))
  {
  }

  lemma {:induction false} LogicalSums(a: nat, b: nat, n: nat)
    requires a < Pow2(n) && b < Pow2(n)
    ensures Bitwise(Both, a, b, n) == Common(a, b, n)
    ensures Bitwise(Either, a, b, n) == a + b - Common(a, b, n)
    ensures Bitwise(Differ, a, b, n) == a + b - 2 * Common(a, b, n)
    decreases n
  {
    if n != 0 {
      LogicalSums(a / 2, b / 2, n - 1);
      BitProduct(a % 2, b % 2);
    }
  }

  lemma BitProduct(x: nat, y: nat)
    requires x < 2 && y < 2
    ensures x * y == if x == 1 && y == 1 then 1 else 0
  {
  }

  lemma LogicalIs(a: Word, b: Word)
    ensures BitAnd(a, b) == AluResult(AND, a, b)
    ensures BitOr(a, b) == AluResult(OR, a, b)
    ensures BitXor(a, b) == AluResult(XOR, a, b)
  {
    hide Bitwise, Common, Pow2;
    Pow2Of32();
    LogicalSums(a, b, 32);
  }

  function BitAt(x: nat, k: nat): nat { x / Pow2(k) % 2 }

  /** The three logical operations, bit by bit: the product, the larger, and the sum modulo two. */
  lemma LogicalBits(a: Word, b: Word, k: nat)
    requires k < 32
    ensures BitAt(AluResult(AND, a, b), k) == BitAt(a, k) * BitAt(b, k)
    ensures BitAt(AluResult(OR, a, b), k) == if BitAt(a, k) > BitAt(b, k) then BitAt(a, k) else BitAt(b, k)
    ensures BitAt(AluResult(XOR, a, b), k) == (BitAt(a, k) + BitAt(b, k)) % 2
  {
    hide Bitwise, Common, Pow2, AluResult;
    LogicalIs(a, b);
    BitwiseBit(Both, a, b, 32, k);
    BitwiseBit(Either, a, b, 32, k);
    BitwiseBit(Differ, a, b, 32, k);
  }

  /** Addition splits into the bits that differ and the bits in common. */
  lemma LogicalAdds(a: Word, b: Word)
    ensures AluResult(XOR, a, b) + 2 * AluResult(AND, a, b) == a + b
    ensures AluResult(OR, a, b) + AluResult(AND, a, b) == a + b
  {
    hide Bitwise, Common, Pow2, AluResult;
    Pow2Of32();
    LogicalSums(a, b, 32);
    LogicalIs(a, b);
  }

  /** The sign fill of a shift by 0 < n < 32. */
  lemma FillIs(a: Word, n: nat)
    requires a >= 0x8000_0000 && 0 < n < 32
    ensures SignFill(a, n) == TWO_32 - Pow2(32 - n)
    ensures Pow2(n) * Pow2(32 - n) == TWO_32
  {
    Pow2Of32();
    Pow2Adds(n, 32 - n);
    var t := Pow2(32 - n);
    assert 1 <= t <= TWO_32 by { ProductOrder(1, Pow2(n), t); }
    assert 0xFFFF_FFFF * t == (TWO_32 - t) + TWO_32 * (t - 1);
    DivideUnique(TWO_32 - t, t - 1, TWO_32);
  }

  lemma PlainShiftIs(a: Word, n: nat)
    requires n < 32 && (a < 0x8000_0000 || n == 0)
    ensures ShiftRightArithmetic(a, n) == ToWord(ToSigned(a) / Pow2(n))
  {
    hide BitOr, Bitwise;
    OrZeroIs(ShiftRight(a, n));
    if n != 0 {
      hide Pow2;
      assert ShiftRightArithmetic(a, n) == a / Pow2(n);
      QuotientShrinks(a, Pow2(n));
    }
  }

  lemma FilledShiftIs(a: Word, n: nat)
    requires a >= 0x8000_0000 && 0 < n < 32
    ensures ShiftRightArithmetic(a, n) == ToWord(ToSigned(a) / Pow2(n))
  {
    hide Pow2, Bitwise, SignFill;
    var d, t := Pow2(n), Pow2(32 - n);
    FillIs(a, n);
    var low := a / d;
    QuotientBelow(a, d, t);
    assert t * (d - 1) == TWO_32 - t;
    Pow2Of32();
    OrDisjoint(low, d - 1, 32 - n, 32);
    assert ShiftRightArithmetic(a, n) == low + (TWO_32 - t);
    QuotientMinus(a, d, t);
  }

  /** The shifted word ORed with the sign fill is the signed quotient, rounded down. */
  lemma ArithmeticShiftIs(a: Word, n: nat)
    requires n < 32
    ensures ShiftRightArithmetic(a, n) == ToWord(ToSigned(a) / Pow2(n))
  {
    hide Pow2, ShiftRightArithmetic, ToWord, ToSigned;
    if a < 0x8000_0000 || n == 0 { PlainShiftIs(a, n); } else { FilledShiftIs(a, n); }
  }

  lemma OrZeroIs(x: Word)
    ensures BitOr(x, 0) == x
  {
    Pow2Of32();
    OrDisjoint(x, 0, 32, 32);
  }

  lemma QuotientBelow(a: nat, d: nat, t: nat)
    requires d > 0 && a < d * t
    ensures a / d < t
  {
    if a / d >= t { ProductOrder(t, a / d, d); }
  }

  lemma QuotientMinus(a: nat, d: nat, t: nat)
    requires d > 0
    ensures (a - d * t) / d == a / d - t
  {
    assert a - d * t == a % d + d * (a / d - t);
    DivideUnique(a % d, a / d - t, d);
  }

  // ----------------------------------------------------------------- byte lanes

  function WidthOfSize(size: nat): nat { if size == 0 then 1 else if size == 1 then 2 else 4 }

  /** The byte `k` places above an address inside the same word. */
  lemma ByteAbove(memory: DataMemory, address: Word, k: nat)
    requires address % 4 + k < 4
    ensures ToWord(address + k) == address + k
    ensures ByteAt(memory, ToWord(address + k))
         == ReadWord(memory, WordAddress(address)) / LanePower(address % 4 + k) % 256
  {
    var q := address / 4;
    DivideUnique(address % 4 + k, q, 4);
  }

  lemma LanePowerNext(x: nat, lane: nat)
    requires lane < 3
    ensures x / LanePower(lane) / 256 == x / LanePower(lane + 1)
  {
    NestedDivide(x, LanePower(lane), 256);
  }

  lemma RawHalfIs(memory: DataMemory, address: Word)
    requires address % 2 == 0
    ensures RawLoad(ReadWord(memory, WordAddress(address)), address, 1) == BytesAt(memory, address, 2)
  {
    hide ReadWord, WordAddress, ToWord;
    var lane, data := address % 4, ReadWord(memory, WordAddress(address));
    assert lane < 3;
    ByteAbove(memory, address, 1);
    LanePowerNext(data, lane);
    SplitResidue(data / LanePower(lane), 256, 256);
    assert LaneScale(address) == LanePower(lane);
    hide LanePower, LaneScale;
  }

  lemma RawWordIs(memory: DataMemory, address: Word)
    requires address % 4 == 0
    ensures RawLoad(ReadWord(memory, WordAddress(address)), address, 2) == BytesAt(memory, address, 4)
  {
    hide ReadWord, WordAddress, ToWord, ByteAt, RawLoad;
    var data := ReadWord(memory, WordAddress(address));
    FourBytes(memory, address);
    WordBytes(data);
    RawLoadOfWord(data, address);
  }

  lemma RawLoadOfWord(data: Word, address: Word)
    requires address % 4 == 0
    ensures RawLoad(data, address, 2) == data
  {
  }

  lemma FourBytes(memory: DataMemory, address: Word)
    requires address % 4 == 0
    ensures var data := ReadWord(memory, WordAddress(address));
            && ByteAt(memory, address) == data % 256
            && ByteAt(memory, ToWord(address + 1)) == data / 0x100 % 256
            && ByteAt(memory, ToWord(address + 2)) == data / 0x1_0000 % 256
            && ByteAt(memory, ToWord(address + 3)) == data / 0x100_0000 % 256
  {
    hide ReadWord, WordAddress, ToWord;
    assert ByteAt(memory, address) == ReadWord(memory, WordAddress(address)) % 256;
    hide ByteAt;
    ByteAbove(memory, address, 1);
    ByteAbove(memory, address, 2);
    ByteAbove(memory, address, 3);
  }

  lemma RawLoadIs(memory: DataMemory, address: Word, size: nat)
    requires size < 3 && !Misaligned(address, WidthOfSize(size))
    ensures RawLoad(ReadWord(memory, WordAddress(address)), address, size)
            == BytesAt(memory, address, WidthOfSize(size))
  {
    hide ReadWord, WordAddress, ToWord;
    if size == 1 {
      RawHalfIs(memory, address);
    } else if size == 2 {
      RawWordIs(memory, address);
    }
  }

  lemma WordBytes(x: Word)
    ensures x == x % 256 + 0x100 * (x / 0x100 % 256) + 0x1_0000 * (x / 0x1_0000 % 256)
            + 0x100_0000 * (x / 0x100_0000 % 256)
  {
    NestedDivide(x, 0x100, 0x100);
    NestedDivide(x, 0x1_0000, 0x100);
  }

  lemma ReadLoadIs(data: Word, address: Word, size: nat, signed: bool)
    requires size < 3 && !Misaligned(address, WidthOfSize(size))
    ensures ReadLoad(data, address, size, signed) == Extended(RawLoad(data, address, size), WidthOfSize(size), signed)
  {
    var raw := RawLoad(data, address, size);
    ExtensionIsWrap(raw, WidthRange(WidthOfSize(size)));
  }

  lemma MaskIs(address: Word, size: nat)
    requires size < 3 && !Misaligned(address, WidthOfSize(size))
    ensures ByteMask(size, address) == LaneMask(address, WidthOfSize(size))
  {
    if size == 1 { LaneOfEven(address); }
    hide Misaligned;
  }

  lemma LaneOfEven(address: Word)
    requires address % 2 == 0
    ensures address % 4 == 0 || address % 4 == 2
  {
  }

  /** Byte lanes the mask leaves out of a write do not matter. */
  lemma MergeReadsMask(word: Word, data: Word, data': Word, mask: nat)
    requires mask / 1 % 2 == 1 ==> data / 1 % 256 == data' / 1 % 256
    requires mask / 2 % 2 == 1 ==> data / 0x100 % 256 == data' / 0x100 % 256
    requires mask / 4 % 2 == 1 ==> data / 0x1_0000 % 256 == data' / 0x1_0000 % 256
    requires mask / 8 % 2 == 1 ==> data / 0x100_0000 % 256 == data' / 0x100_0000 % 256
    ensures Merge(word, data, mask) == Merge(word, data', mask)
  {
  }

  lemma ScaledResidue(v: nat, p: nat, r: nat)
    requires p > 0 && r > 0
    ensures p * r > 0 && (v * p) % (p * r) == p * (v % r)
  {
    assert p * r > 0 by { ProductOrder(1, p, r); }
    assert v * p == p * (v % r) + (p * r) * (v / r) by {
      assert v == r * (v / r) + v % r;
      assert (r * (v / r)) * p == (p * r) * (v / r);
    }
    assert p * (v % r) <= p * r - p by { ProductOrder(v % r, r - 1, p); }
    DivideUnique(p * (v % r), v / r, p * r);
  }

  /** Byte `j` of a stored value lands `j` lanes above the addressed one. */
  lemma StoredByte(v: nat, lane: nat, j: nat)
    requires lane + j < 4
    ensures (v * LanePower(lane)) % TWO_32 / LanePower(lane + j) % 256 == v / LanePower(j) % 256
  {
    var p, q, r := LanePower(lane), LanePower(j), LanePower(3 - lane) * 256;
    assert p * r == TWO_32 && LanePower(lane + j) == p * q;
    ScaledResidue(v, p, r);
    var x := v % r;
    NestedDivide(p * x, p, q);
    DivideUnique(0, x, p);
    assert r == q * (256 * LanePower(3 - lane - j));
    SplitResidue(v, q, 256 * LanePower(3 - lane - j));
    SplitResidue(v / q, 256, LanePower(3 - lane - j));
  }

  lemma CutByte(v: Word, width: nat, j: nat)
    requires j < width && (width == 1 || width == 2 || width == 4)
    ensures v % WidthRange(width) / LanePower(j) % 256 == v / LanePower(j) % 256
  {
    if width == 2 { SplitResidue(v, 256, 256); }
  }

  lemma MaskedLanes(address: Word, size: nat)
    requires size < 3 && !Misaligned(address, WidthOfSize(size))
    ensures var mask, lane, width := LaneMask(address, WidthOfSize(size)), address % 4, WidthOfSize(size);
            && (mask / 1 % 2 == 1 <==> lane <= 0 < lane + width)
            && (mask / 2 % 2 == 1 <==> lane <= 1 < lane + width)
            && (mask / 4 % 2 == 1 <==> lane <= 2 < lane + width)
            && (mask / 8 % 2 == 1 <==> lane <= 3 < lane + width)
  {
  }

  lemma LaneAgrees(value: Word, address: Word, width: nat, lane: nat)
    requires address % 4 <= lane < address % 4 + width && lane < 4 && (width == 1 || width == 2 || width == 4)
    ensures (value * LanePower(address % 4)) % TWO_32 / LanePower(lane) % 256
         == (value % WidthRange(width) * LanePower(address % 4)) % TWO_32 / LanePower(lane) % 256
  {
    hide LanePower, WidthRange;
    StoredByte(value, address % 4, lane - address % 4);
    StoredByte(value % WidthRange(width), address % 4, lane - address % 4);
    CutByte(value, width, lane - address % 4);
  }

  lemma StoreLanesAgree(word: Word, value: Word, address: Word, size: nat)
    requires size < 3 && !Misaligned(address, WidthOfSize(size))
    ensures Merge(word, StoreLanes(value, address), LaneMask(address, WidthOfSize(size)))
         == Merge(word, (value % WidthRange(WidthOfSize(size)) * LanePower(address % 4)) % TWO_32,
                  LaneMask(address, WidthOfSize(size)))
  {
    hide Merge, WidthRange, LaneMask;
    var lane, width := address % 4, WidthOfSize(size);
    assert LaneScale(address) == LanePower(lane);
    hide LaneScale;
    MaskedLanes(address, size);
    if lane <= 0 < lane + width { LaneAgrees(value, address, width, 0); }
    if lane <= 1 < lane + width { LaneAgrees(value, address, width, 1); }
    if lane <= 2 < lane + width { LaneAgrees(value, address, width, 2); }
    if lane <= 3 < lane + width { LaneAgrees(value, address, width, 3); }
    MergeReadsMask(word, StoreLanes(value, address), (value % WidthRange(width) * LanePower(lane)) % TWO_32,
                   LaneMask(address, width));
  }

  /** The lanes of a word assembled from four bytes. */
  lemma LanesOfSum(b0: nat, b1: nat, b2: nat, b3: nat)
    requires b0 < 256 && b1 < 256 && b2 < 256 && b3 < 256
    ensures var x := b0 + 0x100 * b1 + 0x1_0000 * b2 + 0x100_0000 * b3;
            x % 256 == b0 && x / 0x100 % 256 == b1 && x / 0x1_0000 % 256 == b2 && x / 0x100_0000 % 256 == b3
  {
    DivideUnique(b0, b1 + 0x100 * b2 + 0x1_0000 * b3, 256);
    DivideUnique(b1, b2 + 0x100 * b3, 256);
    DivideUnique(b0 + 0x100 * b1, b2 + 0x100 * b3, 0x1_0000);
    DivideUnique(b2, b3, 256);
    DivideUnique(b0 + 0x100 * b1 + 0x1_0000 * b2, b3, 0x100_0000);
  }

  /** Lane `l` of a merged word comes from the data where the access covers it, else from the word. */
  lemma MergedLane(word: Word, data: Word, address: Word, size: nat, l: nat)
    requires size < 3 && !Misaligned(address, WidthOfSize(size)) && l < 4
    ensures var lane, width := address % 4, WidthOfSize(size);
            Merge(word, data, LaneMask(address, width)) / LanePower(l) % 256
            == (if lane <= l < lane + width then data else word) / LanePower(l) % 256
  {
    hide LaneMask;
    MaskedLanes(address, size);
    var mask := LaneMask(address, WidthOfSize(size));
    LanesOfSum(MergedByte(word, data, mask, 1, 1), MergedByte(word, data, mask, 0x100, 2),
               MergedByte(word, data, mask, 0x1_0000, 4), MergedByte(word, data, mask, 0x100_0000, 8));
  }

  lemma InsideWord(address: Word, b: Word, size: nat)
    requires size < 3 && !Misaligned(address, WidthOfSize(size))
    ensures var width := WidthOfSize(size);
            address <= b < address + width
            <==> WordAddress(b) == WordAddress(address) && address % 4 <= b % 4 < address % 4 + width
    ensures WordAddress(b) == WordAddress(address) ==> b - address == b % 4 - address % 4
  {
    assert address % 4 + WidthOfSize(size) <= 4;
    InsideLanes(address / 4, address % 4, b / 4, b % 4, WidthOfSize(size));
  }

  lemma InsideLanes(q: int, lane: int, q': int, l: int, width: nat)
    requires 0 <= lane && lane + width <= 4 && 0 <= l < 4
    ensures 4 * q + lane <= 4 * q' + l < 4 * q + lane + width <==> q == q' && lane <= l < lane + width
  {
  }

  /** A store replaces exactly the addressed bytes, lowest byte first, and no others. */
  lemma StoreWritesBytes(memory: DataMemory, address: Word, size: nat, data: nat, b: Word)
    requires size < 3 && !Misaligned(address, WidthOfSize(size))
    ensures ByteAt(MemoryWith(memory, Write(address, WidthOfSize(size), data)), b)
         == if address <= b < address + WidthOfSize(size)
            then data / LanePower(b - address) % 256 else ByteAt(memory, b)
  {
    hide Merge, LaneMask, LanePower, WordAddress, WidthOfSize;
    var lane, l := address % 4, b % 4;
    var value := (data * LanePower(lane)) % TWO_32;
    InsideWord(address, b, size);
    if WordAddress(b) == WordAddress(address) {
      MergedLane(ReadWord(memory, WordAddress(address)), value, address, size, l);
      if lane <= l { StoredByte(data, lane, l - lane); }
    }
  }
}
