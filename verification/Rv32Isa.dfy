/** The RV32I base instruction set (chapter 2 of the RISC-V Unprivileged ISA), written from its
    format tables and integer semantics, without reference to how the core computes them:
    an instruction type, its 32-bit encoding and the effect of each instruction. */
module Rv32Isa {
  import opened Bits
  import opened Options
  import opened Rv32Types

  datatype AluOp = ADD | SUB | SLL | SLT | SLTU | XOR | SRL | SRA | OR | AND

  datatype Comparison = EQ | NE | LT | GE | LTU | GEU

  /** Immediates and offsets are signed integers; `raw` is the part of a FENCE the base ignores. */
  datatype Instruction =
    | Lui(rd: Register, upper: nat)
    | Auipc(rd: Register, upper: nat)
    | Jal(rd: Register, offset: int)
    | Jalr(rd: Register, rs1: Register, offset: int)
    | Branch(comparison: Comparison, rs1: Register, rs2: Register, offset: int)
    | Load(width: nat, signed: bool, rd: Register, rs1: Register, offset: int)
    | Store(width: nat, rs1: Register, rs2: Register, offset: int)
    | OpImm(op: AluOp, rd: Register, rs1: Register, imm: int)
    | Op(op: AluOp, rd: Register, rs1: Register, rs2: Register)
    | Fence(rd: Register, rs1: Register, raw: nat)
    | Ecall
    | Ebreak

  /** A field of `bits` two's-complement bits, given 2^bits. */
  function Signed(field: nat, range: nat): int
    requires field < range
  {
    if field >= range / 2 then field - range else field
  }

  predicate Fits(value: int, range: nat) { -(range / 2) <= value < range / 2 }

  predicate Shift(op: AluOp) { op.SLL? || op.SRL? || op.SRA? }

  predicate Valid(i: Instruction) {
    match i
    case Lui(_, upper) => upper < 0x10_0000
    case Auipc(_, upper) => upper < 0x10_0000
    case Jal(_, offset) => Fits(offset, 0x20_0000) && offset % 2 == 0
    case Jalr(_, _, offset) => Fits(offset, 0x1000)
    case Branch(_, _, _, offset) => Fits(offset, 0x2000) && offset % 2 == 0
    case Load(width, signed, _, _, offset) =>
      (width == 1 || width == 2 || (width == 4 && signed)) && Fits(offset, 0x1000)
    case Store(width, _, _, offset) => (width == 1 || width == 2 || width == 4) && Fits(offset, 0x1000)
    case OpImm(op, _, _, imm) => !op.SUB? && (if Shift(op) then 0 <= imm < 32 else Fits(imm, 0x1000))
    case Fence(_, _, raw) => raw < 0x1000
    case _ => true
  }

  // ------------------------------------------------------------------- encoding

  function AluFunct3(op: AluOp): nat {
    match op
    case ADD => 0
    case SUB => 0
    case SLL => 1
    case SLT => 2
    case SLTU => 3
    case XOR => 4
    case SRL => 5
    case SRA => 5
    case OR => 6
    case AND => 7
  }

  function AluFunct7(op: AluOp): nat { if op.SUB? || op.SRA? then 32 else 0 }

  function ComparisonFunct3(c: Comparison): nat {
    match c
    case EQ => 0
    case NE => 1
    case LT => 4
    case GE => 5
    case LTU => 6
    case GEU => 7
  }

  function WidthFunct3(width: nat, signed: bool): nat {
    (if width == 1 then 0 else if width == 2 then 1 else 2) + (if signed then 0 else 4)
  }

  /** The six fields every format is cut from, lowest first. */
  datatype Fields = Fields(opcode: nat, rd: nat, funct3: nat, rs1: nat, rs2: nat, funct7: nat)

  predicate InRange(f: Fields) {
    f.opcode < 128 && f.rd < 32 && f.funct3 < 8 && f.rs1 < 32 && f.rs2 < 32 && f.funct7 < 128
  }

  function Assemble(f: Fields): Word
    requires InRange(f)
  {
    f.opcode + 0x80 * f.rd + 0x1000 * f.funct3 + 0x8000 * f.rs1 + 0x10_0000 * f.rs2 + 0x200_0000 * f.funct7
  }

  function FormatI(opcode: nat, funct3: nat, rd: nat, rs1: nat, imm: int): Fields {
    Fields(opcode, rd, funct3, rs1, imm % 32, imm % 0x1000 / 32)
  }

  function FormatS(opcode: nat, funct3: nat, rs1: nat, rs2: nat, imm: int): Fields {
    Fields(opcode, imm % 32, funct3, rs1, rs2, imm % 0x1000 / 32)
  }

  /** Bit 11 of the offset sits in bit 7, bit 12 in bit 31. */
  function FormatB(funct3: nat, rs1: nat, rs2: nat, offset: int): Fields {
    var u := offset % 0x2000;
    Fields(99, u / 2 % 16 * 2 + u / 0x800 % 2, funct3, rs1, rs2, u / 0x1000 * 64 + u / 32 % 64)
  }

  function FormatU(opcode: nat, rd: nat, upper: nat): Fields {
    Fields(opcode, rd, upper % 8, upper / 8 % 32, upper / 256 % 32, upper / 0x2000)
  }

  /** Bits 20, 10..1, 11 and 19..12 of the offset, highest first. */
  function FormatJ(rd: nat, offset: int): Fields {
    var u := offset % 0x20_0000;
    FormatU(111, rd, JumpUpper(u))
  }

  function FieldsOf(i: Instruction): Fields {
    match i
    case Lui(rd, upper) => FormatU(55, rd, upper)
    case Auipc(rd, upper) => FormatU(23, rd, upper)
    case Jal(rd, offset) => FormatJ(rd, offset)
    case Jalr(rd, rs1, offset) => FormatI(103, 0, rd, rs1, offset)
    case Branch(c, rs1, rs2, offset) => FormatB(ComparisonFunct3(c), rs1, rs2, offset)
    case Load(width, signed, rd, rs1, offset) => FormatI(3, WidthFunct3(width, signed), rd, rs1, offset)
    case Store(width, rs1, rs2, offset) => FormatS(35, WidthFunct3(width, true), rs1, rs2, offset)
    case OpImm(op, rd, rs1, imm) =>
      if Shift(op) then Fields(19, rd, AluFunct3(op), rs1, imm % 32, AluFunct7(op))
      else FormatI(19, AluFunct3(op), rd, rs1, imm)
    case Op(op, rd, rs1, rs2) => Fields(51, rd, AluFunct3(op), rs1, rs2, AluFunct7(op))
    case Fence(rd, rs1, raw) => FormatI(15, 0, rd, rs1, raw)
    case Ecall => Fields(115, 0, 0, 0, 0, 0)
    case Ebreak => Fields(115, 0, 0, 0, 1, 0)
  }

  lemma FieldsInRange(i: Instruction)
    requires Valid(i)
    ensures InRange(FieldsOf(i))
  {
    hide FormatB, FormatJ, FormatU;
    match i {
      case Lui(rd, upper) => UpperInRange(55, rd, upper);
      case Auipc(rd, upper) => UpperInRange(23, rd, upper);
      case Jal(rd, offset) => JumpInRange(rd, offset);
      case Branch(c, rs1, rs2, offset) => BranchInRange(ComparisonFunct3(c), rs1, rs2, offset);
      case _ =>
    }
  }

  lemma UpperInRange(opcode: nat, rd: nat, upper: nat)
    requires opcode < 128 && rd < 32 && upper < 0x10_0000
    ensures InRange(FormatU(opcode, rd, upper))
  {
  }

  lemma JumpInRange(rd: nat, offset: int)
    requires rd < 32
    ensures InRange(FormatJ(rd, offset))
  {
    hide FormatU;
    var u := offset % 0x20_0000;
    assert JumpUpper(u) < 0x10_0000;
    UpperInRange(111, rd, JumpUpper(u));
  }

  lemma BranchInRange(funct3: nat, rs1: nat, rs2: nat, offset: int)
    requires funct3 < 8 && rs1 < 32 && rs2 < 32
    ensures InRange(FormatB(funct3, rs1, rs2, offset))
  {
    var u := offset % 0x2000;
    assert u / 0x1000 < 2;
  }

  function Encode(i: Instruction): Word
    requires Valid(i)
  {
    FieldsInRange(i);
    Assemble(FieldsOf(i))
  }

  // ------------------------------------------------------------------- decoding

  /** The six fields of a word. */
  function Cut(w: Word): (f: Fields)
    ensures InRange(f)
  {
    Fields(w % 128, w / 0x80 % 32, w / 0x1000 % 8, w / 0x8000 % 32, w / 0x10_0000 % 32, w / 0x200_0000)
  }

  function OffsetI(f: Fields): int
    requires InRange(f)
  {
    Signed(f.funct7 * 32 + f.rs2, 0x1000)
  }

  function OffsetS(f: Fields): int
    requires InRange(f)
  {
    Signed(f.funct7 * 32 + f.rd, 0x1000)
  }

  function BranchOffset(f: Fields): (r: nat)
    requires InRange(f)
    ensures r < 0x2000
  {
    f.funct7 / 64 * 0x1000 + f.rd % 2 * 0x800 + f.funct7 % 64 * 32 + f.rd / 2 * 2
  }

  function OffsetB(f: Fields): int
    requires InRange(f)
  {
    Signed(BranchOffset(f), 0x2000)
  }

  function Upper(f: Fields): (u: nat)
    requires InRange(f)
    ensures u < 0x10_0000
  {
    f.funct7 * 0x2000 + f.rs2 * 256 + f.rs1 * 8 + f.funct3
  }

  function OffsetJ(f: Fields): int
    requires InRange(f)
  {
    JumpBitsBack(Upper(f));
    Signed(JumpOffset(Upper(f)), 0x20_0000)
  }

  function AluOf(funct3: nat, alternate: bool): AluOp {
    match funct3
    case 0 => if alternate then SUB else ADD
    case 1 => SLL
    case 2 => SLT
    case 3 => SLTU
    case 4 => XOR
    case 5 => if alternate then SRA else SRL
    case 6 => OR
    case _ => AND
  }

  function ComparisonOf(funct3: nat): Comparison {
    match funct3
    case 0 => EQ
    case 1 => NE
    case 4 => LT
    case 5 => GE
    case 6 => LTU
    case _ => GEU
  }

  function WidthOf(funct3: nat): nat { if funct3 % 4 == 0 then 1 else if funct3 % 4 == 1 then 2 else 4 }

  /** The instruction the fields spell, if any. */
  function Meaning(f: Fields): Option<Instruction>
    requires InRange(f)
  {
    var funct3 := f.funct3;
    match f.opcode
    case 55 => Some(Lui(f.rd, Upper(f)))
    case 23 => Some(Auipc(f.rd, Upper(f)))
    case 111 => Some(Jal(f.rd, OffsetJ(f)))
    case 103 => if funct3 == 0 then Some(Jalr(f.rd, f.rs1, OffsetI(f))) else None
    case 99 => if funct3 == 2 || funct3 == 3 then None else Some(Branch(ComparisonOf(funct3), f.rs1, f.rs2, OffsetB(f)))
    case 3 =>
      if funct3 == 3 || funct3 > 5 then None
      else Some(Load(WidthOf(funct3), funct3 < 4, f.rd, f.rs1, OffsetI(f)))
    case 35 => if funct3 > 2 then None else Some(Store(WidthOf(funct3), f.rs1, f.rs2, OffsetS(f)))
    case 19 =>
      var op := AluOf(funct3, funct3 == 5 && f.funct7 == 32);
      if !Shift(op) then Some(OpImm(op, f.rd, f.rs1, OffsetI(f)))
      else if f.funct7 == AluFunct7(op) then Some(OpImm(op, f.rd, f.rs1, f.rs2))
      else None
    case 51 =>
      var op := AluOf(funct3, f.funct7 == 32);
      if f.funct7 == AluFunct7(op) then Some(Op(op, f.rd, f.rs1, f.rs2)) else None
    case 15 => if funct3 == 0 then Some(Fence(f.rd, f.rs1, f.funct7 * 32 + f.rs2)) else None
    case 115 =>
      if f == Fields(115, 0, 0, 0, 0, 0) then Some(Ecall)
      else if f == Fields(115, 0, 0, 0, 1, 0) then Some(Ebreak)
      else None
    case _ => None
  }

  lemma CutAssemble(f: Fields)
    requires InRange(f)
    ensures Cut(Assemble(f)) == f
  {
    var w := Assemble(f);
    var h5 := f.funct7;
    var h4 := f.rs2 + 32 * h5;
    var h3 := f.rs1 + 32 * h4;
    var h2 := f.funct3 + 8 * h3;
    var h1 := f.rd + 32 * h2;
    assert w == f.opcode + 0x80 * h1;
    DivideUnique(f.opcode, h1, 0x80);
    DivideUnique(f.rd, h2, 32);
    DivideUnique(f.opcode + 0x80 * f.rd, h2, 0x1000);
    DivideUnique(f.funct3, h3, 8);
    DivideUnique(f.opcode + 0x80 * f.rd + 0x1000 * f.funct3, h3, 0x8000);
    DivideUnique(f.rs1, h4, 32);
    DivideUnique(f.opcode + 0x80 * f.rd + 0x1000 * f.funct3 + 0x8000 * f.rs1, h4, 0x10_0000);
    DivideUnique(f.rs2, h5, 32);
    DivideUnique(f.opcode + 0x80 * f.rd + 0x1000 * f.funct3 + 0x8000 * f.rs1 + 0x10_0000 * f.rs2, h5, 0x200_0000);
  }

  lemma AssembleCut(w: Word)
    ensures Assemble(Cut(w)) == w
  {
    var f := Cut(w);
    assert w / 0x1000 == w / 0x80 / 32;
    assert w / 0x8000 == w / 0x1000 / 8;
    assert w / 0x10_0000 == w / 0x8000 / 32;
    assert w / 0x200_0000 == w / 0x10_0000 / 32;
  }

  // Each immediate survives being cut into fields, and each cut is read back.

  lemma SignedFits(field: nat, range: nat)
    requires field < range && range % 2 == 0
    ensures Fits(Signed(field, range), range)
    ensures Signed(field, range) % range == field
  {
    var v := Signed(field, range);
    if v < 0 { DivideUnique(field, -1, range); } else { DivideUnique(field, 0, range); }
  }

  lemma SignedOfResidue(imm: int, range: nat)
    requires range > 0 && range % 2 == 0 && Fits(imm, range)
    ensures Signed(imm % range, range) == imm
  {
    if imm < 0 { DivideUnique(imm + range, -1, range); } else { DivideUnique(imm, 0, range); }
  }

  lemma TwelveBits(imm: int)
    requires Fits(imm, 0x1000)
    ensures Signed(imm % 0x1000 / 32 * 32 + imm % 32, 0x1000) == imm
  {
    SignedOfResidue(imm, 0x1000);
    assert imm % 0x1000 % 32 == imm % 32;
  }

  lemma TwelveBitsBack(high: nat, low: nat)
    requires high < 128 && low < 32
    ensures var imm := Signed(high * 32 + low, 0x1000);
            Fits(imm, 0x1000) && imm % 32 == low && imm % 0x1000 / 32 == high
  {
    SignedFits(high * 32 + low, 0x1000);
    DivideUnique(low, high, 32);
  }

  /** Offset bits 4..1, 10..5, 11 and 12 of a branch, as fields and as a number. */
  function BranchNumber(b4: nat, b10: nat, b11: nat, b12: nat): nat { 2 * b4 + 32 * b10 + 0x800 * b11 + 0x1000 * b12 }

  lemma BranchSlices(b4: nat, b10: nat, b11: nat, b12: nat)
    requires b4 < 16 && b10 < 64 && b11 < 2 && b12 < 2
    ensures var u := BranchNumber(b4, b10, b11, b12);
            && u < 0x2000 && u % 2 == 0
            && u / 2 % 16 == b4 && u / 32 % 64 == b10 && u / 0x800 % 2 == b11 && u / 0x1000 == b12
  {
    var h11 := b11 + 2 * b12;
    var h10 := b10 + 64 * h11;
    DivideUnique(0, b4 + 16 * h10, 2);
    DivideUnique(b4, h10, 16);
    DivideUnique(2 * b4, h10, 32);
    DivideUnique(b10, h11, 64);
    DivideUnique(2 * b4 + 32 * b10, h11, 0x800);
    DivideUnique(b11, b12, 2);
    DivideUnique(2 * b4 + 32 * b10 + 0x800 * b11, b12, 0x1000);
  }

  lemma BranchWhole(u: nat)
    requires u < 0x2000 && u % 2 == 0
    ensures u == BranchNumber(u / 2 % 16, u / 32 % 64, u / 0x800 % 2, u / 0x1000)
  {
    assert u / 2 / 16 == u / 32;
    assert u / 32 / 64 == u / 0x800;
    assert u / 0x800 / 2 == u / 0x1000;
  }

  lemma BranchGathered(u: nat)
    requires u < 0x2000 && u % 2 == 0
    ensures var rd, funct7 := u / 2 % 16 * 2 + u / 0x800 % 2, u / 0x1000 * 64 + u / 32 % 64;
            funct7 / 64 * 0x1000 + rd % 2 * 0x800 + funct7 % 64 * 32 + rd / 2 * 2 == u
  {
    BranchWhole(u);
    DivideUnique(u / 0x800 % 2, u / 2 % 16, 2);
    DivideUnique(u / 32 % 64, u / 0x1000, 64);
  }

  lemma BranchBits(f: Fields, imm: int)
    requires Fits(imm, 0x2000) && imm % 2 == 0 && f == FormatB(f.funct3, f.rs1, f.rs2, imm) && InRange(f)
    ensures OffsetB(f) == imm
  {
    var u := imm % 0x2000;
    EvenResidue(imm);
    BranchOffsetOf(f, u);
    SignedOfResidue(imm, 0x2000);
    hide Signed, FormatB, BranchOffset;
  }

  lemma BranchOffsetOf(f: Fields, u: nat)
    requires InRange(f) && u < 0x2000 && u % 2 == 0
    requires f.rd == u / 2 % 16 * 2 + u / 0x800 % 2 && f.funct7 == u / 0x1000 * 64 + u / 32 % 64
    ensures BranchOffset(f) == u
  {
    BranchGathered(u);
  }

  lemma EvenResidue(imm: int)
    requires imm % 2 == 0
    ensures imm % 0x2000 % 2 == 0
  {
    SplitResidue(imm, 2, 0x1000);
  }

  lemma BranchBitsBack(f: Fields)
    requires InRange(f) && f.opcode == 99
    ensures Fits(OffsetB(f), 0x2000) && OffsetB(f) % 2 == 0
    ensures FormatB(f.funct3, f.rs1, f.rs2, OffsetB(f)) == f
  {
    var b4, b11, b10, b12 := f.rd / 2, f.rd % 2, f.funct7 % 64, f.funct7 / 64;
    BranchSlices(b4, b10, b11, b12);
    SignedFits(BranchNumber(b4, b10, b11, b12), 0x2000);
  }

  lemma UpperBack(opcode: nat, rd: nat, upper: nat)
    requires upper < 0x10_0000 && opcode < 128 && rd < 32
    ensures Upper(FormatU(opcode, rd, upper)) == upper
  {
    assert upper / 8 / 32 == upper / 256;
    assert upper / 256 / 32 == upper / 0x2000;
  }

  lemma UpperCut(f: Fields)
    requires InRange(f)
    ensures FormatU(f.opcode, f.rd, Upper(f)) == f
  {
    DivideUnique(f.funct3, f.rs1 + 32 * (f.rs2 + 32 * f.funct7), 8);
    DivideUnique(f.rs1, f.rs2 + 32 * f.funct7, 32);
    DivideUnique(f.funct3 + 8 * f.rs1, f.rs2 + 32 * f.funct7, 256);
    DivideUnique(f.rs2, f.funct7, 32);
    DivideUnique(f.funct3 + 8 * f.rs1 + 256 * f.rs2, f.funct7, 0x2000);
  }

  /** The offset bits of a jump, reordered into the upper field and back. */
  function JumpUpper(u: nat): nat {
    u / 0x10_0000 * 0x8_0000 + u / 2 % 0x400 * 0x200 + u / 0x800 % 2 * 0x100 + u / 0x1000 % 0x100
  }

  function JumpOffset(t: nat): nat {
    t / 0x8_0000 * 0x10_0000 + t % 0x100 * 0x1000 + t / 0x100 % 2 * 0x800 + t / 0x200 % 0x400 * 2
  }

  lemma JumpOffsetSlices(b10: nat, b11: nat, b12: nat, b20: nat)
    requires b10 < 0x400 && b11 < 2 && b12 < 0x100 && b20 < 2
    ensures var u := 2 * b10 + 0x800 * b11 + 0x1000 * b12 + 0x10_0000 * b20;
            && u % 2 == 0 && u / 2 % 0x400 == b10 && u / 0x800 % 2 == b11
            && u / 0x1000 % 0x100 == b12 && u / 0x10_0000 == b20
  {
    var h12 := b12 + 0x100 * b20;
    var h11 := b11 + 2 * h12;
    DivideUnique(0, b10 + 0x400 * h11, 2);
    DivideUnique(b10, h11, 0x400);
    DivideUnique(2 * b10, h11, 0x800);
    DivideUnique(b11, h12, 2);
    DivideUnique(2 * b10 + 0x800 * b11, h12, 0x1000);
    DivideUnique(b12, b20, 0x100);
    DivideUnique(2 * b10 + 0x800 * b11 + 0x1000 * b12, b20, 0x10_0000);
  }

  lemma JumpUpperSlices(b10: nat, b11: nat, b12: nat, b20: nat)
    requires b10 < 0x400 && b11 < 2 && b12 < 0x100 && b20 < 2
    ensures var t := b12 + 0x100 * b11 + 0x200 * b10 + 0x8_0000 * b20;
            && t % 0x100 == b12 && t / 0x100 % 2 == b11 && t / 0x200 % 0x400 == b10 && t / 0x8_0000 == b20
  {
    var h10 := b10 + 0x400 * b20;
    DivideUnique(b12, b11 + 2 * h10, 0x100);
    DivideUnique(b11, h10, 2);
    DivideUnique(b12 + 0x100 * b11, h10, 0x200);
    DivideUnique(b10, b20, 0x400);
    DivideUnique(b12 + 0x100 * b11 + 0x200 * b10, b20, 0x8_0000);
  }

  lemma JumpOffsetWhole(u: nat)
    requires u < 0x20_0000 && u % 2 == 0
    ensures u == 2 * (u / 2 % 0x400) + 0x800 * (u / 0x800 % 2) + 0x1000 * (u / 0x1000 % 0x100)
            + 0x10_0000 * (u / 0x10_0000)
  {
    assert u / 2 / 0x400 == u / 0x800;
    assert u / 0x800 / 2 == u / 0x1000;
    assert u / 0x1000 / 0x100 == u / 0x10_0000;
  }

  lemma JumpUpperWhole(t: nat)
    ensures t == t % 0x100 + 0x100 * (t / 0x100 % 2) + 0x200 * (t / 0x200 % 0x400) + 0x8_0000 * (t / 0x8_0000)
  {
    assert t / 0x100 / 2 == t / 0x200;
    assert t / 0x200 / 0x400 == t / 0x8_0000;
  }

  lemma JumpBits(u: nat)
    requires u < 0x20_0000 && u % 2 == 0
    ensures JumpUpper(u) < 0x10_0000 && JumpOffset(JumpUpper(u)) == u
  {
    JumpOffsetWhole(u);
    JumpUpperSlices(u / 2 % 0x400, u / 0x800 % 2, u / 0x1000 % 0x100, u / 0x10_0000);
  }

  lemma JumpBitsBack(t: nat)
    requires t < 0x10_0000
    ensures JumpOffset(t) < 0x20_0000 && JumpOffset(t) % 2 == 0 && JumpUpper(JumpOffset(t)) == t
  {
    JumpUpperWhole(t);
    JumpOffsetSlices(t / 0x200 % 0x400, t / 0x100 % 2, t % 0x100, t / 0x8_0000);
  }

  lemma JumpFields(rd: Register, offset: int)
    requires Fits(offset, 0x20_0000) && offset % 2 == 0
    ensures InRange(FormatJ(rd, offset)) && OffsetJ(FormatJ(rd, offset)) == offset
    ensures FormatJ(rd, offset).opcode == 111 && FormatJ(rd, offset).rd == rd
  {
    hide JumpUpper, JumpOffset;
    var u := offset % 0x20_0000;
    SignedOfResidue(offset, 0x20_0000);
    JumpBits(u);
    UpperBack(111, rd, JumpUpper(u));
  }

  lemma JumpFieldsBack(f: Fields)
    requires InRange(f) && f.opcode == 111
    ensures Fits(OffsetJ(f), 0x20_0000) && OffsetJ(f) % 2 == 0 && FormatJ(f.rd, OffsetJ(f)) == f
  {
    hide JumpUpper, JumpOffset, Upper;
    JumpBitsBack(Upper(f));
    SignedFits(JumpOffset(Upper(f)), 0x20_0000);
    UpperCut(f);
  }

  predicate ReadBack(i: Instruction) { InRange(FieldsOf(i)) && Meaning(FieldsOf(i)) == Some(i) }

  lemma AluReadBack(i: Instruction)
    requires Valid(i) && (i.OpImm? || i.Op?)
    ensures ReadBack(i)
  {
    hide Signed;
    FieldsInRange(i);
    if i.OpImm? && !Shift(i.op) { TwelveBits(i.imm); }
  }

  lemma AccessReadBack(i: Instruction)
    requires Valid(i) && (i.Load? || i.Store?)
    ensures ReadBack(i)
  {
    hide Signed;
    FieldsInRange(i);
    TwelveBits(i.offset);
  }

  lemma JumpReadBack(i: Instruction)
    requires Valid(i) && (i.Jal? || i.Jalr? || i.Branch?)
    ensures ReadBack(i)
  {
    hide OffsetB, OffsetJ, FormatJ, Signed;
    FieldsInRange(i);
    match i {
      case Jal(rd, offset) => JumpFields(rd, offset);
      case Jalr(rd, rs1, offset) => TwelveBits(offset);
      case Branch(c, rs1, rs2, offset) => BranchBits(FieldsOf(i), offset);
    }
  }

  lemma FenceReadBack(i: Instruction)
    requires Valid(i) && i.Fence?
    ensures ReadBack(i)
  {
    FieldsInRange(i);
    assert i.raw == i.raw / 32 * 32 + i.raw % 32;
  }

  /** Every valid instruction is read back from its own fields. */
  lemma MeaningOfFields(i: Instruction)
    requires Valid(i)
    ensures ReadBack(i)
  {
    hide AluOf, AluFunct3, AluFunct7, WidthFunct3, WidthOf, FormatJ, FormatB, FormatS, Signed, Shift;
    FieldsInRange(i);
    match i {
      case Lui(rd, upper) => UpperBack(55, rd, upper);
      case Auipc(rd, upper) => UpperBack(23, rd, upper);
      case Fence(_, _, _) => FenceReadBack(i);
      case OpImm(_, _, _, _) => AluReadBack(i);
      case Op(_, _, _, _) => AluReadBack(i);
      case Load(_, _, _, _, _) => AccessReadBack(i);
      case Store(_, _, _, _) => AccessReadBack(i);
      case Ecall =>
      case Ebreak =>
      case _ => JumpReadBack(i);
    }
  }

  predicate SpelledBack(f: Fields)
    requires InRange(f)
  {
    Meaning(f).Some? ==> Valid(Meaning(f).value) && FieldsOf(Meaning(f).value) == f
  }

  lemma AluSpelledBack(f: Fields)
    requires InRange(f) && (f.opcode == 19 || f.opcode == 51)
    ensures SpelledBack(f)
  {
    hide Signed;
    TwelveBitsBack(f.funct7, f.rs2);
  }

  lemma AccessSpelledBack(f: Fields)
    requires InRange(f) && (f.opcode == 3 || f.opcode == 35)
    ensures SpelledBack(f)
  {
    hide Signed;
    TwelveBitsBack(f.funct7, f.rs2);
    TwelveBitsBack(f.funct7, f.rd);
  }

  lemma IndirectSpelledBack(f: Fields)
    requires InRange(f) && f.opcode == 103
    ensures SpelledBack(f)
  {
    hide Signed;
    TwelveBitsBack(f.funct7, f.rs2);
  }

  lemma FenceSpelledBack(f: Fields)
    requires InRange(f) && f.opcode == 15
    ensures SpelledBack(f)
  {
    hide OffsetB, OffsetJ, Upper, FormatJ, FormatB, FormatU, FormatS, Signed, AluOf, AluFunct7, AluFunct3, WidthFunct3;
    DivideUnique(f.rs2, f.funct7, 32);
  }

  /** Fields with a meaning are that instruction's fields. */
  lemma FieldsOfMeaning(f: Fields)
    requires InRange(f)
    ensures SpelledBack(f)
  {
    hide OffsetB, OffsetJ, Upper, FormatJ, FormatB, FormatU, Signed, WidthOf, AluOf, AluFunct7, AluFunct3, WidthFunct3,
      Shift;
    match f.opcode {
      case 19 => AluSpelledBack(f);
      case 51 => AluSpelledBack(f);
      case 3 => AccessSpelledBack(f);
      case 35 => AccessSpelledBack(f);
      case 111 => JumpFieldsBack(f);
      case 99 => BranchBitsBack(f);
      case 103 => IndirectSpelledBack(f);
      case 15 => FenceSpelledBack(f);
      case _ => UpperCut(f); UpperRange(f);
    }
  }

  lemma UpperRange(f: Fields)
    requires InRange(f)
    ensures Upper(f) < 0x10_0000
  {
  }

  /** Reading back an encoding gives the instruction; a word that can be read back is an encoding. */
  lemma EncodingIsExact(w: Word)
    ensures forall i | Valid(i) && Encode(i) == w :: Meaning(Cut(w)) == Some(i)
    ensures Meaning(Cut(w)).Some? ==> Valid(Meaning(Cut(w)).value) && Encode(Meaning(Cut(w)).value) == w
  {
    hide Meaning, FieldsOf, Cut, Assemble;
    forall i | Valid(i) && Encode(i) == w
      ensures Meaning(Cut(w)) == Some(i)
    {
      MeaningOfFields(i);
      CutAssemble(FieldsOf(i));
    }
    if Meaning(Cut(w)).Some? {
      FieldsOfMeaning(Cut(w));
      AssembleCut(w);
    }
  }
}
