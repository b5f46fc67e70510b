/** The effect of each RV32I instruction on registers, program counter and byte memory, in
    signed and unsigned integer terms, and the machine that executes one after another. */
module Rv32Reference {
  import opened Bits
  import opened Rv32Types
  import opened Rv32Machine
  import opened Rv32Isa

  function ToWord(x: int): Word { x % TWO_32 }

  function ToSigned(w: Word): int { if w >= 0x8000_0000 then w - TWO_32 else w }

  /** The number made of the ones that two naturals have in common among their low n bits. */
  function Common(a: nat, b: nat, n: nat): nat {
    if n == 0 then 0 else (a % 2) * (b % 2) + 2 * Common(a / 2, b / 2, n - 1)
  }

  /** Sections 2.4.1 and 2.4.2; shift amounts are the low five bits.  A sum counts the common ones
      twice, an inclusive OR once, an exclusive OR not at all. */
  function AluResult(op: AluOp, a: Word, b: Word): Word {
    match op
    case ADD => ToWord(a + b)
    case SUB => ToWord(a - b)
    case SLL => ToWord(a * Pow2(b % 32))
    case SLT => if ToSigned(a) < ToSigned(b) then 1 else 0
    case SLTU => if a < b then 1 else 0
    case XOR => ToWord(a + b - 2 * Common(a, b, 32))
    case SRL => Quotient(a, Pow2(b % 32))
    case SRA => ToWord(ToSigned(a) / Pow2(b % 32))
    case OR => ToWord(a + b - Common(a, b, 32))
    case AND => ToWord(Common(a, b, 32))
  }

  predicate Holds(c: Comparison, a: Word, b: Word) {
    match c
    case EQ => a == b
    case NE => a != b
    case LT => ToSigned(a) < ToSigned(b)
    case GE => ToSigned(a) >= ToSigned(b)
    case LTU => a < b
    case GEU => a >= b
  }

  /** x0 reads as zero, and every other register as it was last written. */
  lemma RegisterReads(f: RegisterFile, rd: Register, value: Word, r: Register)
    ensures ReadRegister(f, 0) == 0
    ensures rd != 0 ==> ReadRegister(f[rd := value], r) == if r == rd then value else ReadRegister(f, r)
  {
  }

  // -------------------------------------------------------------- byte memory

  function LanePower(lane: nat): (p: nat)
    ensures p > 0
  {
    if lane == 0 then 1 else if lane == 1 then 0x100 else if lane == 2 then 0x1_0000 else 0x100_0000
  }

  /** The byte at an address of a little-endian memory of words. */
  function ByteAt(memory: DataMemory, address: Word): (b: nat)
    ensures b < 256
  {
    ReadWord(memory, WordAddress(address)) / LanePower(address % 4) % 256
  }

  /** `width` bytes from `address` up, lowest first. */
  function BytesAt(memory: DataMemory, address: Word, width: nat): nat {
    var b0, b1 := ByteAt(memory, address), ByteAt(memory, ToWord(address + 1));
    var b2, b3 := ByteAt(memory, ToWord(address + 2)), ByteAt(memory, ToWord(address + 3));
    if width == 1 then b0
    else if width == 2 then b0 + 0x100 * b1
    else b0 + 0x100 * b1 + 0x1_0000 * b2 + 0x100_0000 * b3
  }

  /** Halfwords and words must be naturally aligned, bytes need not be. */
  predicate Misaligned(address: Word, width: nat) {
    (width == 2 && address % 2 != 0) || (width == 4 && address % 4 != 0)
  }

  /** The lanes of its word an aligned access of `width` bytes touches. */
  function LaneMask(address: Word, width: nat): nat {
    var lanes, lane := if width == 1 then 1 else if width == 2 then 3 else 15, address % 4;
    if lane == 0 then lanes else if lane == 1 then 2 * lanes else if lane == 2 then 4 * lanes else 8 * lanes
  }

  function WidthRange(width: nat): (r: nat)
    ensures r > 0
  {
    if width == 1 then 0x100 else if width == 2 then 0x1_0000 else TWO_32
  }

  function Extended(raw: nat, width: nat, signed: bool): Word {
    if signed && raw < WidthRange(width) then ToWord(Rv32Isa.Signed(raw, WidthRange(width))) else raw % TWO_32
  }

  // ------------------------------------------------------ one instruction's effect

  datatype Access = NoAccess | Read(address: Word, width: nat, data: nat) | Write(address: Word, width: nat, data: nat)

  /** Either a trap, or where to go, which register gets what (x0 discards) and the memory access. */
  datatype Outcome =
    | Trap(cause: nat, tval: Word)
    | Done(nextPc: Word, rd: Register, value: Word, access: Access)

  function Goes(pc: Word, target: Word, rd: Register): Outcome {
    if target % 4 != 0 then Trap(0, target) else Done(target, rd, if rd == 0 then 0 else ToWord(pc + 4), NoAccess)
  }

  function Yields(pc: Word, rd: Register, value: Word): Outcome {
    Done(ToWord(pc + 4), rd, if rd == 0 then 0 else value, NoAccess)
  }

  function Loads(p: Platform, a: Arch, address: Word, width: nat, signed: bool, rd: Register): Outcome {
    if Misaligned(address, width) then Trap(4, address)
    else if p.refuses(false, WordAddress(address), LaneMask(address, width)) then Trap(5, address)
    else
      var raw := BytesAt(a.memory, address, width);
      Done(ToWord(a.pc + 4), rd, if rd == 0 then 0 else Extended(raw, width, signed), Read(address, width, raw))
  }

  function Stores(p: Platform, a: Arch, address: Word, width: nat, value: Word): Outcome {
    if Misaligned(address, width) then Trap(6, address)
    else if p.refuses(true, WordAddress(address), LaneMask(address, width)) then Trap(7, address)
    else Done(ToWord(a.pc + 4), 0, 0, Write(address, width, value % WidthRange(width)))
  }

  function Effect(p: Platform, a: Arch, i: Instruction): Outcome {
    var pc, x := a.pc, a.registers;
    match i
    case Lui(rd, upper) => Yields(pc, rd, ToWord(0x1000 * upper))
    case Auipc(rd, upper) => Yields(pc, rd, ToWord(pc + 0x1000 * upper))
    case Jal(rd, offset) => Goes(pc, ToWord(pc + offset), rd)
    case Jalr(rd, rs1, offset) =>
      var target := ToWord(ReadRegister(x, rs1) + offset);
      Goes(pc, target - target % 2, rd)
    case Branch(c, rs1, rs2, offset) =>
      if Holds(c, ReadRegister(x, rs1), ReadRegister(x, rs2)) then Goes(pc, ToWord(pc + offset), 0)
      else Yields(pc, 0, 0)
    case Load(width, signed, rd, rs1, offset) => Loads(p, a, ToWord(ReadRegister(x, rs1) + offset), width, signed, rd)
    case Store(width, rs1, rs2, offset) =>
      Stores(p, a, ToWord(ReadRegister(x, rs1) + offset), width, ReadRegister(x, rs2))
    case OpImm(op, rd, rs1, imm) => Yields(pc, rd, AluResult(op, ReadRegister(x, rs1), ToWord(imm)))
    case Op(op, rd, rs1, rs2) => Yields(pc, rd, AluResult(op, ReadRegister(x, rs1), ReadRegister(x, rs2)))
    case Fence(_, _, _) => Yields(pc, 0, 0)
    case Ecall => Trap(11, 0)
    case Ebreak => Trap(3, pc)
  }

  /** An illegal word reports itself, or its low half when it is not of 32-bit form. */
  function Performs(p: Platform, a: Arch, w: Word): Outcome {
    match Meaning(Cut(w))
    case Some(i) => Effect(p, a, i)
    case None => Trap(2, if w % 4 == 3 then w else w % 0x1_0000)
  }

  function FetchesAndPerforms(p: Platform, a: Arch): Outcome {
    var reply := p.instruction(a.pc);
    if reply.fault then Trap(1, a.pc) else Performs(p, a, reply.data)
  }

  // ----------------------------------------------------------------- the machine

  function MemoryWith(memory: DataMemory, access: Access): DataMemory {
    match access
    case Write(address, width, data) =>
      WriteWord(memory, WordAddress(address), (data * LanePower(address % 4)) % TWO_32, LaneMask(address, width))
    case _ => memory
  }

  function Leaves(a: Arch, o: Outcome): Arch {
    match o
    case Trap(_, _) => a.(order := FollowingOrder(a.order), halted := true)
    case Done(nextPc, rd, value, access) =>
      Arch(if rd == 0 then a.registers else a.registers[rd := value], nextPc,
           MemoryWith(a.memory, access), FollowingOrder(a.order), false)
  }

  function Reports(a: Arch, w: Word, o: Outcome): Retirement {
    match o
    case Trap(cause, tval) =>
      Retirement(true, a.order, a.pc, w, a.pc, false, 0, 0, false, false, 0, 0, 0, true, cause, tval)
    case Done(nextPc, rd, value, access) =>
      Retirement(
        true, a.order, a.pc, w, nextPc, rd != 0, rd, value, access.Read?, access.Write?,
        if access.NoAccess? then 0 else access.address,
        if access.NoAccess? then 0 else LaneMask(access.address, access.width),
        if access.NoAccess? then 0 else access.data % TWO_32,
        false, 0, 0)
  }

  function IsaStep(p: Platform, a: Arch): Arch {
    if a.halted then a else Leaves(a, FetchesAndPerforms(p, a))
  }

  function IsaEvent(p: Platform, a: Arch): Retirement {
    Reports(a, p.instruction(a.pc).data, FetchesAndPerforms(p, a))
  }

  function IsaStateAfter(p: Platform, a: Arch, n: nat): Arch
    decreases n
  {
    if n == 0 then a else IsaStateAfter(p, IsaStep(p, a), n - 1)
  }

  function IsaTrace(p: Platform, a: Arch, n: nat): seq<Retirement>
    decreases n
  {
    if n == 0 || a.halted then [] else [IsaEvent(p, a)] + IsaTrace(p, IsaStep(p, a), n - 1)
  }
}
