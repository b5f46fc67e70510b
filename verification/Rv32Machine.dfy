/** The sequential machine the pipeline is measured against: one instruction at a time,
    each fetched, executed, given its memory access and retired before the next begins.
    Its datapath is the decoder and ALU of the core; Rv32Conformance relates that datapath
    to the instruction set. */
module Rv32Machine {
  import opened Rv32Types
  import opened Rv32Arithmetic
  import opened Rv32Stages

  type DataMemory = map<Word, Word>

  datatype Reply = Reply(data: Word, fault: bool)

  /** The world outside the core: what a fetch returns, and which data accesses
      (write or read, word address, byte mask) the platform refuses. */
  datatype Platform = Platform(instruction: Word -> Reply, refuses: (bool, Word, nat) -> bool)

  /** The architectural state. */
  datatype Arch = Arch(registers: RegisterFile, pc: Word, memory: DataMemory, order: Order, halted: bool)

  function ReadWord(memory: DataMemory, address: Word): Word {
    if address in memory then memory[address] else 0
  }

  /** Byte `lane` of a word, or of the incoming data where the mask selects it. */
  function MergedByte(word: Word, data: Word, mask: nat, scale: nat, bit: nat): (b: nat)
    requires scale > 0 && bit > 0
    ensures b < 256
  {
    (if mask / bit % 2 == 1 then data else word) / scale % 256
  }

  function Merge(word: Word, data: Word, mask: nat): Word {
    MergedByte(word, data, mask, 1, 1)
    + 0x100 * MergedByte(word, data, mask, 0x100, 2)
    + 0x1_0000 * MergedByte(word, data, mask, 0x1_0000, 4)
    + 0x100_0000 * MergedByte(word, data, mask, 0x100_0000, 8)
  }

  function WriteWord(memory: DataMemory, address: Word, data: Word, mask: nat): DataMemory {
    memory[address := Merge(ReadWord(memory, address), data, mask)]
  }

  /** The instruction at `a.pc`, executed on the architectural registers. */
  function Executed(p: Platform, a: Arch): Packet {
    var reply := p.instruction(a.pc);
    var c := FetchControl(reply.data, reply.fault, a.pc);
    Arithmetic(c, a.pc, reply.data, ReadRegister(a.registers, c.rs1), ReadRegister(a.registers, c.rs2))
  }

  /** The same instruction after its load, if it is one. */
  function Completed(p: Platform, memory: DataMemory, x: Packet): Packet {
    if x.load && !x.trap then
      LoadedPacket(x, ReadWord(memory, WordAddress(x.address)),
                   p.refuses(false, WordAddress(x.address), ByteMask(x.size, x.address)))
    else x
  }

  function Final(p: Platform, a: Arch): Packet { Completed(p, a.memory, Executed(p, a)) }

  predicate StoreRefused(p: Platform, x: Packet) {
    x.store && !x.trap && p.refuses(true, WordAddress(x.address), ByteMask(x.size, x.address))
  }

  predicate Faults(p: Platform, x: Packet) { x.trap || StoreRefused(p, x) }

  function StoredMemory(p: Platform, memory: DataMemory, x: Packet): DataMemory {
    if x.store && !Faults(p, x) then
      WriteWord(memory, WordAddress(x.address), StoreLanes(x.storeData, x.address), ByteMask(x.size, x.address))
    else memory
  }

  /** The state after the completed packet `x` retires. */
  function Retired(p: Platform, a: Arch, x: Packet): Arch {
    Arch(WrittenRegisters(a.registers, x, Faults(p, x)),
         if Faults(p, x) then x.pc else x.nextPc,
         StoredMemory(p, a.memory, x), FollowingOrder(a.order), Faults(p, x))
  }

  /** One instruction.  A trap is recorded and halts the machine. */
  function Step(p: Platform, a: Arch): Arch {
    if a.halted then a else Retired(p, a, Final(p, a))
  }

  function RecordOf(p: Platform, order: Order, x: Packet): Retirement {
    RetirementOf(x, order, Faults(p, x), StoreRefused(p, x))
  }

  function Event(p: Platform, a: Arch): Retirement { RecordOf(p, a.order, Final(p, a)) }

  /** The state after `n` instructions; a halted machine does not move. */
  function StateAfter(p: Platform, a: Arch, n: nat): Arch
    decreases n
  {
    if n == 0 then a else StateAfter(p, Step(p, a), n - 1)
  }

  /** The records of the next `n` instructions; nothing follows a trap. */
  function Trace(p: Platform, a: Arch, n: nat): seq<Retirement>
    decreases n
  {
    if n == 0 || a.halted then [] else [Event(p, a)] + Trace(p, Step(p, a), n - 1)
  }
}
