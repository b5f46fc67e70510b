/** Records of the five-stage RV32I core: the bus, the decoded control word,
    the pipeline registers and the whole machine state.  One-bit fields are
    `bool`; words are integers below 2^32 and every wrap-around is written out.
    A static slice is a quotient and a remainder by powers of two, a concatenation
    or an OR of disjoint fields is a sum. */
module Rv32Types {

  const TWO_32 := 0x1_0000_0000
  const TWO_64 := 0x1_0000_0000_0000_0000

  type Word = x: int | 0 <= x < TWO_32
  type Order = x: int | 0 <= x < TWO_64
  type Register = r: nat | r < 32
  const ZERO_REGISTERS: seq<Word> :=
    [0, 0, 0, 0, 0, 0, 0, 0, 0, 0, 0, 0, 0, 0, 0, 0,
     0, 0, 0, 0, 0, 0, 0, 0, 0, 0, 0, 0, 0, 0, 0, 0]

  type RegisterFile = f: seq<Word> | |f| == 32 witness ZERO_REGISTERS

  datatype BusInputs = BusInputs(
    imemReady: bool, imemData: Word, imemFault: bool,
    dmemReady: bool, dmemData: Word, dmemFault: bool)

  datatype Decoded = Decoded(
    rs1: Register, rs2: Register, rd: Register,
    use1: bool, use2: bool, writes: bool,
    operation: nat, immediate: Word, immediateRhs: bool,
    load: bool, store: bool, size: nat, signedLoad: bool,
    branch: bool, condition: nat, jump: nat,
    trap: bool, cause: nat, tval: Word)

  datatype Fetch = Fetch(valid: bool, pc: Word, instruction: Word, fault: bool)

  datatype Execute = Execute(
    valid: bool, pc: Word, instruction: Word, control: Decoded, first: Word, second: Word)

  datatype Packet = Packet(
    valid: bool, pc: Word, instruction: Word, nextPc: Word,
    rd: Register, writes: bool, result: Word,
    load: bool, store: bool, address: Word, storeData: Word, loadData: Word,
    size: nat, signedLoad: bool, done: bool, redirect: bool,
    trap: bool, cause: nat, tval: Word)

  datatype Machine = Machine(
    registers: RegisterFile,
    fetchPc: Word, archPc: Word,
    fetchBusy: bool, fetchRequestPc: Word, fetchKilled: bool,
    fetchBuffer: Fetch, decodeStage: Fetch, executeStage: Execute,
    memoryStage: Packet, writebackStage: Packet,
    stopping: bool, halted: bool, order: Order)

  /** The retirement pins: what one completed instruction did. */
  datatype Retirement = Retirement(
    valid: bool, order: Order, pc: Word, instruction: Word, nextPc: Word,
    rdWrite: bool, rd: Register, value: Word,
    load: bool, store: bool, address: Word, mask: nat, memData: Word,
    trap: bool, cause: nat, tval: Word)

  datatype FetchPort = FetchPort(valid: bool, address: Word)

  datatype DataPort = DataPort(valid: bool, write: bool, address: Word, data: Word, mask: nat)

  /** The observation pins: which stages hold work and why the pipeline waits. */
  datatype View = View(
    stageIf: bool, stageId: bool, stageEx: bool, stageMem: bool, stageWb: bool,
    loadUse: bool, memoryWait: bool, redirected: bool, halted: bool)

  datatype Pins = Pins(imem: FetchPort, dmem: DataPort, retire: Retirement, view: View)

  datatype WritebackControl = WritebackControl(
    store: bool, fault: bool, done: bool, space: bool, terminal: bool)

  datatype MemoryControl = MemoryControl(fault: bool, space: bool)

  datatype ExecuteControl = ExecuteControl(
    moved: bool, kill: bool, redirected: bool, memoryFault: bool)

  /** A freshly made control word is the illegal-instruction trap. */
  const EMPTY_DECODED := Decoded(
    0, 0, 0, false, false, false, 0, 0, false, false, false, 0, false, false, 0, 0, true, 2, 0)

  const EMPTY_PACKET := Packet(
    false, 0, 0, 0, 0, false, 0, false, false, 0, 0, 0, 0, false, false, false, false, 0, 0)

  const NO_RETIREMENT := Retirement(
    false, 0, 0, 0, 0, false, 0, 0, false, false, 0, 0, 0, false, 0, 0)

  const NO_ACCESS := DataPort(false, false, 0, 0, 0)

  const NO_REQUEST := FetchPort(false, 0)

  const EMPTY_FETCH := Fetch(false, 0, 0, false)

  const RESET_PC: Word := 0x8000_0000

  const INITIAL_MACHINE := Machine(
    ZERO_REGISTERS, RESET_PC, RESET_PC, false, 0, false,
    EMPTY_FETCH, EMPTY_FETCH, Execute(false, 0, 0, EMPTY_DECODED, 0, 0),
    EMPTY_PACKET, EMPTY_PACKET, false, false, 0)

  /** x0 reads as zero whatever the table holds. */
  function ReadRegister(f: RegisterFile, r: Register): Word {
    if r == 0 then 0 else f[r]
  }

  function Add(a: Word, b: Word): Word { (a + b) % TWO_32 }

  function Subtract(a: Word, b: Word): Word { (a - b) % TWO_32 }

  function FollowingPc(pc: Word): Word { Add(pc, 4) }

  function FollowingOrder(order: Order): Order { (order + 1) % TWO_64 }

  /** The address with its two low bits cleared. */
  function WordAddress(address: Word): Word { address - address % 4 }

  /** Two to the bit offset of the addressed byte inside its word. */
  function LaneScale(address: Word): (scale: nat)
    ensures scale > 0
  {
    var offset := address % 4;
    if offset == 0 then 1 else if offset == 1 then 0x100 else if offset == 2 then 0x1_0000 else 0x100_0000
  }

  /** Number of values an access of this size can take. */
  function RawRange(size: nat): (range: nat)
    ensures range > 0
  {
    if size == 2 then TWO_32 else if size == 1 then 0x1_0000 else 0x100
  }

  function ByteMask(size: nat, address: Word): nat {
    var base := if size == 2 then 15 else if size == 1 then 3 else 1;
    var offset := address % 4;
    (if offset == 0 then base else if offset == 1 then 2 * base else if offset == 2 then 4 * base else 8 * base) % 16
  }

  /** Store data moved to the addressed lanes. */
  function StoreLanes(data: Word, address: Word): Word { (data * LaneScale(address)) % TWO_32 }

  /** The loaded bytes before extension. */
  function RawLoad(data: Word, address: Word, size: nat): Word { (data / LaneScale(address)) % RawRange(size) }
}
