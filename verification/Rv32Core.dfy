/** One clock cycle of the core (designs/rv32i_core/core.py): the stage calls composed,
    the atomic commit of the next state, and the same cycle field by field. */
module Rv32Core {
  import opened Rv32Types
  import opened Rv32Stages

  function Cycle(m: Machine, bus: BusInputs): FrontendResult {
    var w := Writeback(m, bus);
    var e := Memory(m, w.state, w.io, w.control, bus);
    var x := ExecuteLogic(m, e.state, e.io, w.control, e.memory, e.control);
    var f := Frontend(m, x.state, x.io, x.control, bus);
    Finalize(m, w.state, w.io, f.state, f.io, w.control.terminal)
  }

  class Core {
    var state: Machine

    constructor ()
      ensures state == INITIAL_MACHINE
    {
      state := INITIAL_MACHINE;
    }

    method Step(bus: BusInputs) returns (pins: Pins)
      modifies this
      ensures state == Cycle(old(state), bus).state
      ensures pins == Cycle(old(state), bus).io
    {
      hide Writeback, Memory, ExecuteLogic, Frontend, Finalize;
      var w := ComputeWriteback(state, bus);
      var e := ComputeMemory(state, w.state, w.io, w.control, bus);
      var x := ComputeExecuteLogic(state, e.state, e.io, w.control, e.memory, e.control);
      var f := ComputeFrontend(state, x.state, x.io, x.control, bus);
      var following := Finalize(state, w.state, w.io, f.state, f.io, w.control.terminal);
      state := following.state;
      pins := following.io;
    }
  }

  // ----------------------------------------------------------------- whole runs

  /** The state after the core has seen `buses`, whatever they drove. */
  function StateOf(m: Machine, buses: seq<BusInputs>): Machine
    decreases |buses|
  {
    if buses == [] then m else StateOf(Cycle(m, buses[0]).state, buses[1..])
  }

  /** The retirement records of a run, in order. */
  function Retirements(m: Machine, buses: seq<BusInputs>): seq<Retirement>
    decreases |buses|
  {
    if buses == [] then []
    else
      var record := Cycle(m, buses[0]).io.retire;
      (if record.valid then [record] else []) + Retirements(Cycle(m, buses[0]).state, buses[1..])
  }

  // ------------------------------------------------- the signals of one cycle

  predicate Running(m: Machine, bus: BusInputs) {
    !m.halted && !Terminal(m.writebackStage, bus)
  }

  predicate Retires(m: Machine, bus: BusInputs) { WritebackDone(m.writebackStage, bus) }

  /** The memory-stage packet after this cycle's bus answer. */
  function Mem(m: Machine, bus: BusInputs): Packet {
    AnsweredPacket(m.memoryStage, StoreIssued(m.writebackStage), bus)
  }

  predicate MemFaults(m: Machine, bus: BusInputs) { Mem(m, bus).valid && Mem(m, bus).trap }

  predicate MemMoves(m: Machine, bus: BusInputs) {
    MemoryMoves(Mem(m, bus), !m.writebackStage.valid || Retires(m, bus))
  }

  predicate MemSpace(m: Machine, bus: BusInputs) { !Mem(m, bus).valid || MemMoves(m, bus) }

  predicate ExMoves(m: Machine, bus: BusInputs) {
    m.executeStage.valid && MemSpace(m, bus) && !MemFaults(m, bus)
  }

  function ExPacket(m: Machine, bus: BusInputs): Packet {
    ExecutedPacket(m.executeStage, m.writebackStage, WritebackFault(m.writebackStage, bus), Mem(m, bus))
  }

  predicate Kills(m: Machine, bus: BusInputs) {
    if ExMoves(m, bus) then ExPacket(m, bus).redirect || ExPacket(m, bus).trap else MemFaults(m, bus)
  }

  predicate Stops(m: Machine, bus: BusInputs) {
    m.stopping || MemFaults(m, bus) || (ExMoves(m, bus) && ExPacket(m, bus).trap)
  }

  function IdControl(m: Machine): Decoded {
    FetchControl(m.decodeStage.instruction, m.decodeStage.fault, m.decodeStage.pc)
  }

  predicate IdMoves(m: Machine, bus: BusInputs) {
    && m.decodeStage.valid
    && (!m.executeStage.valid || ExMoves(m, bus))
    && !LoadUse(m.executeStage, IdControl(m))
    && !Kills(m, bus)
    && !Stops(m, bus)
  }

  predicate IdSpace(m: Machine, bus: BusInputs) { !m.decodeStage.valid || IdMoves(m, bus) }

  function Port(m: Machine, bus: BusInputs): FetchPort {
    RequestPort(m, Launches(m, IdSpace(m, bus), Kills(m, bus), Stops(m, bus)))
  }

  predicate Fetches(m: Machine, bus: BusInputs) {
    Accepts(m, Port(m, bus), Kills(m, bus), Stops(m, bus), bus)
  }

  predicate BufferMoves(m: Machine, bus: BusInputs) {
    m.fetchBuffer.valid && IdSpace(m, bus) && !Kills(m, bus) && !Stops(m, bus)
  }

  function Fetched(m: Machine, bus: BusInputs): Fetch {
    Fetch(true, Port(m, bus).address, bus.imemData, bus.imemFault)
  }

  // --------------------------------------- the next value of each state field

  function NextWriteback(m: Machine, bus: BusInputs): Packet {
    if MemMoves(m, bus) then Mem(m, bus)
    else if Retires(m, bus) then m.writebackStage.(valid := false)
    else m.writebackStage
  }

  function NextMemory(m: Machine, bus: BusInputs): Packet {
    if ExMoves(m, bus) then ExPacket(m, bus)
    else if MemMoves(m, bus) then Mem(m, bus).(valid := false)
    else Mem(m, bus)
  }

  function NextExecute(m: Machine, bus: BusInputs): Execute {
    var ex, wb := m.executeStage, m.writebackStage;
    var fault := WritebackFault(wb, bus);
    if IdMoves(m, bus) then
      Issued(m, IdControl(m), Retires(m, bus) && RegisterWritten(wb, fault))
    else if !ex.valid then
      if MemFaults(m, bus) then ex.(valid := false) else ex
    else
      Execute(!ExMoves(m, bus) && !MemFaults(m, bus), ex.pc, ex.instruction, ex.control,
              FirstOperand(ex, wb, fault, Mem(m, bus)), SecondOperand(ex, wb, fault, Mem(m, bus)))
  }

  function NextDecode(m: Machine, bus: BusInputs): Fetch {
    if Fetches(m, bus) && IdSpace(m, bus) then Fetched(m, bus)
    else if BufferMoves(m, bus) then m.fetchBuffer
    else if IdMoves(m, bus) || Kills(m, bus) then m.decodeStage.(valid := false)
    else m.decodeStage
  }

  function NextBuffer(m: Machine, bus: BusInputs): Fetch {
    if Fetches(m, bus) && !IdSpace(m, bus) then Fetched(m, bus)
    else if BufferMoves(m, bus) || Kills(m, bus) then m.fetchBuffer.(valid := false)
    else m.fetchBuffer
  }

  function NextFetchPc(m: Machine, bus: BusInputs): Word {
    if Fetches(m, bus) then FollowingPc(Port(m, bus).address)
    else if ExMoves(m, bus) && ExPacket(m, bus).redirect then ExPacket(m, bus).nextPc
    else m.fetchPc
  }

  predicate NextKilled(m: Machine, bus: BusInputs) {
    if Port(m, bus).valid && bus.imemReady then false
    else if Kills(m, bus) then m.fetchBusy
    else m.fetchKilled
  }

  /** The cycle of a machine that neither is halted nor halts now. */
  function RunningState(m: Machine, bus: BusInputs): Machine {
    var port := Port(m, bus);
    var wb, retires := m.writebackStage, Retires(m, bus);
    Machine(
      if retires then WrittenRegisters(m.registers, wb, false) else m.registers,
      NextFetchPc(m, bus),
      if retires then wb.nextPc else m.archPc,
      port.valid && !bus.imemReady,
      if port.valid && !bus.imemReady then port.address else m.fetchRequestPc,
      NextKilled(m, bus),
      NextBuffer(m, bus), NextDecode(m, bus), NextExecute(m, bus), NextMemory(m, bus), NextWriteback(m, bus),
      Stops(m, bus), false,
      if retires then FollowingOrder(m.order) else m.order)
  }

  // ------------------------- what each stage has prepared in a running cycle

  function AfterWriteback(m: Machine, bus: BusInputs): Machine {
    var wb, retires := m.writebackStage, Retires(m, bus);
    m.(registers := if retires then WrittenRegisters(m.registers, wb, false) else m.registers,
       archPc := if retires then wb.nextPc else m.archPc,
       order := if retires then FollowingOrder(m.order) else m.order,
       writebackStage := if retires then wb.(valid := false) else wb)
  }

  function AfterMemory(m: Machine, bus: BusInputs): Machine {
    var fault := MemFaults(m, bus);
    AfterWriteback(m, bus).(
      writebackStage := NextWriteback(m, bus),
      memoryStage := if MemMoves(m, bus) then Mem(m, bus).(valid := false) else Mem(m, bus),
      executeStage := if fault then m.executeStage.(valid := false) else m.executeStage,
      decodeStage := if fault then m.decodeStage.(valid := false) else m.decodeStage,
      fetchBuffer := if fault then m.fetchBuffer.(valid := false) else m.fetchBuffer,
      fetchKilled := if fault then m.fetchBusy else m.fetchKilled,
      stopping := m.stopping || fault)
  }

  function AfterExecute(m: Machine, bus: BusInputs): Machine {
    var kill, ex, wb := Kills(m, bus), m.executeStage, m.writebackStage;
    var fault := WritebackFault(wb, bus);
    AfterMemory(m, bus).(
      executeStage :=
        if !ex.valid then if MemFaults(m, bus) then ex.(valid := false) else ex
        else Execute(!ExMoves(m, bus) && !MemFaults(m, bus), ex.pc, ex.instruction, ex.control,
                     FirstOperand(ex, wb, fault, Mem(m, bus)), SecondOperand(ex, wb, fault, Mem(m, bus))),
      memoryStage := NextMemory(m, bus),
      stopping := Stops(m, bus),
      fetchPc := if ExMoves(m, bus) && ExPacket(m, bus).redirect then ExPacket(m, bus).nextPc else m.fetchPc,
      decodeStage := if kill then m.decodeStage.(valid := false) else m.decodeStage,
      fetchBuffer := if kill then m.fetchBuffer.(valid := false) else m.fetchBuffer,
      fetchKilled := if kill then m.fetchBusy else m.fetchKilled)
  }

  function WbControl(m: Machine, bus: BusInputs): WritebackControl {
    var wb := m.writebackStage;
    WritebackControl(StoreIssued(wb), WritebackFault(wb, bus), Retires(m, bus), !wb.valid || Retires(m, bus), false)
  }

  function MemControl(m: Machine, bus: BusInputs): MemoryControl {
    MemoryControl(MemFaults(m, bus), MemSpace(m, bus))
  }

  function ExControl(m: Machine, bus: BusInputs): ExecuteControl {
    ExecuteControl(ExMoves(m, bus), Kills(m, bus), ExMoves(m, bus) && ExPacket(m, bus).redirect, MemFaults(m, bus))
  }

  lemma WritebackPrepares(m: Machine, bus: BusInputs)
    requires Running(m, bus)
    ensures Writeback(m, bus).state == AfterWriteback(m, bus)
    ensures Writeback(m, bus).control == WbControl(m, bus)
  {
    hide WrittenRegisters, FollowingOrder, RetirementOf, StorePort, IdleView;
  }

  lemma MemoryPrepares(m: Machine, io: Pins, bus: BusInputs)
    ensures var r := Memory(m, AfterWriteback(m, bus), io, WbControl(m, bus), bus);
            r.state == AfterMemory(m, bus) && r.memory == Mem(m, bus) && r.control == MemControl(m, bus)
  {
    hide WrittenRegisters, FollowingOrder, LoadedPacket, MemoryMoves, MemoryPort;
  }

  lemma ExecutePrepares(m: Machine, io: Pins, bus: BusInputs)
    ensures var r := ExecuteLogic(m, AfterMemory(m, bus), io, WbControl(m, bus), Mem(m, bus), MemControl(m, bus));
            r.state == AfterExecute(m, bus) && r.control == ExControl(m, bus)
  {
    hide WrittenRegisters, NextWriteback, Mem, MemMoves, MemSpace, ExecutedPacket, FirstOperand, SecondOperand;
  }

  lemma FrontendPrepares(m: Machine, io: Pins, bus: BusInputs)
    requires Running(m, bus)
    requires io.retire.rdWrite
             == (Retires(m, bus) && RegisterWritten(m.writebackStage, WritebackFault(m.writebackStage, bus)))
    ensures Frontend(m, AfterExecute(m, bus), io, ExControl(m, bus), bus).state == RunningState(m, bus)
  {
    hide WrittenRegisters, NextWriteback, NextMemory, Mem, MemMoves, MemFaults, ExMoves, ExPacket, Kills, Stops,
      Retires, FirstOperand, SecondOperand, WritebackFault, RegisterWritten, Issued, LoadUse, FetchControl, FollowingPc,
      FollowingOrder;
  }

  lemma RunningCycle(m: Machine, bus: BusInputs)
    requires Running(m, bus)
    ensures Cycle(m, bus).state == RunningState(m, bus)
  {
    hide AfterWriteback, AfterMemory, AfterExecute, WbControl, MemControl, ExControl, Mem, RunningState;
    var w := Writeback(m, bus);
    WritebackPrepares(m, bus);
    MemoryPrepares(m, w.io, bus);
    var e := Memory(m, w.state, w.io, w.control, bus);
    ExecutePrepares(m, e.io, bus);
    FrontendPrepares(m, e.io, bus);
  }

  // --------------------------------------------------------- pins of a cycle

  /** At most one data request a cycle: the store in writeback, else the load in memory. */
  function DataRequest(m: Machine): DataPort {
    if StoreIssued(m.writebackStage) then StorePort(m.writebackStage)
    else if LoadRequested(m.memoryStage, false) then LoadPort(m.memoryStage)
    else NO_ACCESS
  }

  function RetireRecord(m: Machine, bus: BusInputs): Retirement {
    var wb := m.writebackStage;
    if Retires(m, bus) then RetirementOf(wb, m.order, WritebackFault(wb, bus), StoreIssued(wb) && bus.dmemFault)
    else NO_RETIREMENT
  }

  lemma RunningPins(m: Machine, bus: BusInputs)
    requires Running(m, bus)
    ensures Cycle(m, bus).io.imem == Port(m, bus)
    ensures Cycle(m, bus).io.dmem == DataRequest(m)
    ensures Cycle(m, bus).io.retire == RetireRecord(m, bus)
  {
    hide AfterWriteback, AfterMemory, Mem, RetirementOf, StorePort, RequestPort, Launches;
    var w := Writeback(m, bus);
    WritebackPrepares(m, bus);
    WritebackPins(m, bus);
    hide Writeback, RetireRecord;
    MemoryPrepares(m, w.io, bus);
    var e := Memory(m, w.state, w.io, w.control, bus);
    assert e.io.dmem == DataRequest(m) by { DataPins(m, w.io, bus); }
    hide DataRequest;
    ExecutePrepares(m, e.io, bus);
  }

  lemma WritebackPins(m: Machine, bus: BusInputs)
    requires Running(m, bus)
    ensures var io := Writeback(m, bus).io;
            io.dmem == StorePort(m.writebackStage) && io.retire == RetireRecord(m, bus)
  {
    hide AfterWriteback, RetirementOf, WrittenRegisters, FollowingOrder;
  }

  lemma DataPins(m: Machine, io: Pins, bus: BusInputs)
    requires io.dmem == StorePort(m.writebackStage)
    ensures Memory(m, AfterWriteback(m, bus), io, WbControl(m, bus), bus).io.dmem == DataRequest(m)
  {
    hide AfterWriteback, Mem, WordAddress, StoreLanes, ByteMask;
  }

  /** A machine that halts now keeps only its writeback work; a halted one keeps everything. */
  lemma StoppedCycle(m: Machine, bus: BusInputs)
    requires !Running(m, bus)
    ensures m.halted ==> Cycle(m, bus).state == m && Cycle(m, bus).io.retire == NO_RETIREMENT
                         && Cycle(m, bus).io.dmem == NO_ACCESS
    ensures !m.halted ==> Cycle(m, bus).state == WritebackState(m, bus)
                          && Cycle(m, bus).io.retire == RetireRecord(m, bus)
                          && Cycle(m, bus).io.dmem == StorePort(m.writebackStage)
    ensures Cycle(m, bus).io.imem == NO_REQUEST
  {
    hide Memory, ExecuteLogic, Frontend, RetirementOf, StorePort, WritebackState;
  }
}
