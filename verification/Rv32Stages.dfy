/** The four stage computations and the final selection of one clock cycle.
    Each stage is a function of the state at the start of the cycle (`m`), the state
    the older stages have prepared so far (`prior`) and the bus, and each is also given
    in the source's own form, as a method that overwrites local fields in order. */
module Rv32Stages {
  import opened Rv32Types
  import opened Rv32Decoder
  import opened Rv32Arithmetic

  // ---------------------------------------------------------------- writeback

  datatype WritebackResult = WritebackResult(state: Machine, io: Pins, control: WritebackControl)

  predicate StoreIssued(wb: Packet) { wb.valid && wb.store && !wb.trap }

  predicate WritebackFault(wb: Packet, bus: BusInputs) {
    wb.trap || (StoreIssued(wb) && bus.dmemReady && bus.dmemFault)
  }

  predicate WritebackDone(wb: Packet, bus: BusInputs) {
    wb.valid && (!StoreIssued(wb) || bus.dmemReady)
  }

  predicate Terminal(wb: Packet, bus: BusInputs) {
    WritebackDone(wb, bus) && WritebackFault(wb, bus)
  }

  predicate RegisterWritten(wb: Packet, fault: bool) { wb.writes && wb.rd != 0 && !fault }

  /** The retirement record of `wb`; `busFault` is the store fault, `fault` any fault. */
  function RetirementOf(wb: Packet, order: Order, fault: bool, busFault: bool): Retirement {
    var access := (wb.load || wb.store) && !fault;
    Retirement(
      true, order, wb.pc, wb.instruction,
      if fault then wb.pc else wb.nextPc,
      RegisterWritten(wb, fault),
      if RegisterWritten(wb, fault) then wb.rd else 0,
      if RegisterWritten(wb, fault) then wb.result else 0,
      wb.load && !fault, wb.store && !fault,
      if access then wb.address else 0,
      if access then ByteMask(wb.size, wb.address) else 0,
      if wb.store && !fault then wb.storeData % RawRange(wb.size)
      else if wb.load && !fault then wb.loadData else 0,
      fault,
      if !fault then 0 else if busFault then 7 else wb.cause,
      if !fault then 0 else if busFault then wb.address else wb.tval)
  }

  function StorePort(wb: Packet): DataPort {
    if StoreIssued(wb) then
      DataPort(true, true, WordAddress(wb.address), StoreLanes(wb.storeData, wb.address), ByteMask(wb.size, wb.address))
    else NO_ACCESS
  }

  function IdleView(m: Machine): View {
    View(false, m.decodeStage.valid, m.executeStage.valid, m.memoryStage.valid,
         m.writebackStage.valid, false, false, false, m.halted)
  }

  function WrittenRegisters(registers: RegisterFile, wb: Packet, fault: bool): RegisterFile {
    if RegisterWritten(wb, fault) then registers[wb.rd := wb.result] else registers
  }

  function WritebackState(m: Machine, bus: BusInputs): Machine {
    var wb := m.writebackStage;
    var done, fault, terminal := WritebackDone(wb, bus), WritebackFault(wb, bus), Terminal(wb, bus);
    m.(
      registers := if done then WrittenRegisters(m.registers, wb, fault) else m.registers,
      archPc := if !done then m.archPc else if fault then wb.pc else wb.nextPc,
      order := if done then FollowingOrder(m.order) else m.order,
      writebackStage := if done then wb.(valid := false) else wb,
      memoryStage := if terminal then m.memoryStage.(valid := false) else m.memoryStage,
      executeStage := if terminal then m.executeStage.(valid := false) else m.executeStage,
      decodeStage := if terminal then m.decodeStage.(valid := false) else m.decodeStage,
      fetchBuffer := if terminal then m.fetchBuffer.(valid := false) else m.fetchBuffer,
      fetchBusy := m.fetchBusy && !terminal,
      stopping := m.stopping || terminal,
      halted := terminal)
  }

  function Writeback(m: Machine, bus: BusInputs): WritebackResult {
    var wb := m.writebackStage;
    if m.halted then
      WritebackResult(m, Pins(NO_REQUEST, NO_ACCESS, NO_RETIREMENT, IdleView(m)),
                      WritebackControl(false, false, false, false, false))
    else
      WritebackResult(
        WritebackState(m, bus),
        Pins(NO_REQUEST, StorePort(wb),
             if WritebackDone(wb, bus) then
               RetirementOf(wb, m.order, WritebackFault(wb, bus), StoreIssued(wb) && bus.dmemFault)
             else NO_RETIREMENT,
             IdleView(m)),
        WritebackControl(StoreIssued(wb), WritebackFault(wb, bus), WritebackDone(wb, bus),
                         !wb.valid || WritebackDone(wb, bus), Terminal(wb, bus)))
  }

  method ComputeWriteback(m: Machine, bus: BusInputs) returns (result: WritebackResult)
    ensures result == Writeback(m, bus)
  {
    hide FollowingOrder, ByteMask, StoreLanes, WordAddress, RawRange;
    var dmem, retire := NO_ACCESS, NO_RETIREMENT;
    var state := m;
    var flags := WritebackControl(false, false, false, false, false);
    if !m.halted {
      var wb := m.writebackStage;
      var wbStore := wb.valid && wb.store && !wb.trap;
      var wbFault := wb.trap || (wbStore && bus.dmemReady && bus.dmemFault);
      var wbDone := wb.valid && (!wbStore || bus.dmemReady);
      var wbSpace := !wb.valid || wbDone;
      var terminal := wbDone && wbFault;
      if wbStore {
        dmem := DataPort(true, true, WordAddress(wb.address), StoreLanes(wb.storeData, wb.address),
                         ByteMask(wb.size, wb.address));
      }
      var order, archPc, wbValid, registers := m.order, m.archPc, wb.valid, m.registers;
      if wbDone {
        retire := RetirementOf(wb, m.order, wbFault, wbStore && bus.dmemFault);
        order := FollowingOrder(m.order);
        archPc := if wbFault then wb.pc else wb.nextPc;
        wbValid := false;
        if retire.rdWrite {
          registers := registers[wb.rd := wb.result];
        }
      }
      var halted, stopping, fetchBusy := m.halted, m.stopping, m.fetchBusy;
      var decode, execute, memory, buffer := m.decodeStage, m.executeStage, m.memoryStage, m.fetchBuffer;
      if terminal {
        halted, stopping, fetchBusy := true, true, false;
        decode, execute := decode.(valid := false), execute.(valid := false);
        memory, buffer := memory.(valid := false), buffer.(valid := false);
      }
      state := Machine(registers, m.fetchPc, archPc, fetchBusy, m.fetchRequestPc, m.fetchKilled,
                       buffer, decode, execute, memory, wb.(valid := wbValid), stopping, halted, order);
      flags := WritebackControl(wbStore, wbFault, wbDone, wbSpace, terminal);
    }
    result := WritebackResult(state, Pins(NO_REQUEST, dmem, retire, IdleView(m)), flags);
  }

  // ------------------------------------------------------------------- memory

  datatype MemoryResult = MemoryResult(state: Machine, io: Pins, memory: Packet, control: MemoryControl)

  predicate LoadRequested(mem: Packet, wbStore: bool) {
    mem.valid && mem.load && !mem.trap && !mem.done && !wbStore
  }

  /** The packet once the bus has answered its load with `data`. */
  function LoadedPacket(mem: Packet, data: Word, fault: bool): Packet {
    Packet(
      mem.valid, mem.pc, mem.instruction, if fault then mem.pc else mem.nextPc,
      mem.rd, mem.writes && !fault, ReadLoad(data, mem.address, mem.size, mem.signedLoad),
      mem.load, mem.store, mem.address, mem.storeData, RawLoad(data, mem.address, mem.size),
      mem.size, mem.signedLoad, true, mem.redirect,
      mem.trap || fault, if fault then 5 else mem.cause, if fault then mem.address else mem.tval)
  }

  function AnsweredPacket(mem: Packet, wbStore: bool, bus: BusInputs): Packet {
    if LoadRequested(mem, wbStore) && bus.dmemReady then LoadedPacket(mem, bus.dmemData, bus.dmemFault) else mem
  }

  /** `mem` is the packet after the bus answer. */
  predicate MemoryMoves(mem: Packet, wbSpace: bool) {
    mem.valid && wbSpace && (!mem.load || mem.done || mem.trap)
  }

  function LoadPort(mem: Packet): DataPort {
    DataPort(true, false, WordAddress(mem.address), 0, ByteMask(mem.size, mem.address))
  }

  /** The load request sets the valid, address and mask pins over the writeback pins. */
  function MemoryPort(mem: Packet, wbStore: bool, port: DataPort): DataPort {
    if LoadRequested(mem, wbStore) then
      port.(valid := true, address := LoadPort(mem).address, mask := LoadPort(mem).mask)
    else port
  }

  function MemoryState(m: Machine, prior: Machine, wbc: WritebackControl, bus: BusInputs): Machine {
    var mem := AnsweredPacket(m.memoryStage, wbc.store, bus);
    var answered := LoadRequested(m.memoryStage, wbc.store) && bus.dmemReady;
    var moves, fault := MemoryMoves(mem, wbc.space), mem.valid && mem.trap;
    var held := if answered then mem else prior.memoryStage;
    prior.(
      writebackStage := if moves then mem else prior.writebackStage,
      memoryStage := if moves then held.(valid := false) else held,
      executeStage := if fault then prior.executeStage.(valid := false) else prior.executeStage,
      decodeStage := if fault then prior.decodeStage.(valid := false) else prior.decodeStage,
      fetchBuffer := if fault then prior.fetchBuffer.(valid := false) else prior.fetchBuffer,
      fetchKilled := if fault then m.fetchBusy else prior.fetchKilled,
      stopping := prior.stopping || fault)
  }

  function Memory(m: Machine, prior: Machine, io: Pins, wbc: WritebackControl, bus: BusInputs): MemoryResult {
    var mem := AnsweredPacket(m.memoryStage, wbc.store, bus);
    MemoryResult(
      MemoryState(m, prior, wbc, bus),
      io.(dmem := MemoryPort(m.memoryStage, wbc.store, io.dmem)),
      mem,
      MemoryControl(mem.valid && mem.trap, !mem.valid || MemoryMoves(mem, wbc.space)))
  }

  /** The load half of the memory stage, lines 36 to 58 of the source function. */
  method ComputeAnswer(m: Machine, port: DataPort, wbStore: bool, bus: BusInputs)
    returns (mem: Packet, dmem: DataPort, answered: bool)
    ensures mem == AnsweredPacket(m.memoryStage, wbStore, bus)
    ensures dmem == MemoryPort(m.memoryStage, wbStore, port)
    ensures answered == (LoadRequested(m.memoryStage, wbStore) && bus.dmemReady)
  {
    hide ByteMask, WordAddress, ReadLoad, RawLoad;
    mem, dmem := m.memoryStage, port;
    var loadRequest := mem.valid && mem.load && !mem.trap && !mem.done && !wbStore;
    if loadRequest {
      dmem := DataPort(true, dmem.write, WordAddress(mem.address), dmem.data, ByteMask(mem.size, mem.address));
    }
    answered := loadRequest && bus.dmemReady;
    if answered {
      var trap, cause, tval, writes, nextPc := mem.trap, mem.cause, mem.tval, mem.writes, mem.nextPc;
      if bus.dmemFault {
        trap, cause, tval, writes, nextPc := true, 5, mem.address, false, mem.pc;
      }
      mem := Packet(
        mem.valid, mem.pc, mem.instruction, nextPc, mem.rd, writes,
        ReadLoad(bus.dmemData, mem.address, mem.size, mem.signedLoad),
        mem.load, mem.store, mem.address, mem.storeData, RawLoad(bus.dmemData, mem.address, mem.size),
        mem.size, mem.signedLoad, true, mem.redirect, trap, cause, tval);
    }
  }

  method ComputeMemory(m: Machine, prior: Machine, io: Pins, wbc: WritebackControl, bus: BusInputs)
    returns (result: MemoryResult)
    ensures result == Memory(m, prior, io, wbc, bus)
  {
    hide AnsweredPacket, MemoryPort, LoadRequested;
    var mem, dmem, answered := ComputeAnswer(m, io.dmem, wbc.store, bus);
    var memory := if answered then mem else prior.memoryStage;
    var memFault := mem.valid && mem.trap;
    var memMove := mem.valid && wbc.space && (!mem.load || mem.done || mem.trap);
    var writeback := prior.writebackStage;
    if memMove {
      writeback := mem;
      memory := memory.(valid := false);
    }
    var memSpace := !mem.valid || memMove;
    var stopping, fetchKilled := prior.stopping, prior.fetchKilled;
    var execute, decode, buffer := prior.executeStage, prior.decodeStage, prior.fetchBuffer;
    if memFault {
      stopping, fetchKilled := true, m.fetchBusy;
      execute, decode, buffer := execute.(valid := false), decode.(valid := false), buffer.(valid := false);
    }
    result := MemoryResult(
      Machine(prior.registers, prior.fetchPc, prior.archPc, prior.fetchBusy, prior.fetchRequestPc, fetchKilled,
              buffer, decode, execute, memory, writeback, stopping, prior.halted, prior.order),
      Pins(io.imem, dmem, io.retire, io.view), mem, MemoryControl(memFault, memSpace));
  }

  // ------------------------------------------------------------------ execute

  datatype ExecuteResult = ExecuteResult(state: Machine, io: Pins, control: ExecuteControl)

  predicate WritebackForwards(wb: Packet, wbFault: bool) {
    wb.valid && wb.writes && wb.rd != 0 && !wbFault
  }

  predicate MemoryForwards(mem: Packet) {
    mem.valid && mem.writes && mem.rd != 0 && !mem.trap && (!mem.load || mem.done)
  }

  /** An operand of the execute stage: a ready memory-stage result before a
      writeback-stage result before the value already held. */
  function Forwarded(used: bool, source: Register, held: Word, wb: Packet, wbFault: bool, mem: Packet): Word {
    if used && MemoryForwards(mem) && source == mem.rd then mem.result
    else if used && WritebackForwards(wb, wbFault) && source == wb.rd then wb.result
    else held
  }

  function FirstOperand(ex: Execute, wb: Packet, wbFault: bool, mem: Packet): Word {
    Forwarded(ex.control.use1, ex.control.rs1, ex.first, wb, wbFault, mem)
  }

  function SecondOperand(ex: Execute, wb: Packet, wbFault: bool, mem: Packet): Word {
    Forwarded(ex.control.use2, ex.control.rs2, ex.second, wb, wbFault, mem)
  }

  function ExecutedPacket(ex: Execute, wb: Packet, wbFault: bool, mem: Packet): Packet {
    Arithmetic(ex.control, ex.pc, ex.instruction, FirstOperand(ex, wb, wbFault, mem),
      SecondOperand(ex, wb, wbFault, mem))
  }

  predicate ExecuteMoves(ex: Execute, mc: MemoryControl) { ex.valid && mc.space && !mc.fault }

  function HeldExecute(m: Execute, prior: Execute, moves: bool, wb: Packet, wbFault: bool, mem: Packet): Execute {
    if !m.valid then prior
    else Execute(prior.valid && !moves, prior.pc, prior.instruction, prior.control,
                 FirstOperand(m, wb, wbFault, mem), SecondOperand(m, wb, wbFault, mem))
  }

  function ExecuteState(m: Machine, prior: Machine, wbc: WritebackControl, mem: Packet, mc: MemoryControl): Machine {
    var ex, wb := m.executeStage, m.writebackStage;
    var moves := ExecuteMoves(ex, mc);
    var packet := ExecutedPacket(ex, wb, wbc.fault, mem);
    var kill := moves && (packet.redirect || packet.trap);
    prior.(
      executeStage := HeldExecute(ex, prior.executeStage, moves, wb, wbc.fault, mem),
      memoryStage := if moves then packet else prior.memoryStage,
      stopping := prior.stopping || (moves && packet.trap),
      fetchPc := if moves && packet.redirect then packet.nextPc else prior.fetchPc,
      decodeStage := if kill then prior.decodeStage.(valid := false) else prior.decodeStage,
      fetchBuffer := if kill then prior.fetchBuffer.(valid := false) else prior.fetchBuffer,
      fetchKilled := if kill then m.fetchBusy else prior.fetchKilled)
  }

  function ExecuteLogic(
    m: Machine, prior: Machine, io: Pins, wbc: WritebackControl, mem: Packet, mc: MemoryControl): ExecuteResult
  {
    var moves := ExecuteMoves(m.executeStage, mc);
    var packet := ExecutedPacket(m.executeStage, m.writebackStage, wbc.fault, mem);
    ExecuteResult(
      ExecuteState(m, prior, wbc, mem, mc), io,
      ExecuteControl(moves, if moves then packet.redirect || packet.trap else mc.fault,
                     moves && packet.redirect, mc.fault))
  }

  /** Operand selection, lines 41 to 59 of the source function. */
  method ComputeOperands(ex: Execute, wb: Packet, wbFault: bool, mem: Packet) returns (first: Word, second: Word)
    requires ex.valid
    ensures first == FirstOperand(ex, wb, wbFault, mem)
    ensures second == SecondOperand(ex, wb, wbFault, mem)
  {
    first, second := ex.first, ex.second;
    if wb.valid && wb.writes && wb.rd != 0 && !wbFault {
      if ex.control.use1 && ex.control.rs1 == wb.rd { first := wb.result; }
      if ex.control.use2 && ex.control.rs2 == wb.rd { second := wb.result; }
    }
    if mem.valid && mem.writes && mem.rd != 0 && !mem.trap && (!mem.load || mem.done) {
      if ex.control.use1 && ex.control.rs1 == mem.rd { first := mem.result; }
      if ex.control.use2 && ex.control.rs2 == mem.rd { second := mem.result; }
    }
  }

  method ComputeExecuteLogic(
    m: Machine, prior: Machine, io: Pins, wbc: WritebackControl, mem: Packet, mc: MemoryControl)
    returns (result: ExecuteResult)
    ensures result == ExecuteLogic(m, prior, io, wbc, mem, mc)
  {
    hide Arithmetic, FirstOperand, SecondOperand;
    var ex, wb := m.executeStage, m.writebackStage;
    var exMove := ex.valid && mc.space && !mc.fault;
    var redirected, killFront, exValid := false, mc.fault, prior.executeStage.valid;
    var first, second := prior.executeStage.first, prior.executeStage.second;
    if ex.valid {
      first, second := ComputeOperands(ex, wb, wbc.fault, mem);
    }
    var memory, stopping, fetchPc := prior.memoryStage, prior.stopping, prior.fetchPc;
    var decode, buffer, fetchKilled := prior.decodeStage, prior.fetchBuffer, prior.fetchKilled;
    if exMove {
      var packet := ComputeArithmetic(ex.control, ex.pc, ex.instruction, first, second);
      memory := packet;
      exValid := false;
      redirected := packet.redirect;
      killFront := packet.redirect || packet.trap;
      if packet.trap { stopping := true; }
      if packet.redirect { fetchPc := packet.nextPc; }
      if killFront {
        decode, buffer, fetchKilled := decode.(valid := false), buffer.(valid := false), m.fetchBusy;
      }
    }
    result := ExecuteResult(
      Machine(prior.registers, fetchPc, prior.archPc, prior.fetchBusy, prior.fetchRequestPc, fetchKilled,
              buffer, decode, prior.executeStage.(valid := exValid, first := first, second := second),
              memory, prior.writebackStage, stopping, prior.halted, prior.order),
      io, ExecuteControl(exMove, killFront, redirected, mc.fault));
  }

  // ----------------------------------------------------------------- frontend

  datatype FrontendResult = FrontendResult(state: Machine, io: Pins)

  /** Decoded control of a fetched word; a faulting fetch forces an access-fault trap
      over whatever the returned word decodes to. */
  function FetchControl(instruction: Word, fault: bool, pc: Word): Decoded {
    var c := Decode(instruction);
    if fault then c.(trap := true, cause := 1, tval := pc, writes := false) else c
  }

  predicate LoadUse(ex: Execute, c: Decoded) {
    ex.valid && ex.control.load && ex.control.rd != 0
    && ((c.use1 && c.rs1 == ex.control.rd) || (c.use2 && c.rs2 == ex.control.rd))
  }

  predicate DecodeMoves(id: Fetch, ex: Execute, c: Decoded, ec: ExecuteControl, stopping: bool) {
    id.valid && (!ex.valid || ec.moved) && !LoadUse(ex, c) && !ec.kill && !stopping
  }

  /** A register operand read in decode, with the retiring result written through. */
  function DecodeOperand(registers: RegisterFile, source: Register, wb: Packet, retiring: bool): Word {
    if retiring && source == wb.rd then wb.result else ReadRegister(registers, source)
  }

  function Issued(m: Machine, c: Decoded, retiring: bool): Execute {
    Execute(true, m.decodeStage.pc, m.decodeStage.instruction, c,
            DecodeOperand(m.registers, c.rs1, m.writebackStage, retiring),
            DecodeOperand(m.registers, c.rs2, m.writebackStage, retiring))
  }

  predicate Launches(m: Machine, idSpace: bool, kill: bool, stopping: bool) {
    !m.fetchBusy && !m.fetchBuffer.valid && idSpace && !kill && !stopping
  }

  function RequestPort(m: Machine, launch: bool): FetchPort {
    FetchPort(m.fetchBusy || launch, if m.fetchBusy then m.fetchRequestPc else m.fetchPc)
  }

  predicate Accepts(m: Machine, port: FetchPort, kill: bool, stopping: bool, bus: BusInputs) {
    port.valid && bus.imemReady && !m.fetchKilled && !kill && !stopping
  }

  function FrontendState(m: Machine, prior: Machine, io: Pins, ec: ExecuteControl, bus: BusInputs): Machine {
    var id := m.decodeStage;
    var c := FetchControl(id.instruction, id.fault, id.pc);
    var idMove := DecodeMoves(id, m.executeStage, c, ec, prior.stopping);
    var idSpace := !id.valid || idMove;
    var advance := m.fetchBuffer.valid && idSpace && !ec.kill && !prior.stopping;
    var port := RequestPort(m, Launches(m, idSpace, ec.kill, prior.stopping));
    var accept := Accepts(m, port, ec.kill, prior.stopping, bus);
    var fetched := Fetch(true, port.address, bus.imemData, bus.imemFault);
    prior.(
      executeStage := if idMove then Issued(m, c, io.retire.rdWrite) else prior.executeStage,
      decodeStage :=
        if accept && idSpace then fetched
        else if advance then m.fetchBuffer
        else if idMove then prior.decodeStage.(valid := false)
        else prior.decodeStage,
      fetchBuffer :=
        if accept && !idSpace then fetched
        else if advance then prior.fetchBuffer.(valid := false)
        else prior.fetchBuffer,
      fetchPc := if accept then FollowingPc(port.address) else prior.fetchPc,
      fetchBusy := if port.valid then !bus.imemReady else prior.fetchBusy,
      fetchKilled := if port.valid && bus.imemReady then false else prior.fetchKilled,
      fetchRequestPc := if port.valid && !bus.imemReady then port.address else prior.fetchRequestPc)
  }

  function FrontendPins(m: Machine, prior: Machine, io: Pins, ec: ExecuteControl, bus: BusInputs): Pins {
    var id := m.decodeStage;
    var c := FetchControl(id.instruction, id.fault, id.pc);
    var idMove := DecodeMoves(id, m.executeStage, c, ec, prior.stopping);
    Pins(
      RequestPort(m, Launches(m, !id.valid || idMove, ec.kill, prior.stopping)), io.dmem, io.retire,
      io.view.(loadUse := id.valid && LoadUse(m.executeStage, c) && ec.moved && !ec.kill,
               redirected := ec.redirected || ec.memoryFault,
               memoryWait := io.dmem.valid && !bus.dmemReady))
  }

  function Frontend(m: Machine, prior: Machine, io: Pins, ec: ExecuteControl, bus: BusInputs): FrontendResult {
    FrontendResult(FrontendState(m, prior, io, ec, bus), FrontendPins(m, prior, io, ec, bus))
  }

  /** The decode half of the frontend, lines 38 to 80 of the source function. */
  method ComputeIssue(m: Machine, stopping: bool, io: Pins, ec: ExecuteControl)
    returns (idMove: bool, loadUse: bool, issued: Execute)
    ensures var id := m.decodeStage;
            var c := FetchControl(id.instruction, id.fault, id.pc);
            && idMove == DecodeMoves(id, m.executeStage, c, ec, stopping)
            && loadUse == (id.valid && LoadUse(m.executeStage, c) && ec.moved && !ec.kill)
            && issued == Issued(m, c, io.retire.rdWrite)
  {
    hide Decode;
    var id, ex, wb := m.decodeStage, m.executeStage, m.writebackStage;
    var control := ComputeDecoder(id.instruction);
    if id.fault {
      control := control.(trap := true, cause := 1, tval := id.pc, writes := false);
    }
    assert control == FetchControl(id.instruction, id.fault, id.pc);
    hide FetchControl;
    var dependency := ex.valid && ex.control.load && ex.control.rd != 0
      && ((control.use1 && control.rs1 == ex.control.rd) || (control.use2 && control.rs2 == ex.control.rd));
    var exSpace := !ex.valid || ec.moved;
    idMove := id.valid && exSpace && !dependency && !ec.kill && !stopping;
    loadUse := id.valid && dependency && ec.moved && !ec.kill;
    var first: Word := if control.rs1 != 0 then m.registers[control.rs1] else 0;
    var second: Word := if control.rs2 != 0 then m.registers[control.rs2] else 0;
    if io.retire.rdWrite {
      if control.rs1 == wb.rd { first := wb.result; }
      if control.rs2 == wb.rd { second := wb.result; }
    }
    issued := Execute(true, id.pc, id.instruction, control, first, second);
  }

  /** The fetch half of the frontend, lines 89 to 116. */
  method ComputeFetch(m: Machine, prior: Machine, idSpace: bool, kill: bool, bus: BusInputs)
    returns (imem: FetchPort, accepted: bool, fetched: Fetch, fetchPc: Word, fetchBusy: bool, fetchKilled: bool,
             fetchRequestPc: Word)
    ensures imem == RequestPort(m, Launches(m, idSpace, kill, prior.stopping))
    ensures accepted == Accepts(m, imem, kill, prior.stopping, bus)
    ensures fetched == Fetch(true, imem.address, bus.imemData, bus.imemFault)
    ensures fetchPc == if accepted then FollowingPc(imem.address) else prior.fetchPc
    ensures fetchBusy == if imem.valid then !bus.imemReady else prior.fetchBusy
    ensures fetchKilled == if imem.valid && bus.imemReady then false else prior.fetchKilled
    ensures fetchRequestPc == if imem.valid && !bus.imemReady then imem.address else prior.fetchRequestPc
  {
    hide FollowingPc;
    var launch := !m.fetchBusy && !m.fetchBuffer.valid && idSpace && !kill && !prior.stopping;
    imem := FetchPort(m.fetchBusy || launch, if m.fetchBusy then m.fetchRequestPc else m.fetchPc);
    fetched := Fetch(true, imem.address, bus.imemData, bus.imemFault);
    fetchBusy, fetchKilled, accepted := prior.fetchBusy, prior.fetchKilled, false;
    fetchPc, fetchRequestPc := prior.fetchPc, prior.fetchRequestPc;
    if imem.valid {
      if bus.imemReady {
        fetchBusy, fetchKilled := false, false;
        if !m.fetchKilled && !kill && !prior.stopping {
          accepted := true;
          fetchPc := FollowingPc(imem.address);
        }
      } else {
        fetchBusy, fetchRequestPc := true, imem.address;
      }
    }
  }

  /** What the decode stage and the fetch buffer hold next: later moves override earlier ones. */
  method ComputeSlots(m: Machine, prior: Machine, idMove: bool, idSpace: bool, advance: bool, accepted: bool,
                      fetched: Fetch)
    returns (decode: Fetch, buffer: Fetch)
    ensures decode == if accepted && idSpace then fetched
                      else if advance then m.fetchBuffer
                      else if idMove then prior.decodeStage.(valid := false)
                      else prior.decodeStage
    ensures buffer == if accepted && !idSpace then fetched
                      else if advance then prior.fetchBuffer.(valid := false)
                      else prior.fetchBuffer
  {
    decode, buffer := prior.decodeStage, prior.fetchBuffer;
    if idMove { decode := decode.(valid := false); }
    if advance {
      decode := m.fetchBuffer;
      buffer := buffer.(valid := false);
    }
    if accepted {
      if idSpace { decode := fetched; } else { buffer := fetched; }
    }
  }

  method ComputeFrontend(m: Machine, prior: Machine, io: Pins, ec: ExecuteControl, bus: BusInputs)
    returns (result: FrontendResult)
    ensures result == Frontend(m, prior, io, ec, bus)
  {
    hide Decode, FetchControl, FollowingPc, Issued, DecodeMoves, LoadUse, RequestPort, Launches, Accepts;
    var execute, decode, buffer := prior.executeStage, prior.decodeStage, prior.fetchBuffer;
    var idMove, loadUse, issued := ComputeIssue(m, prior.stopping, io, ec);
    if idMove { execute := issued; }
    var idSpace := !m.decodeStage.valid || idMove;
    var imem, accepted, fetched, fetchPc, fetchBusy, fetchKilled, fetchRequestPc :=
      ComputeFetch(m, prior, idSpace, ec.kill, bus);
    var advance := m.fetchBuffer.valid && idSpace && !ec.kill && !prior.stopping;
    decode, buffer := ComputeSlots(m, prior, idMove, idSpace, advance, accepted, fetched);
    result := FrontendResult(
      Machine(prior.registers, fetchPc, prior.archPc, fetchBusy, fetchRequestPc, fetchKilled,
              buffer, decode, execute, prior.memoryStage, prior.writebackStage,
              prior.stopping, prior.halted, prior.order),
      Pins(imem, io.dmem, io.retire,
           io.view.(loadUse := loadUse, redirected := ec.redirected || ec.memoryFault,
                    memoryWait := io.dmem.valid && !bus.dmemReady)));
  }

  /** A halted machine, or one whose oldest instruction just trapped, keeps only the
      writeback stage's work of this cycle. */
  function Finalize(
    m: Machine, stopped: Machine, stoppedIo: Pins, active: Machine, activeIo: Pins, terminal: bool): FrontendResult
  {
    var (state, io) := if m.halted || terminal then (stopped, stoppedIo) else (active, activeIo);
    FrontendResult(state, io.(view := io.view.(stageIf := io.imem.valid || m.fetchBuffer.valid)))
  }
}
