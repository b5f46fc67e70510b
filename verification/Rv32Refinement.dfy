/** Every run of the pipeline is a run of the sequential machine. */
module Rv32Refinement {
  import opened Rv32Types
  import opened Rv32Arithmetic
  import opened Rv32Stages
  import opened Rv32Core
  import opened Rv32Machine
  import opened Rv32Structure
  import opened Rv32Operands

  // ------------------------------------------------------------- the platform

  /** The bus answers this cycle's requests as the platform and the data memory do.  What it
      drives when nothing is asked, or as data beside a fault, is free. */
  predicate Answers(p: Platform, memory: DataMemory, io: Pins, bus: BusInputs) {
    && (io.imem.valid && bus.imemReady ==> p.instruction(io.imem.address) == Reply(bus.imemData, bus.imemFault))
    && (io.dmem.valid && bus.dmemReady ==>
          && bus.dmemFault == p.refuses(io.dmem.write, io.dmem.address, io.dmem.mask)
          && (!io.dmem.write && !bus.dmemFault ==> bus.dmemData == ReadWord(memory, io.dmem.address)))
  }

  /** A store takes effect in the cycle it is answered without a fault. */
  function MemoryAfter(memory: DataMemory, io: Pins, bus: BusInputs): DataMemory {
    if io.dmem.valid && io.dmem.write && bus.dmemReady && !bus.dmemFault then
      WriteWord(memory, io.dmem.address, io.dmem.data, io.dmem.mask)
    else memory
  }

  // ------------------------------------------------------------ the invariant

  /** The state all retired instructions have left. */
  function Committed(m: Machine, memory: DataMemory): Arch {
    Arch(m.registers, m.archPc, memory, m.order, m.halted)
  }

  function After(p: Platform, a: Arch, occupied: bool): Arch { if occupied then Step(p, a) else a }

  /** The state the memory-stage instruction starts from. */
  function BeforeMemory(p: Platform, m: Machine, memory: DataMemory): Arch {
    After(p, Committed(m, memory), m.writebackStage.valid)
  }

  /** The state the execute-stage instruction starts from. */
  function BeforeExecute(p: Platform, m: Machine, memory: DataMemory): Arch {
    After(p, BeforeMemory(p, m, memory), m.memoryStage.valid)
  }

  predicate WritebackMatches(p: Platform, wb: Packet, a: Arch) {
    wb.valid ==> Visible(wb) == Visible(Final(p, a))
  }

  predicate MemoryMatches(p: Platform, mem: Packet, a: Arch) {
    mem.valid && !a.halted ==> Visible(mem) == Visible(Executed(p, a))
  }

  /** An older instruction still in flight is going to write `r`. */
  predicate Pending(wb: Packet, mem: Packet, r: Register) {
    r != 0 && ((wb.valid && wb.writes && wb.rd == r) || (mem.valid && mem.writes && mem.rd == r))
  }

  /** A held operand is architectural unless an older instruction will still forward it. */
  predicate OperandMatches(wb: Packet, mem: Packet, used: bool, r: Register, held: Word, a: Arch) {
    used && !Pending(wb, mem, r) ==> held == ReadRegister(a.registers, r)
  }

  predicate ExecuteMatches(p: Platform, m: Machine, a: Arch) {
    var ex, reply := m.executeStage, p.instruction(a.pc);
    ex.valid && !a.halted ==>
      && ex.pc == a.pc
      && ex.instruction == reply.data
      && ex.control == FetchControl(reply.data, reply.fault, a.pc)
      && OperandMatches(m.writebackStage, m.memoryStage, ex.control.use1, ex.control.rs1, ex.first, a)
      && OperandMatches(m.writebackStage, m.memoryStage, ex.control.use2, ex.control.rs2, ex.second, a)
  }

  predicate FetchMatches(p: Platform, f: Fetch, pc: Word) {
    f.valid ==> f == Fetch(true, pc, p.instruction(pc).data, p.instruction(pc).fault)
  }

  function Past(pc: Word, occupied: bool): Word { if occupied then FollowingPc(pc) else pc }

  /** The address predicted to follow the execute stage. */
  function Predicted(m: Machine, a: Arch): Word {
    if m.executeStage.valid then FollowingPc(m.executeStage.pc) else a.pc
  }

  /** The unbroken chain of fetched addresses from the execute stage to the fetch address. */
  predicate FrontMatches(p: Platform, m: Machine, a: Arch) {
    var pc := Predicted(m, a);
    var pc' := Past(pc, m.decodeStage.valid);
    !a.halted ==>
      && FetchMatches(p, m.decodeStage, pc)
      && FetchMatches(p, m.fetchBuffer, pc')
      && m.fetchPc == Past(pc', m.fetchBuffer.valid)
  }

  predicate BackMatches(p: Platform, m: Machine, memory: DataMemory) {
    && WritebackMatches(p, m.writebackStage, Committed(m, memory))
    && MemoryMatches(p, m.memoryStage, BeforeMemory(p, m, memory))
  }

  predicate Simulates(p: Platform, m: Machine, memory: DataMemory) {
    && Structure(m)
    && (!m.halted ==>
          && BackMatches(p, m, memory)
          && ExecuteMatches(p, m, BeforeExecute(p, m, memory))
          && FrontMatches(p, m, BeforeExecute(p, m, memory)))
  }

  // --------------------------------------------------- packets and retirement

  lemma VisibleRetires(p: Platform, a: Arch, q: Packet, x: Packet)
    requires Visible(q) == Visible(x)
    requires x.load && !x.trap ==> x.done
    ensures Retired(p, a, q) == Retired(p, a, x)
    ensures RecordOf(p, a.order, q) == RecordOf(p, a.order, x)
    ensures Faults(p, q) == Faults(p, x) && StoreRefused(p, q) == StoreRefused(p, x)
  {
    hide WordAddress, ByteMask, StoreLanes, RawRange, WriteWord, FollowingOrder;
  }

  lemma LoadedVisible(q: Packet, x: Packet, data: Word, data': Word, fault: bool)
    requires Visible(q) == Visible(x) && q.load && !q.trap
    requires !fault ==> data == data'
    ensures Visible(LoadedPacket(q, data, fault)) == Visible(LoadedPacket(x, data', fault))
  {
    hide Rv32Decoder.ReadLoad, RawLoad;
  }

  /** The committed part of the next state, halting or not. */
  lemma CommitFields(m: Machine, bus: BusInputs)
    requires !m.halted
    ensures var m', io, wb := Cycle(m, bus).state, Cycle(m, bus).io, m.writebackStage;
            var fault := WritebackFault(wb, bus);
            && m'.registers == (if Retires(m, bus) then WrittenRegisters(m.registers, wb, fault) else m.registers)
            && m'.archPc == (if !Retires(m, bus) then m.archPc else if fault then wb.pc else wb.nextPc)
            && m'.order == (if Retires(m, bus) then FollowingOrder(m.order) else m.order)
            && m'.halted == Terminal(wb, bus)
            && io.retire == RetireRecord(m, bus)
            && io.dmem == (if Running(m, bus) then DataRequest(m) else StorePort(wb))
  {
    hide Cycle, RetirementOf, FollowingOrder, StorePort, LoadPort;
    if Running(m, bus) {
      RunningCycle(m, bus);
      RunningPins(m, bus);
    } else {
      StoppedCycle(m, bus);
    }
  }

  /** The bus's verdict on the retiring packet is the platform's. */
  lemma BusVerdict(p: Platform, m: Machine, memory: DataMemory, io: Pins, bus: BusInputs)
    requires Retires(m, bus) && Answers(p, memory, io, bus)
    requires io.dmem == (if Running(m, bus) then DataRequest(m) else StorePort(m.writebackStage))
    ensures var wb := m.writebackStage;
            && WritebackFault(wb, bus) == Faults(p, wb)
            && (StoreIssued(wb) && bus.dmemFault) == StoreRefused(p, wb)
            && MemoryAfter(memory, io, bus) == StoredMemory(p, memory, wb)
  {
    hide WordAddress, ByteMask, StoreLanes, WriteWord, ReadWord;
  }

  lemma FinalIsAnswered(p: Platform, a: Arch)
    ensures var x := Final(p, a); x.load && !x.trap ==> x.done
  {
    hide Executed, Rv32Decoder.ReadLoad, RawLoad;
  }

  /** Retiring the writeback packet is one step of the sequential machine. */
  lemma RetiringSteps(p: Platform, m: Machine, memory: DataMemory, bus: BusInputs)
    requires Simulates(p, m, memory) && !m.halted && Retires(m, bus)
    requires Answers(p, memory, Cycle(m, bus).io, bus)
    ensures var m', io := Cycle(m, bus).state, Cycle(m, bus).io;
            && Committed(m', MemoryAfter(memory, io, bus)) == Step(p, Committed(m, memory))
            && io.retire == Event(p, Committed(m, memory))
            && m'.halted == Faults(p, m.writebackStage)
  {
    hide Cycle, Executed, LoadedPacket, WriteWord, RetirementOf, FollowingOrder, StoredMemory, StoreRefused, Visible,
      ReadWord, BeforeMemory, BeforeExecute, MemoryAfter, WritebackFault, Answers, Structure, Faults;
    CommitFields(m, bus);
    BusVerdict(p, m, memory, Cycle(m, bus).io, bus);
    FinalIsAnswered(p, Committed(m, memory));
    VisibleRetires(p, Committed(m, memory), m.writebackStage, Final(p, Committed(m, memory)));
  }

  lemma IdlingKeeps(p: Platform, m: Machine, memory: DataMemory, bus: BusInputs)
    requires !m.halted && !Retires(m, bus)
    ensures var m', io := Cycle(m, bus).state, Cycle(m, bus).io;
            && Committed(m', MemoryAfter(memory, io, bus)) == Committed(m, memory)
            && io.retire == NO_RETIREMENT
            && MemoryAfter(memory, io, bus) == memory
            && Running(m, bus)
  {
    hide Cycle, RetirementOf, WriteWord;
    CommitFields(m, bus);
  }

  // --------------------------------- how the in-flight instructions shift along

  lemma StagesFilled(m: Machine, bus: BusInputs)
    ensures Mem(m, bus).valid == m.memoryStage.valid
    ensures NextWriteback(m, bus).valid == (MemMoves(m, bus) || (m.writebackStage.valid && !Retires(m, bus)))
    ensures NextMemory(m, bus).valid == (ExMoves(m, bus) || (m.memoryStage.valid && !MemMoves(m, bus)))
    ensures MemMoves(m, bus) ==> m.memoryStage.valid && (!m.writebackStage.valid || Retires(m, bus))
    ensures Retires(m, bus) ==> m.writebackStage.valid
  {
    hide Rv32Decoder.ReadLoad, RawLoad, Alu, NextPc, Traps, TrapCause, TrapValue, Add, FirstOperand, SecondOperand;
  }

  /** The next cycle's reference states are this cycle's, one instruction on wherever a stage moved. */
  lemma ChainShifts(p: Platform, m: Machine, memory: DataMemory, m': Machine, memory': DataMemory, bus: BusInputs)
    requires Running(m, bus) && m' == RunningState(m, bus)
    requires Committed(m', memory') == After(p, Committed(m, memory), Retires(m, bus))
    ensures MemMoves(m, bus) ==> Committed(m', memory') == BeforeMemory(p, m, memory)
    ensures BeforeMemory(p, m', memory')
         == if MemSpace(m, bus) then BeforeExecute(p, m, memory) else BeforeMemory(p, m, memory)
    ensures BeforeExecute(p, m', memory') == After(p, BeforeExecute(p, m, memory), ExMoves(m, bus))
  {
    hide Step, Committed, NextExecute, NextDecode, NextBuffer, NextFetchPc, NextKilled, Port, Stops, WrittenRegisters,
      FollowingOrder, Terminal, Mem, MemMoves, ExPacket, Retires, MemFaults, NextWriteback, NextMemory;
    StagesFilled(m, bus);
  }

  /** When writeback empties without halting, the memory stage's turn has come, and unless
      writeback held a store the data memory is already the one its load must see. */
  lemma MemoryTurn(p: Platform, m: Machine, memory: DataMemory, bus: BusInputs)
    requires Simulates(p, m, memory) && Running(m, bus)
    requires Answers(p, memory, Cycle(m, bus).io, bus)
    requires m.writebackStage.valid ==> Retires(m, bus)
    ensures !BeforeMemory(p, m, memory).halted
    ensures !StoreIssued(m.writebackStage) ==> BeforeMemory(p, m, memory).memory == memory
  {
    hide Cycle, Executed, LoadedPacket, WriteWord, RetirementOf, FollowingOrder, Visible, ReadWord, BeforeExecute,
      Answers, Structure, WrittenRegisters, WordAddress, ByteMask, StoreLanes;
    if m.writebackStage.valid {
      var a := Committed(m, memory);
      CommitFields(m, bus);
      BusVerdict(p, m, memory, Cycle(m, bus).io, bus);
      FinalIsAnswered(p, a);
      VisibleRetires(p, a, m.writebackStage, Final(p, a));
      assert Step(p, a) == Retired(p, a, m.writebackStage);
    }
  }

  /** The packet that leaves the memory stage is the instruction with its load done. */
  lemma MovedIsFinal(p: Platform, m: Machine, memory: DataMemory, bus: BusInputs)
    requires Simulates(p, m, memory) && Running(m, bus) && MemMoves(m, bus)
    requires Answers(p, memory, Cycle(m, bus).io, bus)
    ensures !BeforeMemory(p, m, memory).halted
    ensures Visible(Mem(m, bus)) == Visible(Final(p, BeforeMemory(p, m, memory)))
  {
    hide Cycle, Executed, ReadWord, BeforeExecute, LoadedPacket, WordAddress, ByteMask, Step, BeforeMemory, StorePort,
      Terminal, WritebackFault, FrontMatches, ExecuteMatches;
    StagesFilled(m, bus);
    MemoryTurn(p, m, memory, bus);
    var mem, x := m.memoryStage, Executed(p, BeforeMemory(p, m, memory));
    if mem.load && !mem.trap {
      assert LoadRequested(mem, StoreIssued(m.writebackStage)) && bus.dmemReady;
      RunningPins(m, bus);
      var data := ReadWord(memory, WordAddress(mem.address));
      LoadedVisible(mem, x, bus.dmemData, data, bus.dmemFault);
    }
  }

  // ------------------------------------------------------ operands of execute

  lemma RegisterAfter(p: Platform, a: Arch, q: Packet, r: Register)
    requires !a.halted && !Step(p, a).halted && Visible(q) == Visible(Final(p, a))
    ensures ReadRegister(Step(p, a).registers, r)
         == if q.writes && q.rd == r && r != 0 then q.result else ReadRegister(a.registers, r)
  {
    hide Executed, LoadedPacket, WriteWord, StoreRefused, Visible, Final, StoredMemory, FollowingOrder;
    FinalIsAnswered(p, a);
    VisibleRetires(p, a, q, Final(p, a));
  }

  /** An executed packet that will not write `r` leaves it alone. */
  lemma RegisterUntouched(p: Platform, a: Arch, q: Packet, r: Register)
    requires !a.halted && !Step(p, a).halted && Visible(q) == Visible(Executed(p, a))
    requires !(q.writes && q.rd == r && r != 0)
    ensures ReadRegister(Step(p, a).registers, r) == ReadRegister(a.registers, r)
  {
    hide Executed, WriteWord, StoreRefused, StoredMemory, FollowingOrder, Rv32Decoder.ReadLoad, RawLoad;
  }

  /** A step that is not halted started from a state that was not. */
  lemma NotHaltedBefore(p: Platform, a: Arch)
    ensures a.halted ==> Step(p, a).halted
  {
    hide Retired, Final;
  }

  /** A register nobody in flight will write already has its execute-stage value. */
  lemma QuietRegister(p: Platform, m: Machine, memory: DataMemory, r: Register)
    requires BackMatches(p, m, memory) && !m.halted && !BeforeExecute(p, m, memory).halted
    requires !Pending(m.writebackStage, m.memoryStage, r)
    ensures ReadRegister(BeforeExecute(p, m, memory).registers, r) == ReadRegister(m.registers, r)
  {
    hide Step, Visible, Executed, Final, ReadRegister, Structure, ExecuteMatches, FrontMatches;
    var a0, a1 := Committed(m, memory), BeforeMemory(p, m, memory);
    NotHaltedBefore(p, a1);
    if m.memoryStage.valid { RegisterUntouched(p, a1, m.memoryStage, r); }
    if m.writebackStage.valid { RegisterAfter(p, a0, m.writebackStage, r); }
  }

  /** A register writeback writes and memory does not. */
  lemma WritebackRegister(p: Platform, m: Machine, memory: DataMemory, r: Register)
    requires BackMatches(p, m, memory) && !m.halted && !BeforeExecute(p, m, memory).halted && r != 0
    requires m.writebackStage.valid && m.writebackStage.writes && m.writebackStage.rd == r
    requires !(m.memoryStage.valid && m.memoryStage.writes && m.memoryStage.rd == r)
    ensures ReadRegister(BeforeExecute(p, m, memory).registers, r) == m.writebackStage.result
  {
    hide Step, Visible, Executed, Final, ReadRegister, Structure, ExecuteMatches, FrontMatches;
    var a0, a1 := Committed(m, memory), BeforeMemory(p, m, memory);
    NotHaltedBefore(p, a1);
    if m.memoryStage.valid { RegisterUntouched(p, a1, m.memoryStage, r); }
    RegisterAfter(p, a0, m.writebackStage, r);
  }

  /** Away from a halt, the answered packet differs from the held one only in its load. */
  lemma AnsweredWrites(m: Machine, bus: BusInputs)
    requires !MemFaults(m, bus)
    ensures m.memoryStage.valid ==>
              Mem(m, bus).writes == m.memoryStage.writes && Mem(m, bus).rd == m.memoryStage.rd && !m.memoryStage.trap
    ensures Running(m, bus) && m.writebackStage.valid ==> !WritebackFault(m.writebackStage, bus)
  {
    hide Rv32Decoder.ReadLoad, RawLoad;
  }

  /** Whenever execute advances, an operand it uses is the value left by every older instruction. */
  lemma AdvancingOperand(
    p: Platform, m: Machine, memory: DataMemory, bus: BusInputs, used: bool, r: Register, held: Word)
    requires Simulates(p, m, memory) && Running(m, bus) && ExMoves(m, bus)
    requires Answers(p, memory, Cycle(m, bus).io, bus)
    requires used && !BeforeExecute(p, m, memory).halted
    requires OperandMatches(m.writebackStage, m.memoryStage, used, r, held, BeforeExecute(p, m, memory))
    ensures Forwarded(used, r, held, m.writebackStage, WritebackFault(m.writebackStage, bus), Mem(m, bus))
         == ReadRegister(BeforeExecute(p, m, memory).registers, r)
  {
    hide Step, Visible, Executed, Final, ReadRegister, Structure, ExecuteMatches, FrontMatches, Mem, Cycle, Answers,
      Terminal, Retires, WritebackFault;
    StagesFilled(m, bus);
    AnsweredWrites(m, bus);
    var a1 := BeforeMemory(p, m, memory);
    if m.memoryStage.valid && m.memoryStage.writes && m.memoryStage.rd == r && r != 0 {
      MovedIsFinal(p, m, memory, bus);
      RegisterAfter(p, a1, Mem(m, bus), r);
    } else if Pending(m.writebackStage, m.memoryStage, r) {
      WritebackRegister(p, m, memory, r);
    }
  }

  /** An operand held back by a blocked memory stage stays good: a producer that retires
      meanwhile has been captured. */
  lemma WaitingOperand(p: Platform, m: Machine, memory: DataMemory, bus: BusInputs, used: bool, r: Register, held: Word)
    requires Simulates(p, m, memory) && Running(m, bus) && !MemSpace(m, bus) && !MemFaults(m, bus)
    requires !BeforeExecute(p, m, memory).halted
    requires OperandMatches(m.writebackStage, m.memoryStage, used, r, held, BeforeExecute(p, m, memory))
    ensures OperandMatches(
              NextWriteback(m, bus), NextMemory(m, bus), used, r,
              Forwarded(used, r, held, m.writebackStage, WritebackFault(m.writebackStage, bus), Mem(m, bus)),
              BeforeExecute(p, m, memory))
  {
    hide Step, Visible, Executed, Final, ReadRegister, Structure, ExecuteMatches, FrontMatches, Mem, Terminal,
      BeforeExecute, ExPacket, WritebackFault;
    StagesFilled(m, bus);
    AnsweredWrites(m, bus);
    if used && r != 0 && !Pending(NextWriteback(m, bus), NextMemory(m, bus), r)
       && Pending(m.writebackStage, m.memoryStage, r) {
      WritebackRegister(p, m, memory, r);
    }
  }

  /** What execute hands on is the instruction executed on the architectural registers. */
  lemma AdvancingIsExecuted(p: Platform, m: Machine, memory: DataMemory, bus: BusInputs)
    requires Simulates(p, m, memory) && Running(m, bus) && ExMoves(m, bus)
    requires Answers(p, memory, Cycle(m, bus).io, bus)
    requires !BeforeExecute(p, m, memory).halted
    ensures Visible(ExPacket(m, bus)) == Visible(Executed(p, BeforeExecute(p, m, memory)))
  {
    hide Step, Visible, Arithmetic, Structure, FrontMatches, Mem, Cycle, Answers, FetchControl, Terminal, MemSpace,
      MemFaults, WritebackFault, Forwarded, Pending, BeforeExecute, BackMatches;
    var a, ex := BeforeExecute(p, m, memory), m.executeStage;
    var c, wb, fault := ex.control, m.writebackStage, WritebackFault(m.writebackStage, bus);
    if c.use1 { AdvancingOperand(p, m, memory, bus, c.use1, c.rs1, ex.first); }
    if c.use2 { AdvancingOperand(p, m, memory, bus, c.use2, c.rs2, ex.second); }
    var reply := p.instruction(a.pc);
    DecoderAnnounces(reply.data, reply.fault, a.pc);
    PacketReadsUsed(c, a.pc, reply.data,
                    FirstOperand(ex, wb, fault, Mem(m, bus)), SecondOperand(ex, wb, fault, Mem(m, bus)),
                    ReadRegister(a.registers, c.rs1), ReadRegister(a.registers, c.rs2));
  }

  lemma BackKept(p: Platform, m: Machine, memory: DataMemory, m': Machine, memory': DataMemory, bus: BusInputs)
    requires Simulates(p, m, memory) && Running(m, bus) && m' == RunningState(m, bus)
    requires Answers(p, memory, Cycle(m, bus).io, bus)
    requires Committed(m', memory') == After(p, Committed(m, memory), Retires(m, bus))
    ensures BackMatches(p, m', memory')
  {
    hide Step, Visible, Executed, Final, Structure, ExecuteMatches, FrontMatches, Mem, Cycle, Answers, MemMoves,
      MemFaults, Committed, BeforeMemory, BeforeExecute, NextExecute, NextDecode, NextBuffer, NextFetchPc, NextKilled,
      Stops, Port, WrittenRegisters, Retires, Terminal, ExPacket;
    StagesFilled(m, bus);
    ChainShifts(p, m, memory, m', memory', bus);
    if MemMoves(m, bus) { MovedIsFinal(p, m, memory, bus); }
    if ExMoves(m, bus) {
      if !BeforeExecute(p, m, memory).halted { AdvancingIsExecuted(p, m, memory, bus); }
    } else if !MemSpace(m, bus) {
      WaitingIsUnanswered(m, bus);
    }
  }

  /** A packet that stays in the memory stage has not been answered. */
  lemma WaitingIsUnanswered(m: Machine, bus: BusInputs)
    requires Structure(m) && !m.halted && !MemSpace(m, bus)
    ensures Mem(m, bus) == m.memoryStage
  {
    hide Rv32Decoder.ReadLoad, RawLoad;
  }

  // ------------------------------------------------------------ the front end

  /** Where a step that does not trap goes. */
  lemma StepGoesTo(p: Platform, a: Arch)
    requires !a.halted && !Step(p, a).halted
    ensures var x := Executed(p, a);
            !x.trap && Step(p, a).pc == x.nextPc && (!x.redirect ==> x.nextPc == FollowingPc(a.pc))
  {
    hide WriteWord, StoredMemory, WrittenRegisters, FollowingOrder, FollowingPc, Rv32Decoder.ReadLoad, RawLoad, Alu,
      MisalignedTarget, MisalignedAccess, Target, TrapCause, TrapValue, Add, StoreRefused, FetchControl;
  }

  /** A register read in decode, with the retiring result written through, is the committed one. */
  lemma IssuedOperand(m: Machine, bus: BusInputs, r: Register)
    requires Running(m, bus)
    ensures DecodeOperand(
              m.registers, r, m.writebackStage,
              Retires(m, bus) && RegisterWritten(m.writebackStage, WritebackFault(m.writebackStage, bus)))
         == ReadRegister(RunningState(m, bus).registers, r)
  {
    hide NextWriteback, NextMemory, NextExecute, NextDecode, NextBuffer, NextFetchPc, NextKilled, Stops, Port;
  }

  lemma IssuedMatches(p: Platform, m: Machine, memory: DataMemory, m': Machine, memory': DataMemory, bus: BusInputs)
    requires Simulates(p, m, memory) && Running(m, bus) && m' == RunningState(m, bus)
    requires BackMatches(p, m', memory') && IdMoves(m, bus)
    requires BeforeExecute(p, m', memory') == After(p, BeforeExecute(p, m, memory), ExMoves(m, bus))
    requires ExMoves(m, bus) && !BeforeExecute(p, m, memory).halted ==>
               Visible(ExPacket(m, bus)) == Visible(Executed(p, BeforeExecute(p, m, memory)))
    ensures ExecuteMatches(p, m', BeforeExecute(p, m', memory'))
  {
    hide Step, Executed, Structure, MemFaults, MemSpace, Terminal, Stops, LoadUse, Pending, DecodeOperand, ReadRegister,
      BackMatches, BeforeExecute, FetchControl, NextWriteback, NextMemory, NextDecode, NextBuffer, NextFetchPc,
      NextKilled, Port, WrittenRegisters, Retires, RegisterWritten, WritebackFault;
    var a, a' := BeforeExecute(p, m, memory), BeforeExecute(p, m', memory');
    NotHaltedBefore(p, a);
    if !a'.halted {
      if ExMoves(m, bus) { StepGoesTo(p, a); }
      assert m.decodeStage.pc == a'.pc;
      var c := IdControl(m);
      IssuedOperand(m, bus, c.rs1);
      IssuedOperand(m, bus, c.rs2);
      if !Pending(m'.writebackStage, m'.memoryStage, c.rs1) { QuietRegister(p, m', memory', c.rs1); }
      if !Pending(m'.writebackStage, m'.memoryStage, c.rs2) { QuietRegister(p, m', memory', c.rs2); }
    }
  }

  lemma HeldMatches(p: Platform, m: Machine, memory: DataMemory, m': Machine, memory': DataMemory, bus: BusInputs)
    requires Simulates(p, m, memory) && Running(m, bus) && m' == RunningState(m, bus) && !IdMoves(m, bus)
    requires BeforeExecute(p, m', memory') == After(p, BeforeExecute(p, m, memory), ExMoves(m, bus))
    ensures ExecuteMatches(p, m', BeforeExecute(p, m', memory'))
  {
    hide Step, Executed, Structure, MemFaults, MemSpace, Terminal, Stops, Pending, Forwarded, ReadRegister, BackMatches,
      BeforeExecute, FetchControl, NextWriteback, NextMemory, NextDecode, NextBuffer, NextFetchPc, NextKilled, Port,
      WrittenRegisters, Retires, WritebackFault, IdMoves, OperandMatches;
    var a, ex := BeforeExecute(p, m, memory), m.executeStage;
    if m'.executeStage.valid && !a.halted {
      WaitingOperand(p, m, memory, bus, ex.control.use1, ex.control.rs1, ex.first);
      WaitingOperand(p, m, memory, bus, ex.control.use2, ex.control.rs2, ex.second);
    }
  }

  /** A fault in the memory stage stops the machine before the execute stage's turn. */
  lemma MemoryFaultHalts(p: Platform, m: Machine, memory: DataMemory, bus: BusInputs)
    requires Simulates(p, m, memory) && Running(m, bus) && MemFaults(m, bus)
    requires Answers(p, memory, Cycle(m, bus).io, bus)
    ensures BeforeExecute(p, m, memory).halted
  {
    hide Cycle, Answers, ExecuteMatches, FrontMatches, Executed, WriteWord, StoredMemory, WrittenRegisters,
      FollowingOrder, Rv32Decoder.ReadLoad, RawLoad, WordAddress, ByteMask, ReadWord, Terminal, Retires, StoreRefused;
    StagesFilled(m, bus);
    if MemMoves(m, bus) {
      MovedIsFinal(p, m, memory, bus);
    } else {
      WaitingIsUnanswered(m, bus);
    }
  }

  /** Without a kill, the predicted address moves past decode exactly when decode moves. */
  lemma PredictionShifts(p: Platform, m: Machine, m': Machine, a: Arch, a': Arch, bus: BusInputs)
    requires ExecuteMatches(p, m, a) && FrontMatches(p, m, a) && Running(m, bus) && m' == RunningState(m, bus)
    requires a' == After(p, a, ExMoves(m, bus)) && !a'.halted && !Kills(m, bus)
    requires ExMoves(m, bus) && !a.halted ==> Visible(ExPacket(m, bus)) == Visible(Executed(p, a))
    ensures !a.halted
    ensures Predicted(m', a') == Past(Predicted(m, a), IdMoves(m, bus))
  {
    hide Step, Executed, MemFaults, MemSpace, Terminal, Stops, Pending, Forwarded, LoadUse, ReadRegister, FetchControl,
      NextWriteback, NextMemory, NextDecode, NextBuffer, FollowingPc, NextFetchPc, NextKilled, Port, WrittenRegisters,
      Retires, WritebackFault, OperandMatches;
    NotHaltedBefore(p, a);
    if ExMoves(m, bus) { StepGoesTo(p, a); }
  }

  lemma FrontKept(p: Platform, m: Machine, m': Machine, a: Arch, a': Arch, bus: BusInputs)
    requires FetchUnit(m) && ExecuteMatches(p, m, a) && FrontMatches(p, m, a)
    requires Running(m, bus) && m' == RunningState(m, bus)
    requires a' == After(p, a, ExMoves(m, bus)) && !Kills(m, bus)
    requires ExMoves(m, bus) && !a.halted ==> Visible(ExPacket(m, bus)) == Visible(Executed(p, a))
    requires Port(m, bus).valid && bus.imemReady ==>
               p.instruction(Port(m, bus).address) == Reply(bus.imemData, bus.imemFault)
    ensures FrontMatches(p, m', a')
  {
    hide Step, Executed, MemFaults, MemSpace, Terminal, Stops, Pending, Forwarded, LoadUse, Predicted, Kills,
      ReadRegister, FetchControl, NextWriteback, NextMemory, FollowingPc, NextExecute, ExecuteMatches, Visible,
      NextKilled, WrittenRegisters, Retires, WritebackFault, OperandMatches, ExMoves, ExPacket;
    if !a'.halted {
      PredictionShifts(p, m, m', a, a', bus);
      assert !(ExMoves(m, bus) && ExPacket(m, bus).redirect) by { QuietRedirect(m, bus); }
    }
  }

  lemma QuietRedirect(m: Machine, bus: BusInputs)
    requires !Kills(m, bus)
    ensures !(ExMoves(m, bus) && ExPacket(m, bus).redirect)
  {
  }

  lemma FrontKilled(p: Platform, m: Machine, m': Machine, a: Arch, a': Arch, bus: BusInputs)
    requires Running(m, bus) && m' == RunningState(m, bus)
    requires a' == After(p, a, ExMoves(m, bus)) && Kills(m, bus)
    requires ExMoves(m, bus) && !a.halted ==> Visible(ExPacket(m, bus)) == Visible(Executed(p, a))
    requires MemFaults(m, bus) ==> a.halted
    ensures FrontMatches(p, m', a')
  {
    hide Step, Executed, MemFaults, MemSpace, Terminal, Stops, LoadUse, FetchControl, NextWriteback, NextMemory,
      FollowingPc, NextKilled, WrittenRegisters, Retires, WritebackFault;
    NotHaltedBefore(p, a);
    if !a'.halted && ExMoves(m, bus) { StepGoesTo(p, a); }
  }

  // ------------------------------------------------------------ one cycle, all runs

  /** A cycle that neither starts nor ends halted keeps the simulation. */
  lemma RunningKept(p: Platform, m: Machine, memory: DataMemory, m': Machine, memory': DataMemory, bus: BusInputs)
    requires Simulates(p, m, memory) && Running(m, bus) && m' == RunningState(m, bus)
    requires Answers(p, memory, Cycle(m, bus).io, bus)
    requires Committed(m', memory') == After(p, Committed(m, memory), Retires(m, bus))
    ensures Simulates(p, m', memory')
  {
    hide Step, Executed, RunningState, MemFaults, MemSpace, Kills, IdMoves, ExMoves, ExPacket, Port, Retires, Visible,
      Committed, FetchUnit, TrapOrder, FrontMatches, ExecuteMatches, BackMatches, BeforeExecute, Terminal, Cycle;
    FetchUnitKept(m, bus);
    TrapOrderKept(m, bus);
    ChainShifts(p, m, memory, m', memory', bus);
    BackKept(p, m, memory, m', memory', bus);
    var a, a' := BeforeExecute(p, m, memory), BeforeExecute(p, m', memory');
    if ExMoves(m, bus) && !a.halted { AdvancingIsExecuted(p, m, memory, bus); }
    if IdMoves(m, bus) {
      IssuedMatches(p, m, memory, m', memory', bus);
    } else {
      HeldMatches(p, m, memory, m', memory', bus);
    }
    if Kills(m, bus) {
      if MemFaults(m, bus) { MemoryFaultHalts(p, m, memory, bus); }
      FrontKilled(p, m, m', a, a', bus);
    } else {
      RunningPins(m, bus);
      FrontKept(p, m, m', a, a', bus);
    }
  }

  /** One cycle is one instruction of the sequential machine when a record is retired, none otherwise. */
  lemma CycleRefines(p: Platform, m: Machine, memory: DataMemory, bus: BusInputs)
    requires Simulates(p, m, memory)
    requires Answers(p, memory, Cycle(m, bus).io, bus)
    ensures var m', io := Cycle(m, bus).state, Cycle(m, bus).io;
            var memory' := MemoryAfter(memory, io, bus);
            var a, a' := Committed(m, memory), Committed(m', memory');
            && Simulates(p, m', memory')
            && (io.retire.valid ==> !a.halted && a' == Step(p, a) && io.retire == Event(p, a))
            && (!io.retire.valid ==> a' == a)
  {
    hide Cycle, Step, Event, Answers, BackMatches, FrontMatches, ExecuteMatches, RunningState, WritebackState;
    if m.halted {
      StoppedCycle(m, bus);
    } else {
      CommitFields(m, bus);
      if Retires(m, bus) {
        RetiringSteps(p, m, memory, bus);
      } else {
        IdlingKeeps(p, m, memory, bus);
      }
      if Running(m, bus) {
        RunningCycle(m, bus);
        RunningKept(p, m, memory, Cycle(m, bus).state, MemoryAfter(memory, Cycle(m, bus).io, bus), bus);
      }
    }
  }

  /** The data memory a run leaves behind. */
  function MemoryOf(m: Machine, memory: DataMemory, buses: seq<BusInputs>): DataMemory
    decreases |buses|
  {
    if buses == [] then memory
    else MemoryOf(Cycle(m, buses[0]).state, MemoryAfter(memory, Cycle(m, buses[0]).io, buses[0]), buses[1..])
  }

  /** Every cycle of the run is answered as the platform answers. */
  predicate Admissible(p: Platform, m: Machine, memory: DataMemory, buses: seq<BusInputs>)
    decreases |buses|
  {
    buses == [] ||
    (&& Answers(p, memory, Cycle(m, buses[0]).io, buses[0])
     && Admissible(p, Cycle(m, buses[0]).state, MemoryAfter(memory, Cycle(m, buses[0]).io, buses[0]), buses[1..]))
  }

  lemma {:induction false} RunRefines(p: Platform, m: Machine, memory: DataMemory, buses: seq<BusInputs>)
    requires Simulates(p, m, memory) && Admissible(p, m, memory, buses)
    ensures var m', memory' := StateOf(m, buses), MemoryOf(m, memory, buses);
            var a, records := Committed(m, memory), Retirements(m, buses);
            && Simulates(p, m', memory')
            && records == Trace(p, a, |records|)
            && Committed(m', memory') == StateAfter(p, a, |records|)
    decreases |buses|
  {
    hide Cycle, Step, Event, Answers, Simulates, Committed, MemoryAfter;
    if buses != [] {
      CycleRefines(p, m, memory, buses[0]);
      RunRefines(p, Cycle(m, buses[0]).state, MemoryAfter(memory, Cycle(m, buses[0]).io, buses[0]), buses[1..]);
    }
  }

  function ResetState(memory: DataMemory): Arch { Arch(ZERO_REGISTERS, 0x8000_0000, memory, 0, false) }

  /** From reset, for every program, data memory and pattern of waits and faults: the retired
      records are exactly the sequential trace, and registers, program counter, data memory,
      retirement order and halt flag are the sequential state after that many instructions. */
  lemma PipelineRefines(p: Platform, memory: DataMemory, buses: seq<BusInputs>)
    requires Admissible(p, INITIAL_MACHINE, memory, buses)
    ensures var records := Retirements(INITIAL_MACHINE, buses);
            && records == Trace(p, ResetState(memory), |records|)
            && Committed(StateOf(INITIAL_MACHINE, buses), MemoryOf(INITIAL_MACHINE, memory, buses))
            == StateAfter(p, ResetState(memory), |records|)
  {
    RunRefines(p, INITIAL_MACHINE, memory, buses);
  }
}
