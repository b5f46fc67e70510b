/** Halting is final, and nothing but an unanswered request delays the next retirement. */
module Rv32Progress {
  import opened Rv32Types
  import opened Rv32Arithmetic
  import opened Rv32Stages
  import opened Rv32Core
  import opened Rv32Structure
  import opened Rv32Ports

  /** A halted machine is frozen and retires nothing. */
  lemma {:induction false} HaltedIsFinal(m: Machine, buses: seq<BusInputs>)
    requires m.halted
    ensures StateOf(m, buses) == m && Retirements(m, buses) == []
    decreases |buses|
  {
    hide Cycle;
    if buses != [] {
      StoppedCycle(m, buses[0]);
      HaltedIsFinal(m, buses[1..]);
    }
  }

  lemma TrapHalts(m: Machine, bus: BusInputs)
    ensures var next := Cycle(m, bus);
            && (next.io.retire.valid ==> !m.halted && next.io.retire.trap == next.state.halted)
            && (!next.io.retire.valid ==> next.state.halted == m.halted)
  {
    hide Cycle, WrittenRegisters, ByteMask, FollowingOrder, RawRange;
    if Running(m, bus) {
      RunningCycle(m, bus);
      RunningPins(m, bus);
    } else {
      StoppedCycle(m, bus);
    }
  }

  /** On every run a trap record is the last one, and the machine is halted exactly when there is one. */
  lemma {:induction false} TrapIsLast(m: Machine, buses: seq<BusInputs>)
    requires !m.halted
    ensures var records := Retirements(m, buses);
            && (forall i :: 0 <= i < |records| - 1 ==> !records[i].trap)
            && StateOf(m, buses).halted == (records != [] && records[|records| - 1].trap)
    decreases |buses|
  {
    hide Cycle;
    if buses != [] {
      var next := Cycle(m, buses[0]);
      TrapHalts(m, buses[0]);
      if next.state.halted {
        HaltedIsFinal(next.state, buses[1..]);
      } else {
        TrapIsLast(next.state, buses[1..]);
      }
    }
  }

  // --------------------------------------------------- the kill flag at a halt

  const QUIET := BusInputs(false, 0, false, false, 0, false)
  const FOUR_QUIET := [QUIET] + ([QUIET] + ([QUIET] + ([QUIET] + [])))

  /** The first fetch is answered, and nothing else ever is. */
  function Answered(word: Word, fault: bool): BusInputs { BusInputs(true, word, fault, false, 0, false) }

  /** A halting cycle drops the outstanding fetch but not its kill flag, so "killed implies
      outstanding" survives the halt exactly when no fetch was being killed. */
  lemma KillFlagAtHalt(m: Machine, bus: BusInputs)
    requires !m.halted && Terminal(m.writebackStage, bus)
    ensures var m' := Cycle(m, bus).state;
            m'.halted && ((m'.fetchKilled ==> m'.fetchBusy) <==> !m.fetchKilled)
    ensures var m' := Cycle(m, bus).state;
            && !m'.fetchBusy && !m'.fetchBuffer.valid && !m'.decodeStage.valid && !m'.executeStage.valid
            && !m'.memoryStage.valid && !m'.writebackStage.valid && m'.stopping
  {
    hide Cycle, WrittenRegisters, FollowingOrder;
    StoppedCycle(m, bus);
  }

  /** Fetched at the reset address, the word traps in the datapath whatever the registers hold. */
  ghost predicate TrapsAtReset(word: Word, fault: bool, cause: nat) {
    forall first: Word, second: Word ::
      var x := Arithmetic(FetchControl(word, fault, RESET_PC), RESET_PC, word, first, second);
      x.valid && x.pc == RESET_PC && x.trap && x.cause == cause && !x.redirect && !x.load && !x.store
  }

  /** The zero word, decoded: an illegal instruction and nothing else. */
  lemma ZeroWordTraps()
    ensures TrapsAtReset(0, false, 2)
  {
    assert Rv32Decoder.Opcode(0) == 0;
    hide Alu, Add, FollowingPc;
  }

  /** One state with a single stage of the pipeline occupied. */
  predicate OnlyDecode(m: Machine, word: Word, fault: bool) {
    && !m.halted && !m.stopping && !m.fetchBusy && !m.fetchKilled && !m.fetchBuffer.valid
    && m.decodeStage == Fetch(true, RESET_PC, word, fault)
    && !m.executeStage.valid && !m.memoryStage.valid && !m.writebackStage.valid
  }

  predicate OnlyExecute(m: Machine, word: Word, fault: bool) {
    && !m.halted && !m.stopping && m.fetchBusy && !m.fetchKilled && !m.fetchBuffer.valid && !m.decodeStage.valid
    && m.executeStage.valid && m.executeStage.pc == RESET_PC && m.executeStage.instruction == word
    && m.executeStage.control == FetchControl(word, fault, RESET_PC)
    && !m.memoryStage.valid && !m.writebackStage.valid
  }

  predicate OnlyTrap(m: Machine, x: Packet, y: Packet, cause: nat) {
    && !m.halted && m.fetchBusy && m.fetchKilled
    && !m.fetchBuffer.valid && !m.decodeStage.valid && !m.executeStage.valid
    && x.valid && x.pc == RESET_PC && x.trap && x.cause == cause && !x.load && !x.store && !y.valid
  }

  lemma FirstFetch(word: Word, fault: bool)
    ensures var next := Cycle(INITIAL_MACHINE, Answered(word, fault));
            OnlyDecode(next.state, word, fault) && !next.io.retire.valid
  {
    hide Cycle, FetchControl, FollowingPc;
    RunningCycle(INITIAL_MACHINE, Answered(word, fault));
    RunningPins(INITIAL_MACHINE, Answered(word, fault));
  }

  lemma ThenExecute(m: Machine, word: Word, fault: bool)
    requires OnlyDecode(m, word, fault)
    ensures OnlyExecute(Cycle(m, QUIET).state, word, fault) && !Cycle(m, QUIET).io.retire.valid
  {
    hide Cycle, FetchControl, FollowingPc;
    RunningCycle(m, QUIET);
    RunningPins(m, QUIET);
  }

  lemma ThenMemory(m: Machine, word: Word, fault: bool, cause: nat)
    requires OnlyExecute(m, word, fault) && TrapsAtReset(word, fault, cause)
    ensures var m' := Cycle(m, QUIET).state; OnlyTrap(m', m'.memoryStage, m'.writebackStage, cause)
    ensures !Cycle(m, QUIET).io.retire.valid
  {
    hide Cycle, FetchControl, FollowingPc, Arithmetic, FirstOperand, SecondOperand;
    RunningCycle(m, QUIET);
    RunningPins(m, QUIET);
  }

  lemma ThenWriteback(m: Machine, cause: nat)
    requires OnlyTrap(m, m.memoryStage, m.writebackStage, cause)
    ensures var m' := Cycle(m, QUIET).state; OnlyTrap(m', m'.writebackStage, m'.memoryStage, cause)
    ensures !Cycle(m, QUIET).io.retire.valid
  {
    hide Cycle, FetchControl, FollowingPc, Arithmetic;
    RunningCycle(m, QUIET);
    RunningPins(m, QUIET);
  }

  lemma ThenHalted(m: Machine, cause: nat)
    requires OnlyTrap(m, m.writebackStage, m.memoryStage, cause)
    ensures var next := Cycle(m, QUIET);
            && next.state.halted && next.state.fetchKilled && !next.state.fetchBusy
            && next.io.retire.valid && next.io.retire.pc == RESET_PC
            && next.io.retire.trap && next.io.retire.cause == cause
  {
    hide Cycle, WrittenRegisters, FollowingOrder, ByteMask;
    StoppedCycle(m, QUIET);
  }

  lemma OneCycle(m: Machine, bus: BusInputs, buses: seq<BusInputs>)
    ensures StateOf(m, [bus] + buses) == StateOf(Cycle(m, bus).state, buses)
    ensures var record := Cycle(m, bus).io.retire;
            Retirements(m, [bus] + buses)
            == (if record.valid then [record] else []) + Retirements(Cycle(m, bus).state, buses)
  {
    hide Cycle;
    assert ([bus] + buses)[1..] == buses;
  }

  /** Five cycles from reset: the word traps, and the second fetch is never answered. */
  lemma FiveCyclesTrap(word: Word, fault: bool, cause: nat)
    requires TrapsAtReset(word, fault, cause)
    ensures var buses := [Answered(word, fault)] + FOUR_QUIET;
            var m, records := StateOf(INITIAL_MACHINE, buses), Retirements(INITIAL_MACHINE, buses);
            && m.halted && m.fetchKilled && !m.fetchBusy
            && |records| == 1 && records[0].trap && records[0].pc == RESET_PC && records[0].cause == cause
  {
    hide Cycle, OnlyDecode, OnlyExecute, OnlyTrap, TrapsAtReset, StateOf, Retirements;
    var q3, q2, q1 := [QUIET] + ([QUIET] + ([QUIET] + [])), [QUIET] + ([QUIET] + []), [QUIET] + [];
    var m1 := Cycle(INITIAL_MACHINE, Answered(word, fault)).state;
    var m2 := Cycle(m1, QUIET).state;
    var m3 := Cycle(m2, QUIET).state;
    var m4 := Cycle(m3, QUIET).state;
    FirstFetch(word, fault);
    OneCycle(INITIAL_MACHINE, Answered(word, fault), FOUR_QUIET);
    ThenExecute(m1, word, fault);
    OneCycle(m1, QUIET, q3);
    ThenMemory(m2, word, fault, cause);
    OneCycle(m2, QUIET, q2);
    ThenWriteback(m3, cause);
    OneCycle(m3, QUIET, q1);
    ThenHalted(m4, cause);
    OneCycle(m4, QUIET, []);
    NothingMore(Cycle(m4, QUIET).state);
  }

  lemma NothingMore(m: Machine)
    ensures StateOf(m, []) == m && Retirements(m, []) == []
  {
  }

  /** Five cycles from reset to a halted machine whose kill flag is set with no fetch outstanding:
      the first fetch returns an illegal word. */
  lemma KillFlagOutlivesFetch()
    ensures var m := StateOf(INITIAL_MACHINE, [Answered(0, false)] + FOUR_QUIET);
            m.halted && m.fetchKilled && !m.fetchBusy
  {
    hide StateOf;
    ZeroWordTraps();
    FiveCyclesTrap(0, false, 2);
  }

  // ---------------------------------------------------------------- the interlock

  /** The instruction in decode reads the register that the load in execute will write. */
  predicate ReadsLoad(m: Machine) {
    var ex, id, c := m.executeStage, m.decodeStage, IdControl(m);
    && ex.valid && id.valid && ex.control.load && ex.control.rd > 0
    && ((c.use1 && c.rs1 == ex.control.rd) || (c.use2 && c.rs2 == ex.control.rd))
  }

  /** An instruction that reads the load right ahead of it stays in decode, or is flushed, and leaves
      a bubble behind the load; any other is issued as soon as execute has room for it. */
  lemma LoadInterlock(m: Machine, bus: BusInputs)
    requires Running(m, bus) && m.decodeStage.valid
    ensures var m', ex := Cycle(m, bus).state, m.executeStage;
            ReadsLoad(m) ==>
              && (m'.executeStage.valid ==> m'.executeStage.pc == ex.pc && m'.executeStage.control == ex.control)
              && (!Kills(m, bus) ==> m'.decodeStage == m.decodeStage)
    ensures var m', id := Cycle(m, bus).state, m.decodeStage;
            !ReadsLoad(m) && (!m.executeStage.valid || ExMoves(m, bus)) && !Kills(m, bus) && !Stops(m, bus) ==>
              m'.executeStage.valid && m'.executeStage.pc == id.pc && m'.executeStage.instruction == id.instruction
  {
    hide Cycle, FetchControl, WrittenRegisters, ExMoves, Kills, Stops, MemFaults, FirstOperand, SecondOperand, Mem,
      NextWriteback, NextMemory, NextBuffer, NextFetchPc, NextKilled, FollowingOrder;
    RunningCycle(m, bus);
  }

  // ------------------------------------------------------------------- progress

  /** How far the oldest work is from retirement. */
  function Rank(m: Machine): nat {
    if m.writebackStage.valid then 0
    else if m.memoryStage.valid then 1
    else if m.executeStage.valid then 2
    else if m.decodeStage.valid then 3
    else if m.fetchBusy && m.fetchKilled then 5
    else 4
  }

  /** The request the oldest work depends on goes unanswered: an instruction in decode or later
      waits for the data port alone, and only an empty pipeline waits for a fetch. */
  predicate Waiting(m: Machine, io: Pins, bus: BusInputs) {
    if Rank(m) <= 3 then io.dmem.valid && !bus.dmemReady else io.imem.valid && !bus.imemReady
  }

  lemma RankFalls(m: Machine, bus: BusInputs)
    requires Structure(m) && !m.halted
    requires !Cycle(m, bus).io.retire.valid
    ensures var next := Cycle(m, bus);
            if Waiting(m, next.io, bus) then Rank(next.state) == Rank(m) else Rank(next.state) < Rank(m)
  {
    hide Cycle;
    assert Running(m, bus) && !Retires(m, bus) by {
      if Running(m, bus) { RunningPins(m, bus); } else { StoppedCycle(m, bus); }
    }
    RunningCycle(m, bus);
    RunningPins(m, bus);
  }

  /** Cycles of a run in which the oldest work waits for nothing. */
  function PromptCycles(m: Machine, buses: seq<BusInputs>): nat
    decreases |buses|
  {
    if buses == [] then 0
    else
      var next := Cycle(m, buses[0]);
      (if Waiting(m, next.io, buses[0]) then 0 else 1) + PromptCycles(next.state, buses[1..])
  }

  /** A stretch with no retirement has at most `Rank` prompt cycles, hence at most five. */
  lemma {:induction false} SilenceIsWaiting(m: Machine, buses: seq<BusInputs>)
    requires Structure(m) && !m.halted && Retirements(m, buses) == []
    ensures PromptCycles(m, buses) <= Rank(m) <= 5
    decreases |buses|
  {
    hide Cycle, Structure;
    if buses != [] {
      StructureKept(m, buses[0]);
      TrapHalts(m, buses[0]);
      RankFalls(m, buses[0]);
      SilenceIsWaiting(Cycle(m, buses[0]).state, buses[1..]);
    }
  }
}
