/** Bus discipline of the core: what its two ports may show, over every run and every bus. */
module Rv32Ports {
  import opened Rv32Types
  import opened Rv32Stages
  import opened Rv32Core
  import opened Rv32Structure

  // ---------------------------------------------------------- every state of a run

  lemma StructureKept(m: Machine, bus: BusInputs)
    requires Structure(m)
    ensures Structure(Cycle(m, bus).state)
  {
    hide Cycle, RunningState, FetchUnit, TrapOrder;
    if Running(m, bus) {
      RunningCycle(m, bus);
      FetchUnitKept(m, bus);
      TrapOrderKept(m, bus);
    } else {
      StoppedCycle(m, bus);
    }
  }

  lemma {:induction false} StructureOfRun(m: Machine, buses: seq<BusInputs>)
    requires Structure(m)
    ensures Structure(StateOf(m, buses))
    decreases |buses|
  {
    hide Cycle, Structure;
    if buses != [] {
      StructureKept(m, buses[0]);
      StructureOfRun(Cycle(m, buses[0]).state, buses[1..]);
    }
  }

  /** From reset, whatever the buses drive: unless the machine has halted, a killed fetch is an
      outstanding one, an outstanding fetch leaves the buffer free, and a trap has nothing
      younger behind it. */
  lemma ReachableStructure(buses: seq<BusInputs>)
    ensures Structure(StateOf(INITIAL_MACHINE, buses))
  {
    StructureOfRun(INITIAL_MACHINE, buses);
  }

  // ---------------------------------------------------------------- stable requests

  /** An unanswered data request is repeated unchanged in the next cycle, whatever happens. */
  lemma DataRequestStable(m: Machine, bus: BusInputs, bus': BusInputs)
    requires Structure(m)
    requires Cycle(m, bus).io.dmem.valid && !bus.dmemReady
    ensures Cycle(Cycle(m, bus).state, bus').io.dmem == Cycle(m, bus).io.dmem
  {
    hide Cycle, WordAddress, StoreLanes, ByteMask, FetchUnit, WrittenRegisters, NextExecute, NextDecode, NextBuffer,
      NextFetchPc, NextKilled, Port, ExPacket, LoadedPacket;
    if Running(m, bus) {
      RunningCycle(m, bus);
      RunningPins(m, bus);
      var m' := RunningState(m, bus);
      if Running(m', bus') { RunningPins(m', bus'); } else { StoppedCycle(m', bus'); }
    } else {
      StoppedCycle(m, bus);
    }
  }

  /** An unanswered fetch request is repeated unchanged, except that a terminal trap drops it. */
  lemma FetchRequestStable(m: Machine, bus: BusInputs, bus': BusInputs)
    requires Structure(m)
    requires Cycle(m, bus).io.imem.valid && !bus.imemReady
    ensures var m' := Cycle(m, bus).state;
            Cycle(m', bus').io.imem
            == if Terminal(m'.writebackStage, bus') then NO_REQUEST else Cycle(m, bus).io.imem
  {
    hide Cycle, WrittenRegisters, NextExecute, NextDecode, NextBuffer, NextMemory, NextWriteback, ExPacket,
      LoadedPacket, NextFetchPc, NextKilled, TrapOrder, FetchUnit, Launches, Stops, Kills;
    if Running(m, bus) {
      RunningCycle(m, bus);
      RunningPins(m, bus);
      var m' := RunningState(m, bus);
      if Running(m', bus') { RunningPins(m', bus'); } else { StoppedCycle(m', bus'); }
    } else {
      StoppedCycle(m, bus);
    }
  }

  /** A read is only on the bus while no older store is waiting; a write only for the oldest
      instruction, which retires in the very cycle the write is answered. */
  lemma DataRequestOrder(m: Machine, bus: BusInputs)
    ensures var io, wb := Cycle(m, bus).io, m.writebackStage;
            && (io.dmem.valid && !io.dmem.write ==>
                  !m.halted && m.memoryStage.valid && m.memoryStage.load && !(wb.valid && wb.store))
            && (io.dmem.valid && io.dmem.write ==>
                  !m.halted && wb.valid && wb.store && io.retire.valid == bus.dmemReady
                  && (io.retire.valid ==> io.retire.pc == wb.pc && io.retire.store == !bus.dmemFault))
  {
    hide Cycle, WordAddress, StoreLanes, ByteMask, RawRange, Port;
    if Running(m, bus) { RunningPins(m, bus); } else { StoppedCycle(m, bus); }
  }

  /** A data request goes to the aligned word that holds the address of its instruction: the one
      in writeback for a store, the one in memory for a load. */
  lemma DataRequestAligned(m: Machine, bus: BusInputs)
    ensures var port := Cycle(m, bus).io.dmem;
            port.valid ==>
              var x := if port.write then m.writebackStage else m.memoryStage;
              port.address % 4 == 0 && port.address <= x.address < port.address + 4
  {
    hide Cycle, StoreLanes, ByteMask, RawRange, Port;
    if Running(m, bus) { RunningPins(m, bus); } else { StoppedCycle(m, bus); }
  }

  // ------------------------------------------------------------- the first and the next

  /** Out of reset every register reads zero and the first fetch is from 0x8000_0000. */
  lemma ResetFetches(bus: BusInputs, r: Register)
    ensures Cycle(INITIAL_MACHINE, bus).io.imem == FetchPort(true, 0x8000_0000)
    ensures ReadRegister(INITIAL_MACHINE.registers, r) == 0
  {
    hide Cycle;
    RunningPins(INITIAL_MACHINE, bus);
  }

  lemma RetirementCounts(m: Machine, bus: BusInputs)
    ensures var next := Cycle(m, bus);
            && (next.io.retire.valid ==> next.io.retire.order == m.order)
            && next.state.order == (if next.io.retire.valid then (m.order + 1) % 0x1_0000_0000_0000_0000 else m.order)
  {
    hide Cycle, WrittenRegisters, ByteMask, RawRange;
    if Running(m, bus) {
      RunningCycle(m, bus);
      RunningPins(m, bus);
    } else {
      StoppedCycle(m, bus);
    }
  }

  /** Retirements are numbered one after another, modulo 2^64. */
  lemma {:induction false} RetirementsNumbered(m: Machine, buses: seq<BusInputs>, i: nat)
    requires i < |Retirements(m, buses)|
    ensures Retirements(m, buses)[i].order == (m.order + i) % 0x1_0000_0000_0000_0000
    decreases |buses|
  {
    hide Cycle;
    var next := Cycle(m, buses[0]);
    RetirementCounts(m, buses[0]);
    if next.io.retire.valid {
      if i > 0 { RetirementsNumbered(next.state, buses[1..], i - 1); }
    } else {
      RetirementsNumbered(next.state, buses[1..], i);
    }
  }
}
