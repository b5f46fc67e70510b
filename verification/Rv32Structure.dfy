/** What every cycle keeps about the pipeline's own records, whatever the bus answers:
    no data dependence on the program or the memories. */
module Rv32Structure {
  import opened Rv32Types
  import opened Rv32Stages
  import opened Rv32Core

  predicate Empty(m: Machine) { !m.executeStage.valid && !m.decodeStage.valid && !m.fetchBuffer.valid }

  /** The outstanding fetch and the one-entry buffer. */
  predicate FetchUnit(m: Machine) {
    && (m.fetchKilled ==> m.fetchBusy)
    && (m.fetchBusy ==> !m.fetchBuffer.valid)
    && (m.fetchBusy && !m.fetchKilled ==> m.fetchRequestPc == m.fetchPc)
    && (m.fetchBuffer.valid ==> m.decodeStage.valid)
  }

  /** A trap has nothing younger behind it, and only a trap stops the front end. */
  predicate TrapOrder(m: Machine) {
    var mem, wb := m.memoryStage, m.writebackStage;
    && (mem.valid ==> !mem.done)
    && (mem.valid && mem.trap ==> m.stopping && Empty(m))
    && (wb.valid && wb.trap ==> m.stopping && Empty(m) && !mem.valid)
    && (m.stopping ==> (mem.valid && mem.trap) || (wb.valid && wb.trap))
  }

  predicate Structure(m: Machine) { m.halted || (FetchUnit(m) && TrapOrder(m)) }

  lemma FetchUnitKept(m: Machine, bus: BusInputs)
    requires FetchUnit(m)
    ensures FetchUnit(RunningState(m, bus))
  {
    hide WrittenRegisters, NextWriteback, NextMemory, NextExecute, Retires, MemFaults, ExMoves, ExPacket, Stops,
      FollowingPc, FollowingOrder, LoadUse;
    assert ExMoves(m, bus) && ExPacket(m, bus).redirect ==> Kills(m, bus);
    hide Kills;
  }

  lemma TrapOrderKept(m: Machine, bus: BusInputs)
    requires TrapOrder(m) && Running(m, bus)
    ensures TrapOrder(RunningState(m, bus))
  {
  }
}
