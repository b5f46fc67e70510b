/** The DMA as its pins show it: what every endpoint of the design gets back, and how soon. */
module DmaProgress {
  import opened DmaDesign
  import opened DmaOracle
  import opened DmaHistory

  // ------------------------------------------------------------------- at the pins

  /** Since the last reset, what went in under valid and ready and came out under valid and take. */
  datatype View = View(
    sentSeed: seq<Packet>, sentCopy: seq<Packet>, sentCheck: seq<Packet>,
    gotSeed: seq<Packet>, gotCopy: seq<Packet>, gotCheck: seq<Packet>)

  /** Since power-on, how many requests went in, came out, and were dropped by a reset. */
  datatype Counters = Counters(sent: nat, retired: nat, canceled: nat)

  function Sent(o: Offer, ready: bool): seq<Packet> { if o.Offer? && ready then [o.packet] else [] }

  function Got(o: Offer, take: bool): seq<Packet> { if o.Offer? && take then [o.packet] else [] }

  function Seen(v: View, pins: Outputs, row: Row): View {
    if row.reset then View([], [], [], [], [], [])
    else
      View(
        v.sentSeed + Sent(row.seed, pins.seedReady), v.sentCopy + Sent(row.copy, pins.copyReady),
        v.sentCheck + Sent(row.check, pins.checkReady), v.gotSeed + Got(pins.seed, row.takeSeed),
        v.gotCopy + Got(pins.copy, row.takeCopy), v.gotCheck + Got(pins.check, row.takeCheck))
  }

  function ViewAfter(rows: seq<Row>): View {
    if rows == [] then View([], [], [], [], [], [])
    else
      var before := rows[..|rows| - 1];
      Seen(ViewAfter(before), OutputsOf(DesignAfter(before)), rows[|rows| - 1])
  }

  function BusySize(c: Controller): nat { if c.busy then 1 else 0 }

  function InFlight(d: Design): nat {
    |d.seedRequests| + |d.copyRequests| + |d.checkRequests| + |d.seedResponses| + |d.copyQueue| + |d.copyResponses|
    + |d.checkResponses| + BusySize(d.dram) + BusySize(d.sram)
  }

  function Counted(c: Counters, d: Design, row: Row): Counters {
    if row.reset then c.(canceled := c.canceled + InFlight(d))
    else
      var pins := OutputsOf(d);
      Counters(
        c.sent + |Sent(row.seed, pins.seedReady)| + |Sent(row.copy, pins.copyReady)|
          + |Sent(row.check, pins.checkReady)|,
        c.retired + |Got(pins.seed, row.takeSeed)| + |Got(pins.copy, row.takeCopy)| + |Got(pins.check, row.takeCheck)|,
        c.canceled)
  }

  function CountersAfter(rows: seq<Row>): Counters {
    if rows == [] then Counters(0, 0, 0)
    else
      var before := rows[..|rows| - 1];
      Counted(CountersAfter(before), DesignAfter(before), rows[|rows| - 1])
  }

  function ViewOf(h: History): View {
    View(h.sentSeed, h.sentCopy, h.sentCheck, h.gotSeed, h.gotCopy, h.gotCheck)
  }

  lemma EdgeSeen(h: History, d: Design, o: Oracle, row: Row)
    requires Implements(d, o)
    ensures Seen(ViewOf(h), OutputsOf(d), row) == ViewOf(Recorded(h, o, row))
  {
    hide Serves;
    SameOutputs(d, o);
  }

  lemma {:induction false} ViewIsHistory(rows: seq<Row>)
    ensures ViewAfter(rows) == ViewOf(HistoryAfter(rows))
  {
    hide Implements, Recorded, Seen, OutputsOf;
    if rows != [] {
      var before := rows[..|rows| - 1];
      ViewIsHistory(before);
      DesignRefinesOracle(before);
      EdgeSeen(HistoryAfter(before), DesignAfter(before), OracleAfter(before), rows[|rows| - 1]);
    }
  }

  /** Every endpoint of every run of the design is answered in the order it asked, each response
      with the tag and both addresses of its own request. */
  lemma DesignInOrder(rows: seq<Row>)
    ensures var v := ViewAfter(rows);
            InOrder(v.gotSeed, v.sentSeed) && InOrder(v.gotCopy, v.sentCopy) && InOrder(v.gotCheck, v.sentCheck)
  {
    hide InOrder, ViewAfter, HistoryAfter;
    ViewIsHistory(rows);
    EndpointsInOrder(rows);
  }

  lemma SameInFlight(d: Design, o: Oracle)
    requires Implements(d, o)
    ensures InFlight(d) == Pending(o)
  {
  }

  lemma EdgeCounted(c: Counters, d: Design, o: Oracle, row: Row)
    requires Implements(d, o) && c == Counters(o.sent, o.retired, o.canceled)
    ensures var o' := Commit(o, row); Counted(c, d, row) == Counters(o'.sent, o'.retired, o'.canceled)
  {
    hide Serves, NextJob, Found, Written, Popped, Pushed, Takes, Delivers, InFlight, Pending;
    SameInFlight(d, o);
    SameOutputs(d, o);
  }

  lemma {:induction false} CountersAreOracles(rows: seq<Row>)
    ensures var o := OracleAfter(rows); CountersAfter(rows) == Counters(o.sent, o.retired, o.canceled)
  {
    hide Implements, Commit, Counted;
    if rows != [] {
      var before := rows[..|rows| - 1];
      CountersAreOracles(before);
      DesignRefinesOracle(before);
      EdgeCounted(CountersAfter(before), DesignAfter(before), OracleAfter(before), rows[|rows| - 1]);
    }
  }

  /** No queue of the design overflows, its ready pins say whether there is room and its valid pins
      whether there is an answer, and every request that went in has come out, was dropped by a
      reset or is still inside. */
  lemma DesignConserves(rows: seq<Row>)
    ensures var d, c := DesignAfter(rows), CountersAfter(rows);
            && |d.seedRequests| <= 2 && |d.copyRequests| <= 4 && |d.checkRequests| <= 2 && |d.seedResponses| <= 2
            && |d.copyQueue| <= 2 && |d.copyResponses| <= 2 && |d.checkResponses| <= 2
            && c.sent == c.retired + c.canceled + InFlight(d)
    ensures var d, pins := DesignAfter(rows), OutputsOf(DesignAfter(rows));
            && pins.seedReady == (|d.seedRequests| < 2) && pins.copyReady == (|d.copyRequests| < 4)
            && pins.checkReady == (|d.checkRequests| < 2)
            && pins.seed == (if d.seedResponses == [] then NoOffer else Offer(d.seedResponses[0]))
            && pins.copy == (if d.copyResponses == [] then NoOffer else Offer(d.copyResponses[0]))
            && pins.check == (if d.checkResponses == [] then NoOffer else Offer(d.checkResponses[0]))
  {
    hide Serves, InFlight, Pending, CountersAfter, DesignAfter, OracleAfter;
    RunConserves(rows);
    DesignRefinesOracle(rows);
    CountersAreOracles(rows);
    SameInFlight(DesignAfter(rows), OracleAfter(rows));
  }

  /** The response a busy controller holds for one of its endpoints. */
  function Held(c: Controller, reader: bool): seq<Packet> {
    if c.busy && c.reader == reader then [ResponseOf(c)] else []
  }

  /** Everything an endpoint sent lies on its path through the design, in order; each response holds
      the word its memory held when the request was accepted; and each memory holds what its
      accesses, one after another, leave. */
  lemma DesignAccounts(rows: seq<Row>)
    ensures var d, v, h := DesignAfter(rows), ViewAfter(rows), HistoryAfter(rows);
            && v.sentSeed == Asked(h.dramLog, true) + d.seedRequests
            && v.sentCopy == Asked(h.dramLog, false) + d.copyRequests
            && v.sentCheck == Asked(h.sramLog, false) + d.checkRequests
            && Answered(h.dramLog, true) == v.gotSeed + d.seedResponses + Held(d.dram, false)
            && Answered(h.dramLog, false) == Asked(h.sramLog, true) + d.copyQueue + Held(d.dram, true)
            && Answered(h.sramLog, true) == v.gotCopy + d.copyResponses + Held(d.sram, false)
            && Answered(h.sramLog, false) == v.gotCheck + d.checkResponses + Held(d.sram, true)
            && d.dram.ram == Replay(h.dramBase, h.dramLog, true) && Faithful(h.dramBase, h.dramLog, true)
            && d.sram.ram == Replay(h.sramBase, h.sramLog, false) && Faithful(h.sramBase, h.sramLog, false)
  {
    hide Asked, Answered, Replay, Faithful, DesignAfter, OracleAfter, HistoryAfter, ViewAfter, ResponseOf;
    RunAccounts(rows);
    DesignRefinesOracle(rows);
    ViewIsHistory(rows);
  }

  // ----------------------------------------------------------------- the two memories

  /** The accesses a memory accepted since power-on, each with the word its read register then got. */
  function DramAccesses(rows: seq<Row>): seq<Access> {
    if rows == [] then []
    else
      var before, row := rows[..|rows| - 1], rows[|rows| - 1];
      var d := DesignAfter(before);
      DramAccesses(before) + NewAccess(if row.reset then 0 else DramAccepted(d), d.copyRequests, d.seedRequests,
                                       DesignAfter(rows).dram.result)
  }

  function SramAccesses(rows: seq<Row>): seq<Access> {
    if rows == [] then []
    else
      var before, row := rows[..|rows| - 1], rows[|rows| - 1];
      var d := DesignAfter(before);
      SramAccesses(before) + NewAccess(if row.reset then 0 else SramAccepted(d), d.checkRequests, d.copyQueue,
                                       DesignAfter(rows).sram.result)
  }

  function NewAccess(accepted: nat, readers: seq<Packet>, writers: seq<Packet>, found: nat): seq<Access> {
    if accepted == 1 && readers != [] then [Access(readers[0], false, found)]
    else if accepted == 2 && writers != [] then [Access(writers[0], true, found)]
    else []
  }

  /** The same one of a memory's sixteen words. */
  predicate SameWord(dram: bool, p: Packet, q: Packet) {
    if dram then p.dram % 16 == q.dram % 16 else p.sram % 16 == q.sram % 16
  }

  predicate Writes(log: seq<Access>, i: int, dram: bool, p: Packet) {
    0 <= i < |log| && log[i].write && SameWord(dram, log[i].packet, p)
  }

  /** Access k found what the latest earlier write to its word wrote, or zero if there was none. */
  ghost predicate FindsLatest(log: seq<Access>, k: nat, dram: bool)
    requires k < |log|
  {
    var p := log[k].packet;
    || (log[k].found == 0 && forall i :: i < k ==> !Writes(log, i, dram, p))
    || exists i :: i < k && Writes(log, i, dram, p) && log[k].found == log[i].packet.data
                   && forall j :: i < j < k ==> !Writes(log, j, dram, p)
  }

  function Cell(dram: bool, p: Packet): nat { (if dram then p.dram else p.sram) % 16 }

  /** The word of cell c after the accesses of a log. */
  function LastWritten(log: seq<Access>, dram: bool, c: nat): nat {
    if log == [] then 0
    else
      var last := log[|log| - 1];
      if last.write && Cell(dram, last.packet) == c then last.packet.data
      else LastWritten(log[..|log| - 1], dram, c)
  }

  lemma {:induction false} LastWrittenIs(log: seq<Access>, dram: bool, p: Packet, n: nat)
    requires n <= |log|
    ensures var w := LastWritten(log[..n], dram, Cell(dram, p));
            || (w == 0 && forall i :: i < n ==> !Writes(log, i, dram, p))
            || exists i :: i < n && Writes(log, i, dram, p) && w == log[i].packet.data
                           && forall j :: i < j < n ==> !Writes(log, j, dram, p)
  {
    if n > 0 {
      assert log[..n][..n - 1] == log[..n - 1];
      LastWrittenIs(log, dram, p, n - 1);
    }
  }

  ghost predicate Remembers(log: seq<Access>, dram: bool, ram: Ram) {
    && (forall c :: 0 <= c < 16 ==> ram[c] == LastWritten(log, dram, c))
    && (forall k :: 0 <= k < |log| ==> log[k].found == LastWritten(log[..k], dram, Cell(dram, log[k].packet)))
  }

  lemma AccessRemembered(log: seq<Access>, dram: bool, ram: Ram, a: Access)
    requires Remembers(log, dram, ram) && a.found == ram[Cell(dram, a.packet)]
    ensures Remembers(log + [a], dram, if a.write then ram[Cell(dram, a.packet) := a.packet.data] else ram)
  {
    var all := log + [a];
    assert all[..|all| - 1] == log;
    forall k | 0 <= k < |all| ensures all[k].found == LastWritten(all[..k], dram, Cell(dram, all[k].packet)) {
      if k < |log| { assert all[..k] == log[..k]; } else { assert all[..k] == log; }
    }
  }

  /** An accepted access reads the addressed word, and a writer then replaces that word alone. */
  lemma AcceptedReads(c: Controller, p: Packet, reader: bool, dram: bool)
    ensures var c' := Accepted(c, p, reader, if dram then p.dram else p.sram, if dram then 3 else 2);
            && c'.result == c.ram[Cell(dram, p)]
            && c'.ram == if reader then c.ram else c.ram[Cell(dram, p) := p.data]
  {
  }

  lemma {:induction false} DramRemembers(rows: seq<Row>)
    ensures Remembers(DramAccesses(rows), true, DesignAfter(rows).dram.ram)
  {
    if rows != [] {
      var before, row := rows[..|rows| - 1], rows[|rows| - 1];
      var d, log := DesignAfter(before), DramAccesses(before);
      DramRemembers(before);
      assert log + [] == log;
      if !row.reset && DramAccepted(d) == 1 {
        AcceptedReads(d.dram, d.copyRequests[0], true, true);
        AccessRemembered(log, true, d.dram.ram, Access(d.copyRequests[0], false, NextDram(d).result));
      } else if !row.reset && DramAccepted(d) == 2 {
        AcceptedReads(d.dram, d.seedRequests[0], false, true);
        AccessRemembered(log, true, d.dram.ram, Access(d.seedRequests[0], true, NextDram(d).result));
      }
      hide Remembers, Popped, Pushed, Offered, NextSram, Accepted;
    }
  }

  lemma {:induction false} SramRemembers(rows: seq<Row>)
    ensures Remembers(SramAccesses(rows), false, DesignAfter(rows).sram.ram)
  {
    if rows != [] {
      var before, row := rows[..|rows| - 1], rows[|rows| - 1];
      var d, log := DesignAfter(before), SramAccesses(before);
      SramRemembers(before);
      assert log + [] == log;
      if !row.reset && SramAccepted(d) == 1 {
        AcceptedReads(d.sram, d.checkRequests[0], true, false);
        AccessRemembered(log, false, d.sram.ram, Access(d.checkRequests[0], false, NextSram(d).result));
      } else if !row.reset && SramAccepted(d) == 2 {
        AcceptedReads(d.sram, d.copyQueue[0], false, false);
        AccessRemembered(log, false, d.sram.ram, Access(d.copyQueue[0], true, NextSram(d).result));
      }
      hide Remembers, Popped, Pushed, Offered, NextDram, Accepted;
    }
  }

  /** On every run, resets included, each access of either memory finds what the latest earlier
      write to the same word wrote, or the zero of power-on. */
  lemma MemoriesRemember(rows: seq<Row>, dram: bool, k: nat)
    requires k < |if dram then DramAccesses(rows) else SramAccesses(rows)|
    ensures FindsLatest(if dram then DramAccesses(rows) else SramAccesses(rows), k, dram)
  {
    hide DramAccesses, SramAccesses, DesignAfter, LastWritten, Writes;
    var log := if dram then DramAccesses(rows) else SramAccesses(rows);
    if dram { DramRemembers(rows); } else { SramRemembers(rows); }
    LastWrittenIs(log, dram, log[k].packet, k);
  }

  ghost predicate EndsWith(all: seq<Access>, log: seq<Access>) {
    |log| <= |all| && all[|all| - |log|..] == log
  }

  lemma EndsGrow(all: seq<Access>, log: seq<Access>, more: seq<Access>)
    requires EndsWith(all, log)
    ensures EndsWith(all + more, log + more)
  {
  }

  lemma SameAccesses(d: Design, o: Oracle, row: Row)
    requires Implements(d, o) && !row.reset
    ensures var d', e := Next(d, row), Expected(o);
            && NewAccess(DramAccepted(d), d.copyRequests, d.seedRequests, d'.dram.result)
               == AccessOf(o.dramRam, true, e.dramAccepted, o.copyRequests, o.seedRequests)
            && NewAccess(SramAccepted(d), d.checkRequests, d.copyQueue, d'.sram.result)
               == AccessOf(o.sramRam, false, e.sramAccepted, o.checkRequests, o.dramResponses)
  {
    hide Popped, Pushed, Offered, Delivers, DramEnqueued, SramEnqueued, Room, Front;
  }

  /** Those of them since the last reset are the ones the answers come from. */
  lemma {:induction false} LogsAreAccesses(rows: seq<Row>)
    ensures var h := HistoryAfter(rows);
            EndsWith(DramAccesses(rows), h.dramLog) && EndsWith(SramAccesses(rows), h.sramLog)
  {
    if rows != [] {
      var before, row := rows[..|rows| - 1], rows[|rows| - 1];
      var d, h, o, e := DesignAfter(before), HistoryAfter(before), OracleAfter(before), Expected(OracleAfter(before));
      LogsAreAccesses(before);
      if !row.reset {
        DesignRefinesOracle(before);
        SameAccesses(d, o, row);
        EndsGrow(DramAccesses(before), h.dramLog,
          AccessOf(o.dramRam, true, e.dramAccepted, o.copyRequests, o.seedRequests));
        EndsGrow(SramAccesses(before), h.sramLog,
          AccessOf(o.sramRam, false, e.sramAccepted, o.checkRequests, o.dramResponses));
      }
      hide Implements, Expected, AccessOf, NewAccess, Next;
    }
  }

  // --------------------------------------------------------------------- progress

  /** Steps a job has still to count, on top of the steps its response has to take. */
  function JobWeight(job: Job, edge: nat, first: nat, second: nat): nat {
    if job.NoJob? then 0
    else (if job.endpoint == 1 then first else second) + if job.due > edge then job.due - edge else 0
  }

  function DramWeight(o: Oracle): nat {
    5 * |o.seedRequests| + 8 * |o.copyRequests| + JobWeight(o.dramJob, o.edge, 5, 2)
  }

  function SramWeight(o: Oracle): nat {
    4 * |o.checkRequests| + 4 * |o.dramResponses| + JobWeight(o.sramJob, o.edge, 2, 2)
  }

  /** At most how many edges everything inside needs to come out. */
  function Potential(o: Oracle): nat {
    DramWeight(o) + SramWeight(o) + |o.seedResponses| + |o.copyResponses| + |o.checkResponses|
  }

  /** All responses are taken and nothing new is offered. */
  predicate Draining(row: Row) {
    && !row.reset && row.takeSeed && row.takeCopy && row.takeCheck
    && row.seed.NoOffer? && row.copy.NoOffer? && row.check.NoOffer?
  }

  /** A finished response that finds its queue full. */
  predicate Blocked(job: Job, edge: nat, delivers: nat) { job.Job? && job.due <= edge && delivers == 0 }

  lemma JobSinks(job: Job, edge: nat, high: seq<Packet>, low: seq<Packet>, first: seq<Packet>, second: seq<Packet>,
                 found: nat, latency: nat, a: nat, b: nat)
    requires job.Job? ==> job.endpoint in {1, 2}
    requires latency > 0
    ensures var takes, delivers := Takes(job, high, low), Delivers(job, edge, first, second);
            var job' := NextJob(job, takes, delivers, high, low, found, edge + latency);
            var w, w' := JobWeight(job, edge, a, b), JobWeight(job', edge + 1, a, b);
            && w' <= w + (if takes == 1 then a + latency - 1 else if takes == 2 then b + latency - 1 else 0)
                    - (if delivers == 1 then a else if delivers == 2 then b else 0)
            && (job.Job? && delivers == 0 && !Blocked(job, edge, delivers) ==> w' < w)
            && delivers in {0, 1, 2} && (takes == 1 ==> high != []) && (takes == 2 ==> low != [])
            && (job.NoJob? && takes == 0 ==> high == [] && low == [] && w == 0)
            && (takes != 0 ==> delivers == 0)
  {
  }

  lemma DramSinks(o: Oracle, row: Row)
    requires WithinCapacity(o) && Endpoints(o) && Draining(row)
    ensures var e, o' := Expected(o), Commit(o, row);
            var out := 4 * One(e.dramEnqueued == 1) + One(e.dramEnqueued == 2);
            && DramWeight(o') + out <= DramWeight(o)
            && (DramWeight(o) > 0 && !Blocked(o.dramJob, o.edge, e.dramEnqueued)
                ==> DramWeight(o') + out < DramWeight(o))
  {
    RequestsAfter(o, row);
    hide Read, Write, Popped, Pushed, NextJob, Found, Written, Takes, Delivers, Room, Front, Response, JobWeight;
    var e := Expected(o);
    JobSinks(o.dramJob, o.edge, o.copyRequests, o.seedRequests, o.dramResponses, o.seedResponses,
      Found(o.dramRam, true, e.dramAccepted, o.copyRequests, o.seedRequests), 3, 5, 2);
  }

  lemma SramSinks(o: Oracle, row: Row)
    requires WithinCapacity(o) && Endpoints(o) && Draining(row)
    ensures var e, o' := Expected(o), Commit(o, row);
            var out, more := One(e.sramEnqueued == 1) + One(e.sramEnqueued == 2), 4 * One(e.dramEnqueued == 1);
            && SramWeight(o') + out <= SramWeight(o) + more
            && (SramWeight(o) > 0 && !Blocked(o.sramJob, o.edge, e.sramEnqueued)
                ==> SramWeight(o') + out < SramWeight(o) + more)
  {
    RequestsAfter(o, row);
    ResponsesAfter(o, row);
    hide Read, Write, Popped, Pushed, NextJob, Found, Written, Takes, Delivers, Room, Front, Response, JobWeight;
    var e := Expected(o);
    JobSinks(o.sramJob, o.edge, o.checkRequests, o.dramResponses, o.checkResponses, o.copyResponses,
      Found(o.sramRam, false, e.sramAccepted, o.checkRequests, o.dramResponses), 2, 2, 2);
  }

  /** What blocks a controller is a queue with something in it. */
  lemma BlockedByFull(job: Job, edge: nat, first: seq<Packet>, second: seq<Packet>)
    requires job.Job? ==> job.endpoint in {1, 2}
    requires Blocked(job, edge, Delivers(job, edge, first, second))
    ensures first != [] || second != []
  {
  }

  lemma EdgeSinks(o: Oracle, row: Row)
    requires WithinCapacity(o) && Endpoints(o) && Draining(row)
    ensures var o' := Commit(o, row); Potential(o') < Potential(o) || Potential(o) == 0 == Potential(o')
  {
    var e := Expected(o);
    DramSinks(o, row);
    SramSinks(o, row);
    ResponsesAfter(o, row);
    if Blocked(o.dramJob, o.edge, e.dramEnqueued) {
      BlockedByFull(o.dramJob, o.edge, o.dramResponses, o.seedResponses);
    }
    if Blocked(o.sramJob, o.edge, e.sramEnqueued) {
      BlockedByFull(o.sramJob, o.edge, o.checkResponses, o.copyResponses);
    }
    hide Commit, Blocked, JobWeight;
  }

  ghost predicate AllDraining(rows: seq<Row>) { forall i :: 0 <= i < |rows| ==> Draining(rows[i]) }

  lemma {:induction false} RunSinks(rows: seq<Row>, drain: seq<Row>)
    requires AllDraining(drain)
    ensures var p, p' := Potential(OracleAfter(rows)), Potential(OracleAfter(rows + drain));
            p' == 0 || p' + |drain| <= p
    decreases |drain|
  {
    hide Commit, Potential, Draining, WithinCapacity, Endpoints, Conserved;
    if drain == [] {
      assert rows + drain == rows;
    } else {
      var n := |drain| - 1;
      RunSinks(rows, drain[..n]);
      RunConserves(rows + drain[..n]);
      assert (rows + drain)[..|rows + drain| - 1] == rows + drain[..n];
      EdgeSinks(OracleAfter(rows + drain[..n]), drain[n]);
    }
  }

  /** Two controllers, nine places: never more than 74. */
  lemma PotentialBound(rows: seq<Row>)
    ensures Potential(OracleAfter(rows)) <= 74
  {
    hide OracleAfter, DesignAfter, ResponseOf;
    RunConserves(rows);
    DesignRefinesOracle(rows);
  }

  lemma PotentialZero(d: Design, o: Oracle)
    requires Implements(d, o) && Endpoints(o) && Potential(o) == 0
    ensures InFlight(d) == 0
  {
  }

  /** From any state a run can reach, once every response is taken and nothing new is offered, 74
      edges empty the design: every request since the last reset has its answer. */
  lemma DesignDrains(rows: seq<Row>, drain: seq<Row>)
    requires AllDraining(drain) && |drain| >= 74
    ensures var v, c := ViewAfter(rows + drain), CountersAfter(rows + drain);
            && InFlight(DesignAfter(rows + drain)) == 0
            && c.sent == c.retired + c.canceled
            && |v.gotSeed| == |v.sentSeed| && |v.gotCopy| == |v.sentCopy| && |v.gotCheck| == |v.sentCheck|
  {
    hide Potential, Implements, WithinCapacity, Conserved, Endpoints, OracleAfter, DesignAfter, ViewAfter, HistoryAfter,
      CountersAfter, Asked, Answered, Replay, Faithful;
    var all := rows + drain;
    RunSinks(rows, drain);
    PotentialBound(rows);
    RunConserves(all);
    DesignRefinesOracle(all);
    PotentialZero(DesignAfter(all), OracleAfter(all));
    DesignConserves(all);
    DesignAccounts(all);
    var h := HistoryAfter(all);
    AnsweredInOrder(h.dramLog, true);
    AnsweredInOrder(h.dramLog, false);
    AnsweredInOrder(h.sramLog, true);
    AnsweredInOrder(h.sramLog, false);
  }

  // ------------------------------------------------------------------- starvation

  /** Takes held, no reset, a copy offered at every edge. */
  function Copying(p: Packet): Row { Row(false, NoOffer, Offer(p), NoOffer, true, true, true) }

  function Repeated(row: Row, n: nat): (rows: seq<Row>)
    ensures |rows| == n
  {
    if n == 0 then [] else Repeated(row, n - 1) + [row]
  }

  predicate Starving(d: Design, seed: Packet) {
    && d.seedRequests == [seed] && d.copyRequests != [] && d.seedResponses == [] && (d.dram.busy ==> d.dram.reader)
  }

  lemma EdgeStarves(d: Design, seed: Packet, copy: Packet)
    requires Starving(d, seed)
    ensures Starving(Next(d, Copying(copy)), seed)
  {
    hide NextSram, SramEnqueued, SramAccepted, ResponseOf, Read, Write;
  }

  /** Priority is strict: without the pause, a seed waits for as long as copies keep coming. */
  lemma {:induction false} SeedStarves(seed: Packet, copy: Packet, n: nat)
    ensures var rows := [Row(false, Offer(seed), Offer(copy), NoOffer, true, true, true)] + Repeated(Copying(copy), n);
            Starving(DesignAfter(rows), seed) && ViewAfter(rows).gotSeed == []
  {
    var first := [Row(false, Offer(seed), Offer(copy), NoOffer, true, true, true)];
    var rows := first + Repeated(Copying(copy), n);
    if n == 0 {
      assert rows == first && rows[..|rows| - 1] == [];
    } else {
      var before := first + Repeated(Copying(copy), n - 1);
      assert rows[..|rows| - 1] == before && rows[|rows| - 1] == Copying(copy);
      hide Next;
      SeedStarves(seed, copy, n - 1);
      EdgeStarves(DesignAfter(before), seed, copy);
    }
  }
}
