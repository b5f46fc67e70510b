/** The driver's oracle (examples/dma/driver.cpp): jobs with deadlines and words recorded at
    acceptance, in place of controllers that count down.  The counters that only measure a
    stimulus (peaks, priorities, blocked and held edges) are left out. */
module DmaOracle {
  import opened DmaDesign

  datatype Job = NoJob | Job(response: Packet, endpoint: nat, due: nat)

  datatype Oracle = Oracle(
    seedRequests: seq<Packet>, copyRequests: seq<Packet>, checkRequests: seq<Packet>,
    seedResponses: seq<Packet>, dramResponses: seq<Packet>, copyResponses: seq<Packet>, checkResponses: seq<Packet>,
    dramRam: Ram, sramRam: Ram, dramJob: Job, sramJob: Job,
    edge: nat, sent: nat, retired: nat, canceled: nat)

  const START := Oracle([], [], [], [], [], [], [], CLEAR, CLEAR, NoJob, NoJob, 0, 0, 0, 0)

  /** The higher-priority endpoint is 1. */
  function Takes(job: Job, high: seq<Packet>, low: seq<Packet>): nat {
    if job.Job? then 0 else if high != [] then 1 else if low != [] then 2 else 0
  }

  function Delivers(job: Job, edge: nat, first: seq<Packet>, second: seq<Packet>): nat {
    if job.NoJob? || edge < job.due then 0
    else if job.endpoint == 1 then (if Room(first, 2) then 1 else 0)
    else if Room(second, 2) then job.endpoint else 0
  }

  function Expected(o: Oracle): Outputs {
    Outputs(
      Room(o.seedRequests, 2), Room(o.copyRequests, 4), Room(o.checkRequests, 2),
      Front(o.seedResponses), Front(o.copyResponses), Front(o.checkResponses),
      Takes(o.dramJob, o.copyRequests, o.seedRequests), Delivers(o.dramJob, o.edge, o.dramResponses, o.seedResponses),
      Takes(o.sramJob, o.checkRequests, o.dramResponses),
      Delivers(o.sramJob, o.edge, o.checkResponses, o.copyResponses))
  }

  function JobSize(job: Job): nat { if job.Job? then 1 else 0 }

  function Pending(o: Oracle): nat {
    |o.seedRequests| + |o.copyRequests| + |o.checkRequests| + |o.seedResponses| + |o.dramResponses| + |o.copyResponses|
    + |o.checkResponses| + JobSize(o.dramJob) + JobSize(o.sramJob)
  }

  /** A job records the word it found; the write has already happened. */
  function NextJob(job: Job, takes: nat, delivers: nat, high: seq<Packet>, low: seq<Packet>, found: nat,
                   due: nat): Job {
    if takes == 1 && high != [] then Job(high[0].(data := found), 1, due)
    else if takes == 2 && low != [] then Job(low[0].(data := found), 2, due)
    else if delivers != 0 then NoJob
    else job
  }

  function Response(job: Job): Packet { if job.Job? then job.response else BLANK }

  function Address(dram: bool, p: Packet): nat { if dram then p.dram else p.sram }

  function Found(ram: Ram, dram: bool, takes: nat, high: seq<Packet>, low: seq<Packet>): nat {
    if takes == 1 && high != [] then Read(ram, Address(dram, high[0]))
    else if takes == 2 && low != [] then Read(ram, Address(dram, low[0]))
    else 0
  }

  function Written(ram: Ram, dram: bool, takes: nat, low: seq<Packet>): Ram {
    if takes == 2 && low != [] then Write(ram, Address(dram, low[0]), low[0].data) else ram
  }

  function Taken(q: seq<Packet>, take: bool): nat { if take && q != [] then 1 else 0 }

  function Commit(o: Oracle, row: Row): Oracle {
    if row.reset then
      Oracle([], [], [], [], [], [], [], o.dramRam, o.sramRam, NoJob, NoJob, o.edge + 1, o.sent, o.retired,
        o.canceled + Pending(o))
    else
      var e := Expected(o);
      var seed, copy, check :=
        Offered(o.seedRequests, 2, row.seed), Offered(o.copyRequests, 4, row.copy),
        Offered(o.checkRequests, 2, row.check);
      Oracle(
        Popped(o.seedRequests, e.dramAccepted == 2) + seed,
        Popped(o.copyRequests, e.dramAccepted == 1) + copy,
        Popped(o.checkRequests, e.sramAccepted == 1) + check,
        Pushed(Popped(o.seedResponses, row.takeSeed), e.dramEnqueued == 2, Response(o.dramJob)),
        Pushed(Popped(o.dramResponses, e.sramAccepted == 2), e.dramEnqueued == 1, Response(o.dramJob)),
        Pushed(Popped(o.copyResponses, row.takeCopy), e.sramEnqueued == 2, Response(o.sramJob)),
        Pushed(Popped(o.checkResponses, row.takeCheck), e.sramEnqueued == 1, Response(o.sramJob)),
        Written(o.dramRam, true, e.dramAccepted, o.seedRequests),
        Written(o.sramRam, false, e.sramAccepted, o.dramResponses),
        NextJob(o.dramJob, e.dramAccepted, e.dramEnqueued, o.copyRequests, o.seedRequests,
          Found(o.dramRam, true, e.dramAccepted, o.copyRequests, o.seedRequests), o.edge + 3),
        NextJob(o.sramJob, e.sramAccepted, e.sramEnqueued, o.checkRequests, o.dramResponses,
          Found(o.sramRam, false, e.sramAccepted, o.checkRequests, o.dramResponses), o.edge + 2),
        o.edge + 1, o.sent + |seed| + |copy| + |check|,
        o.retired + Taken(o.seedResponses, row.takeSeed) + Taken(o.copyResponses, row.takeCopy)
        + Taken(o.checkResponses, row.takeCheck),
        o.canceled)
  }

  // -------------------------------------------------------------- over whole runs

  function DesignAfter(rows: seq<Row>): Design {
    if rows == [] then POWER_ON else Next(DesignAfter(rows[..|rows| - 1]), rows[|rows| - 1])
  }

  function OracleAfter(rows: seq<Row>): Oracle {
    if rows == [] then START else Commit(OracleAfter(rows[..|rows| - 1]), rows[|rows| - 1])
  }

  /** A controller against a job: the countdown is the distance to the deadline, and the word read
      is in the response whether or not it has left the read register yet. */
  predicate Serves(c: Controller, job: Job, edge: nat, latency: nat) {
    if !c.busy then job.NoJob?
    else
      && job.Job? && job.response == ResponseOf(c) && job.endpoint == (if c.reader then 1 else 2)
      && 1 <= c.remaining <= latency && (c.captureOld <==> c.remaining == latency)
      && (if job.due <= edge then c.remaining == 1 else c.remaining == job.due - edge + 1)
  }

  ghost predicate Implements(d: Design, o: Oracle) {
    && d.seedRequests == o.seedRequests && d.copyRequests == o.copyRequests && d.checkRequests == o.checkRequests
    && d.seedResponses == o.seedResponses && d.copyQueue == o.dramResponses
    && d.copyResponses == o.copyResponses && d.checkResponses == o.checkResponses
    && d.dram.ram == o.dramRam && d.sram.ram == o.sramRam
    && Serves(d.dram, o.dramJob, o.edge, 3) && Serves(d.sram, o.sramJob, o.edge, 2)
  }

  lemma SameOutputs(d: Design, o: Oracle)
    requires Implements(d, o)
    ensures OutputsOf(d) == Expected(o)
  {
  }

  lemma DramServes(d: Design, o: Oracle, row: Row)
    requires Implements(d, o) && !row.reset
    ensures var o' := Commit(o, row);
            NextDram(d).ram == o'.dramRam && Serves(NextDram(d), o'.dramJob, o'.edge, 3)
  {
    hide Popped, Pushed, Offered, Taken, Room;
    SameOutputs(d, o);
  }

  lemma SramServes(d: Design, o: Oracle, row: Row)
    requires Implements(d, o) && !row.reset
    ensures var o' := Commit(o, row);
            NextSram(d).ram == o'.sramRam && Serves(NextSram(d), o'.sramJob, o'.edge, 2)
  {
    hide Popped, Pushed, Offered, Taken, Room;
    SameOutputs(d, o);
  }

  lemma EdgeImplements(d: Design, o: Oracle, row: Row)
    requires Implements(d, o)
    ensures Implements(Next(d, row), Commit(o, row))
  {
    if !row.reset {
      hide Popped, Pushed, Offered, Taken, NextJob, Found, Written;
      SameOutputs(d, o);
      DramServes(d, o, row);
      SramServes(d, o, row);
      assert Eligible(d.dram) ==> Response(o.dramJob) == ResponseOf(d.dram);
      assert Eligible(d.sram) ==> Response(o.sramJob) == d.sram.request;
    }
  }

  /** On every input stream, resets included, the counting controllers show at every edge exactly
      what the deadline oracle expects. */
  lemma {:induction false} DesignRefinesOracle(rows: seq<Row>)
    ensures Implements(DesignAfter(rows), OracleAfter(rows))
    ensures OutputsOf(DesignAfter(rows)) == Expected(OracleAfter(rows))
  {
    hide Next, Commit, Implements;
    if rows != [] {
      DesignRefinesOracle(rows[..|rows| - 1]);
      EdgeImplements(DesignAfter(rows[..|rows| - 1]), OracleAfter(rows[..|rows| - 1]), rows[|rows| - 1]);
    } else {
      Starts();
    }
    SameOutputs(DesignAfter(rows), OracleAfter(rows));
  }

  lemma Starts()
    ensures Implements(POWER_ON, START)
  {
  }
}
