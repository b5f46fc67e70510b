/** What every run of the DMA accounts for: each endpoint's requests and responses, in order, and
    the memory access each response comes from. */
module DmaHistory {
  import opened DmaDesign
  import opened DmaOracle

  // ----------------------------------------------------- conservation and capacity

  predicate WithinCapacity(o: Oracle) {
    && |o.seedRequests| <= 2 && |o.copyRequests| <= 4 && |o.checkRequests| <= 2 && |o.seedResponses| <= 2
    && |o.dramResponses| <= 2 && |o.copyResponses| <= 2 && |o.checkResponses| <= 2
  }

  predicate Conserved(o: Oracle) { o.sent == o.retired + o.canceled + Pending(o) }

  predicate Endpoints(o: Oracle) {
    (o.dramJob.Job? ==> o.dramJob.endpoint in {1, 2}) && (o.sramJob.Job? ==> o.sramJob.endpoint in {1, 2})
  }

  function One(b: bool): nat { if b then 1 else 0 }

  lemma RequestLength(q: seq<Packet>, depth: nat, pop: bool, o: Offer)
    requires |q| <= depth
    ensures |Popped(q, pop) + Offered(q, depth, o)| == |q| - Taken(q, pop) + |Offered(q, depth, o)| <= depth
  {
  }

  lemma ResponseLength(q: seq<Packet>, pop: bool, push: bool, p: Packet)
    requires |q| <= 2 && (push ==> |q| < 2)
    ensures |Pushed(Popped(q, pop), push, p)| == |q| - Taken(q, pop) + One(push) <= 2
  {
  }

  /** A controller takes only when it has no job, and delivers only when it has one. */
  lemma JobLength(job: Job, edge: nat, high: seq<Packet>, low: seq<Packet>, first: seq<Packet>, second: seq<Packet>,
                  found: nat, due: nat)
    requires job.Job? ==> job.endpoint in {1, 2}
    ensures var takes, delivers := Takes(job, high, low), Delivers(job, edge, first, second);
            var job' := NextJob(job, takes, delivers, high, low, found, due);
            && JobSize(job') == JobSize(job) + Taken(high, takes == 1) + Taken(low, takes == 2)
                                - One(delivers == 1) - One(delivers == 2)
            && (job'.Job? ==> job'.endpoint in {1, 2})
            && (delivers == 1 ==> |first| < 2) && (delivers == 2 ==> |second| < 2) && delivers in {0, 1, 2}
  {
  }

  lemma RequestsAfter(o: Oracle, row: Row)
    requires WithinCapacity(o) && !row.reset
    ensures var e, o' := Expected(o), Commit(o, row);
            var seed, copy, check := Offered(o.seedRequests, 2, row.seed), Offered(o.copyRequests, 4, row.copy),
                                     Offered(o.checkRequests, 2, row.check);
            && |o'.seedRequests| == |o.seedRequests| - Taken(o.seedRequests, e.dramAccepted == 2) + |seed| <= 2
            && |o'.copyRequests| == |o.copyRequests| - Taken(o.copyRequests, e.dramAccepted == 1) + |copy| <= 4
            && |o'.checkRequests| == |o.checkRequests| - Taken(o.checkRequests, e.sramAccepted == 1) + |check| <= 2
            && o'.sent == o.sent + |seed| + |copy| + |check| && o'.canceled == o.canceled
  {
    hide Read, Write, Popped, Pushed, Offered, Taken, NextJob, Found, Written, Takes, Delivers, Room, Front, JobSize,
      Response, One;
    var e := Expected(o);
    RequestLength(o.seedRequests, 2, e.dramAccepted == 2, row.seed);
    RequestLength(o.copyRequests, 4, e.dramAccepted == 1, row.copy);
    RequestLength(o.checkRequests, 2, e.sramAccepted == 1, row.check);
  }

  lemma JobsAfter(o: Oracle, row: Row)
    requires Endpoints(o) && !row.reset
    ensures var e, o' := Expected(o), Commit(o, row);
            && Endpoints(o')
            && JobSize(o'.dramJob) == JobSize(o.dramJob) + Taken(o.copyRequests, e.dramAccepted == 1)
               + Taken(o.seedRequests, e.dramAccepted == 2) - One(e.dramEnqueued == 1) - One(e.dramEnqueued == 2)
            && JobSize(o'.sramJob) == JobSize(o.sramJob) + Taken(o.checkRequests, e.sramAccepted == 1)
               + Taken(o.dramResponses, e.sramAccepted == 2) - One(e.sramEnqueued == 1) - One(e.sramEnqueued == 2)
            && (e.dramEnqueued == 1 ==> |o.dramResponses| < 2) && (e.dramEnqueued == 2 ==> |o.seedResponses| < 2)
            && (e.sramEnqueued == 1 ==> |o.checkResponses| < 2) && (e.sramEnqueued == 2 ==> |o.copyResponses| < 2)
  {
    hide Read, Write, Popped, Pushed, Offered, Taken, NextJob, Found, Written, Takes, Delivers, Room, Front, JobSize,
      Response, One;
    var e := Expected(o);
    JobLength(o.dramJob, o.edge, o.copyRequests, o.seedRequests, o.dramResponses, o.seedResponses,
      Found(o.dramRam, true, e.dramAccepted, o.copyRequests, o.seedRequests), o.edge + 3);
    JobLength(o.sramJob, o.edge, o.checkRequests, o.dramResponses, o.checkResponses, o.copyResponses,
      Found(o.sramRam, false, e.sramAccepted, o.checkRequests, o.dramResponses), o.edge + 2);
  }

  lemma ResponsesAfter(o: Oracle, row: Row)
    requires WithinCapacity(o) && Endpoints(o) && !row.reset
    ensures var e, o' := Expected(o), Commit(o, row);
            && |o'.seedResponses| == |o.seedResponses| - Taken(o.seedResponses, row.takeSeed)
               + One(e.dramEnqueued == 2) <= 2
            && |o'.dramResponses| == |o.dramResponses| - Taken(o.dramResponses, e.sramAccepted == 2)
               + One(e.dramEnqueued == 1) <= 2
            && |o'.copyResponses| == |o.copyResponses| - Taken(o.copyResponses, row.takeCopy)
               + One(e.sramEnqueued == 2) <= 2
            && |o'.checkResponses| == |o.checkResponses| - Taken(o.checkResponses, row.takeCheck)
               + One(e.sramEnqueued == 1) <= 2
            && o'.retired == o.retired + Taken(o.seedResponses, row.takeSeed) + Taken(o.copyResponses, row.takeCopy)
                             + Taken(o.checkResponses, row.takeCheck)
  {
    JobsAfter(o, row);
    hide Read, Write, Popped, Pushed, Offered, Taken, NextJob, Found, Written, Takes, Delivers, Room, Front, JobSize,
      Response, One;
    var e := Expected(o);
    ResponseLength(o.seedResponses, row.takeSeed, e.dramEnqueued == 2, Response(o.dramJob));
    ResponseLength(o.dramResponses, e.sramAccepted == 2, e.dramEnqueued == 1, Response(o.dramJob));
    ResponseLength(o.copyResponses, row.takeCopy, e.sramEnqueued == 2, Response(o.sramJob));
    ResponseLength(o.checkResponses, row.takeCheck, e.sramEnqueued == 1, Response(o.sramJob));
  }

  lemma CommitConserves(o: Oracle, row: Row)
    requires WithinCapacity(o) && Conserved(o) && Endpoints(o)
    ensures WithinCapacity(Commit(o, row)) && Conserved(Commit(o, row)) && Endpoints(Commit(o, row))
  {
    if !row.reset {
      hide Commit, Expected, Taken, One, Offered, JobSize;
      RequestsAfter(o, row);
      JobsAfter(o, row);
      ResponsesAfter(o, row);
    }
  }

  /** No queue overflows, and every request sent is answered, canceled by a reset or still here. */
  lemma {:induction false} RunConserves(rows: seq<Row>)
    ensures WithinCapacity(OracleAfter(rows)) && Conserved(OracleAfter(rows)) && Endpoints(OracleAfter(rows))
  {
    hide Commit, WithinCapacity, Conserved, Endpoints;
    if rows == [] {
      StartConserves();
    } else {
      RunConserves(rows[..|rows| - 1]);
      CommitConserves(OracleAfter(rows[..|rows| - 1]), rows[|rows| - 1]);
    }
  }

  lemma StartConserves()
    ensures WithinCapacity(START) && Conserved(START) && Endpoints(START)
  {
  }

  // --------------------------------------------------------------- accounting

  /** One access a memory accepted: the request as it came, and the word it found. */
  datatype Access = Access(packet: Packet, write: bool, found: nat)

  /** Since the last reset: what each endpoint sent and got back, and what each memory accepted. */
  datatype History = History(
    sentSeed: seq<Packet>, sentCopy: seq<Packet>, sentCheck: seq<Packet>,
    gotSeed: seq<Packet>, gotCopy: seq<Packet>, gotCheck: seq<Packet>,
    dramBase: Ram, sramBase: Ram, dramLog: seq<Access>, sramLog: seq<Access>)

  function Head(q: seq<Packet>, pop: bool): seq<Packet> { if pop && q != [] then [q[0]] else [] }

  function AccessOf(ram: Ram, dram: bool, takes: nat, high: seq<Packet>, low: seq<Packet>): seq<Access> {
    if takes == 1 && high != [] then [Access(high[0], false, Read(ram, Address(dram, high[0])))]
    else if takes == 2 && low != [] then [Access(low[0], true, Read(ram, Address(dram, low[0])))]
    else []
  }

  function Recorded(h: History, o: Oracle, row: Row): History {
    if row.reset then History([], [], [], [], [], [], o.dramRam, o.sramRam, [], [])
    else
      var e := Expected(o);
      History(
        h.sentSeed + Offered(o.seedRequests, 2, row.seed), h.sentCopy + Offered(o.copyRequests, 4, row.copy),
        h.sentCheck + Offered(o.checkRequests, 2, row.check),
        h.gotSeed + Head(o.seedResponses, row.takeSeed), h.gotCopy + Head(o.copyResponses, row.takeCopy),
        h.gotCheck + Head(o.checkResponses, row.takeCheck), h.dramBase, h.sramBase,
        h.dramLog + AccessOf(o.dramRam, true, e.dramAccepted, o.copyRequests, o.seedRequests),
        h.sramLog + AccessOf(o.sramRam, false, e.sramAccepted, o.checkRequests, o.dramResponses))
  }

  function HistoryAfter(rows: seq<Row>): History {
    if rows == [] then History([], [], [], [], [], [], CLEAR, CLEAR, [], [])
    else Recorded(HistoryAfter(rows[..|rows| - 1]), OracleAfter(rows[..|rows| - 1]), rows[|rows| - 1])
  }

  /** The requests among the accesses, and what each is answered: the same packet with the word
      the memory held just before. */
  function Asked(log: seq<Access>, write: bool): seq<Packet> {
    if log == [] then []
    else
      var last := log[|log| - 1];
      Asked(log[..|log| - 1], write) + if last.write == write then [last.packet] else []
  }

  function Answered(log: seq<Access>, write: bool): seq<Packet> {
    if log == [] then []
    else
      var last := log[|log| - 1];
      Answered(log[..|log| - 1], write) + if last.write == write then [last.packet.(data := last.found)] else []
  }

  /** The accesses one after another on one memory, with nothing else in between. */
  function Replay(base: Ram, log: seq<Access>, dram: bool): Ram {
    if log == [] then base
    else
      var before, last := Replay(base, log[..|log| - 1], dram), log[|log| - 1];
      if last.write then Write(before, Address(dram, last.packet), last.packet.data) else before
  }

  predicate Faithful(base: Ram, log: seq<Access>, dram: bool) {
    log == [] || (
      var last := log[|log| - 1];
      && Faithful(base, log[..|log| - 1], dram)
      && last.found == Read(Replay(base, log[..|log| - 1], dram), Address(dram, last.packet)))
  }

  function JobOf(job: Job, endpoint: nat): seq<Packet> {
    if job.Job? && job.endpoint == endpoint then [job.response] else []
  }

  /** Everything sent is somewhere on its path, in order and with its own tag and addresses; each
      response holds the word its memory held when the request was accepted; and a copy carries
      the DRAM's word into the SRAM. */
  ghost predicate Accounts(h: History, o: Oracle) {
    && h.sentSeed == Asked(h.dramLog, true) + o.seedRequests
    && h.sentCopy == Asked(h.dramLog, false) + o.copyRequests
    && h.sentCheck == Asked(h.sramLog, false) + o.checkRequests
    && Answered(h.dramLog, true) == h.gotSeed + o.seedResponses + JobOf(o.dramJob, 2)
    && Answered(h.dramLog, false) == Asked(h.sramLog, true) + o.dramResponses + JobOf(o.dramJob, 1)
    && Answered(h.sramLog, true) == h.gotCopy + o.copyResponses + JobOf(o.sramJob, 2)
    && Answered(h.sramLog, false) == h.gotCheck + o.checkResponses + JobOf(o.sramJob, 1)
    && o.dramRam == Replay(h.dramBase, h.dramLog, true) && Faithful(h.dramBase, h.dramLog, true)
    && o.sramRam == Replay(h.sramBase, h.sramLog, false) && Faithful(h.sramBase, h.sramLog, false)
  }

  // ------------------------------------------------------------ one edge of a path

  lemma RequestPath(sent: seq<Packet>, asked: seq<Packet>, q: seq<Packet>, pop: bool, offered: seq<Packet>)
    requires sent == asked + q
    ensures sent + offered == (asked + Head(q, pop)) + (Popped(q, pop) + offered)
  {
    if pop && q != [] { assert q == [q[0]] + q[1..]; }
  }

  lemma ResponsePath(all: seq<Packet>, got: seq<Packet>, q: seq<Packet>, j: seq<Packet>, j': seq<Packet>, take: bool,
                     push: bool, p: Packet, more: seq<Packet>)
    requires all == got + q + j && j + more == (if push then [p] else []) + j'
    ensures all + more == (got + Head(q, take)) + Pushed(Popped(q, take), push, p) + j'
  {
    var d := if push then [p] else [];
    assert all + more == got + q + (j + more);
    assert Pushed(Popped(q, take), push, p) == Popped(q, take) + d;
    assert q == Head(q, take) + Popped(q, take);
  }

  /** The word a new job answers with. */
  function NewResponse(ram: Ram, dram: bool, takes: nat, high: seq<Packet>, low: seq<Packet>,
                       endpoint: nat): seq<Packet> {
    var found := Found(ram, dram, takes, high, low);
    if takes != endpoint then []
    else if takes == 1 && high != [] then [high[0].(data := found)]
    else if takes == 2 && low != [] then [low[0].(data := found)]
    else []
  }

  lemma JobPath(job: Job, edge: nat, ram: Ram, dram: bool, high: seq<Packet>, low: seq<Packet>, first: seq<Packet>,
                second: seq<Packet>, due: nat, endpoint: nat)
    requires job.Job? ==> job.endpoint in {1, 2}
    requires endpoint in {1, 2}
    ensures var takes, delivers := Takes(job, high, low), Delivers(job, edge, first, second);
            var job' := NextJob(job, takes, delivers, high, low, Found(ram, dram, takes, high, low), due);
            JobOf(job, endpoint) + NewResponse(ram, dram, takes, high, low, endpoint)
            == (if delivers == endpoint then [Response(job)] else []) + JobOf(job', endpoint)
  {
  }

  /** The log of one memory after an edge. */
  lemma LogGrows(base: Ram, log: seq<Access>, ram: Ram, dram: bool, takes: nat, high: seq<Packet>, low: seq<Packet>)
    requires ram == Replay(base, log, dram) && Faithful(base, log, dram)
    ensures var log' := log + AccessOf(ram, dram, takes, high, low);
            && Written(ram, dram, takes, low) == Replay(base, log', dram) && Faithful(base, log', dram)
            && Asked(log', false) == Asked(log, false) + Head(high, takes == 1)
            && Asked(log', true) == Asked(log, true) + Head(low, takes == 2)
            && Answered(log', false) == Answered(log, false) + NewResponse(ram, dram, takes, high, low, 1)
            && Answered(log', true) == Answered(log, true) + NewResponse(ram, dram, takes, high, low, 2)
  {
    hide Read, Write;
    var a := AccessOf(ram, dram, takes, high, low);
    if a == [] {
      assert log + a == log;
    } else {
      assert (log + a)[..|log + a| - 1] == log;
    }
  }

  lemma LogsAfter(h: History, o: Oracle, row: Row)
    requires Accounts(h, o) && !row.reset
    ensures var h', o', e := Recorded(h, o, row), Commit(o, row), Expected(o);
            && o'.dramRam == Replay(h'.dramBase, h'.dramLog, true) && Faithful(h'.dramBase, h'.dramLog, true)
            && o'.sramRam == Replay(h'.sramBase, h'.sramLog, false) && Faithful(h'.sramBase, h'.sramLog, false)
            && Asked(h'.dramLog, false) == Asked(h.dramLog, false) + Head(o.copyRequests, e.dramAccepted == 1)
            && Asked(h'.dramLog, true) == Asked(h.dramLog, true) + Head(o.seedRequests, e.dramAccepted == 2)
            && Asked(h'.sramLog, false) == Asked(h.sramLog, false) + Head(o.checkRequests, e.sramAccepted == 1)
            && Asked(h'.sramLog, true) == Asked(h.sramLog, true) + Head(o.dramResponses, e.sramAccepted == 2)
  {
    hide Read, Write, Popped, Pushed, Offered, Taken, NextJob, Found, Written, Takes, Delivers, Room, Front, Response,
      Asked, Answered, Replay, Faithful, Head, AccessOf, NewResponse, JobOf, Pending;
    var e := Expected(o);
    LogGrows(h.dramBase, h.dramLog, o.dramRam, true, e.dramAccepted, o.copyRequests, o.seedRequests);
    LogGrows(h.sramBase, h.sramLog, o.sramRam, false, e.sramAccepted, o.checkRequests, o.dramResponses);
  }

  lemma SentAfter(h: History, o: Oracle, row: Row)
    requires Accounts(h, o) && !row.reset
    ensures var h', o' := Recorded(h, o, row), Commit(o, row);
            && h'.sentSeed == Asked(h'.dramLog, true) + o'.seedRequests
            && h'.sentCopy == Asked(h'.dramLog, false) + o'.copyRequests
            && h'.sentCheck == Asked(h'.sramLog, false) + o'.checkRequests
  {
    LogsAfter(h, o, row);
    hide Read, Write, Popped, Pushed, Offered, Taken, NextJob, Found, Written, Takes, Delivers, Room, Front, Response,
      Asked, Answered, Replay, Faithful, Head, AccessOf, NewResponse, JobOf, Pending;
    var e := Expected(o);
    RequestPath(h.sentSeed, Asked(h.dramLog, true), o.seedRequests, e.dramAccepted == 2,
      Offered(o.seedRequests, 2, row.seed));
    RequestPath(h.sentCopy, Asked(h.dramLog, false), o.copyRequests, e.dramAccepted == 1,
      Offered(o.copyRequests, 4, row.copy));
    RequestPath(h.sentCheck, Asked(h.sramLog, false), o.checkRequests, e.sramAccepted == 1,
      Offered(o.checkRequests, 2, row.check));
  }

  lemma DramAnswersAfter(h: History, o: Oracle, row: Row)
    requires Accounts(h, o) && Endpoints(o) && !row.reset
    ensures var h', o' := Recorded(h, o, row), Commit(o, row);
            && Answered(h'.dramLog, true) == h'.gotSeed + o'.seedResponses + JobOf(o'.dramJob, 2)
            && Answered(h'.dramLog, false) == Asked(h'.sramLog, true) + o'.dramResponses + JobOf(o'.dramJob, 1)
  {
    LogsAfter(h, o, row);
    hide Read, Write, Popped, Pushed, Offered, Taken, NextJob, Found, Written, Takes, Delivers, Room, Front, Response,
      Asked, Answered, Replay, Faithful, Head, AccessOf, NewResponse, JobOf, Pending;
    var e, job := Expected(o), o.dramJob;
    var job' := Commit(o, row).dramJob;
    LogGrows(h.dramBase, h.dramLog, o.dramRam, true, e.dramAccepted, o.copyRequests, o.seedRequests);
    JobPath(job, o.edge, o.dramRam, true, o.copyRequests, o.seedRequests, o.dramResponses, o.seedResponses,
      o.edge + 3, 1);
    JobPath(job, o.edge, o.dramRam, true, o.copyRequests, o.seedRequests, o.dramResponses, o.seedResponses,
      o.edge + 3, 2);
    ResponsePath(Answered(h.dramLog, true), h.gotSeed, o.seedResponses, JobOf(job, 2), JobOf(job', 2), row.takeSeed,
      e.dramEnqueued == 2, Response(job),
      NewResponse(o.dramRam, true, e.dramAccepted, o.copyRequests, o.seedRequests, 2));
    ResponsePath(Answered(h.dramLog, false), Asked(h.sramLog, true), o.dramResponses, JobOf(job, 1), JobOf(job', 1),
      e.sramAccepted == 2, e.dramEnqueued == 1, Response(job),
      NewResponse(o.dramRam, true, e.dramAccepted, o.copyRequests, o.seedRequests, 1));
  }

  lemma SramAnswersAfter(h: History, o: Oracle, row: Row)
    requires Accounts(h, o) && Endpoints(o) && !row.reset
    ensures var h', o' := Recorded(h, o, row), Commit(o, row);
            && Answered(h'.sramLog, true) == h'.gotCopy + o'.copyResponses + JobOf(o'.sramJob, 2)
            && Answered(h'.sramLog, false) == h'.gotCheck + o'.checkResponses + JobOf(o'.sramJob, 1)
  {
    hide Read, Write, Popped, Pushed, Offered, Taken, NextJob, Found, Written, Takes, Delivers, Room, Front, Response,
      Asked, Answered, Replay, Faithful, Head, AccessOf, NewResponse, JobOf, Pending;
    var e, job := Expected(o), o.sramJob;
    var job' := Commit(o, row).sramJob;
    LogGrows(h.sramBase, h.sramLog, o.sramRam, false, e.sramAccepted, o.checkRequests, o.dramResponses);
    JobPath(job, o.edge, o.sramRam, false, o.checkRequests, o.dramResponses, o.checkResponses, o.copyResponses,
      o.edge + 2, 1);
    JobPath(job, o.edge, o.sramRam, false, o.checkRequests, o.dramResponses, o.checkResponses, o.copyResponses,
      o.edge + 2, 2);
    ResponsePath(Answered(h.sramLog, true), h.gotCopy, o.copyResponses, JobOf(job, 2), JobOf(job', 2), row.takeCopy,
      e.sramEnqueued == 2, Response(job),
      NewResponse(o.sramRam, false, e.sramAccepted, o.checkRequests, o.dramResponses, 2));
    ResponsePath(Answered(h.sramLog, false), h.gotCheck, o.checkResponses, JobOf(job, 1), JobOf(job', 1), row.takeCheck,
      e.sramEnqueued == 1, Response(job),
      NewResponse(o.sramRam, false, e.sramAccepted, o.checkRequests, o.dramResponses, 1));
  }

  lemma EdgeAccounts(h: History, o: Oracle, row: Row)
    requires Accounts(h, o) && Endpoints(o)
    ensures Accounts(Recorded(h, o, row), Commit(o, row))
  {
    if !row.reset {
      LogsAfter(h, o, row);
      SentAfter(h, o, row);
      DramAnswersAfter(h, o, row);
      SramAnswersAfter(h, o, row);
      hide Recorded, Commit, Asked, Answered, Replay, Faithful, JobOf;
    }
  }

  /** At every edge of every run, resets included, the books balance. */
  lemma {:induction false} RunAccounts(rows: seq<Row>)
    ensures Accounts(HistoryAfter(rows), OracleAfter(rows))
  {
    if rows != [] {
      hide Commit, Recorded, Accounts, Endpoints;
      RunAccounts(rows[..|rows| - 1]);
      RunConserves(rows[..|rows| - 1]);
      EdgeAccounts(HistoryAfter(rows[..|rows| - 1]), OracleAfter(rows[..|rows| - 1]), rows[|rows| - 1]);
    }
  }

  // ------------------------------------------------------------- what an endpoint sees

  /** One packet answers another: everything but the data is its own. */
  predicate Answers(response: Packet, request: Packet) {
    response == request.(data := response.data)
  }

  /** Each of `got` answers the request sent in the same position. */
  predicate InOrder(got: seq<Packet>, sent: seq<Packet>) {
    |got| <= |sent| && forall k :: 0 <= k < |got| ==> Answers(got[k], sent[k])
  }

  lemma {:induction false} AnsweredInOrder(log: seq<Access>, write: bool)
    ensures |Answered(log, write)| == |Asked(log, write)| && InOrder(Answered(log, write), Asked(log, write))
  {
    if log != [] { AnsweredInOrder(log[..|log| - 1], write); }
  }

  lemma InOrderThrough(got: seq<Packet>, middle: seq<Packet>, sent: seq<Packet>)
    requires InOrder(got, middle) && InOrder(middle, sent)
    ensures InOrder(got, sent)
  {
    forall k | 0 <= k < |got| ensures Answers(got[k], sent[k]) {
      assert Answers(got[k], middle[k]) && Answers(middle[k], sent[k]);
    }
  }

  lemma InOrderPrefix(got: seq<Packet>, later: seq<Packet>, asked: seq<Packet>, rest: seq<Packet>)
    requires InOrder(got + later, asked)
    ensures InOrder(got, asked + rest)
  {
    forall k | 0 <= k < |got| ensures Answers(got[k], (asked + rest)[k]) {
      assert Answers((got + later)[k], asked[k]);
    }
  }

  /** Every endpoint of every run is answered in the order it asked, each response with the tag
      and both addresses of its own request. */
  lemma EndpointsInOrder(rows: seq<Row>)
    ensures var h := HistoryAfter(rows);
            InOrder(h.gotSeed, h.sentSeed) && InOrder(h.gotCopy, h.sentCopy) && InOrder(h.gotCheck, h.sentCheck)
  {
    hide InOrder, Asked, Answered, Replay, Faithful, OracleAfter, HistoryAfter;
    var h, o := HistoryAfter(rows), OracleAfter(rows);
    RunAccounts(rows);
    AnsweredInOrder(h.dramLog, true);
    AnsweredInOrder(h.dramLog, false);
    AnsweredInOrder(h.sramLog, true);
    AnsweredInOrder(h.sramLog, false);
    assert h.gotSeed + o.seedResponses + JobOf(o.dramJob, 2) == h.gotSeed + (o.seedResponses + JobOf(o.dramJob, 2));
    InOrderPrefix(h.gotSeed, o.seedResponses + JobOf(o.dramJob, 2), Asked(h.dramLog, true), o.seedRequests);
    assert h.gotCheck + o.checkResponses + JobOf(o.sramJob, 1) == h.gotCheck + (o.checkResponses + JobOf(o.sramJob, 1));
    InOrderPrefix(h.gotCheck, o.checkResponses + JobOf(o.sramJob, 1), Asked(h.sramLog, false), o.checkRequests);
    var carried := Asked(h.sramLog, true);
    assert h.gotCopy + o.copyResponses + JobOf(o.sramJob, 2) == h.gotCopy + (o.copyResponses + JobOf(o.sramJob, 2));
    InOrderPrefix(h.gotCopy, o.copyResponses + JobOf(o.sramJob, 2), carried, []);
    assert carried + [] == carried;
    assert carried + o.dramResponses + JobOf(o.dramJob, 1) == carried + (o.dramResponses + JobOf(o.dramJob, 1));
    InOrderPrefix(carried, o.dramResponses + JobOf(o.dramJob, 1), Asked(h.dramLog, false), o.copyRequests);
    InOrderThrough(h.gotCopy, carried, h.sentCopy);
  }
}
