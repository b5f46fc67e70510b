/** The two memory controllers and the queues between them (examples/dma/dma.py). */
module DmaDesign {

  datatype Packet = Packet(dram: nat, sram: nat, data: nat, tag: nat)

  /** A 16-word memory addressed by the low four bits. */
  type Ram = words: seq<nat> | |words| == 16 witness [0, 0, 0, 0, 0, 0, 0, 0, 0, 0, 0, 0, 0, 0, 0, 0]

  const CLEAR: Ram := [0, 0, 0, 0, 0, 0, 0, 0, 0, 0, 0, 0, 0, 0, 0, 0]

  function Read(ram: Ram, address: nat): nat { ram[address % 16] }

  function Write(ram: Ram, address: nat, data: nat): Ram { ram[address % 16 := data] }

  /** A write is read back at its own word, modulo 16, and nowhere else. */
  lemma ReadsBack(ram: Ram, a: nat, data: nat, b: nat)
    ensures Read(Write(ram, a, data), b) == if a % 16 == b % 16 then data else Read(ram, b)
  {
  }

  /** A controller and the memory it owns.  `result` is the read register of the memory: the word
      an access found, before that access's own write. */
  datatype Controller = Controller(
    busy: bool, captureOld: bool, remaining: nat, reader: bool, request: Packet, ram: Ram, result: nat)

  const BLANK := Packet(0, 0, 0, 0)

  function Idle(ram: Ram, result: nat): Controller { Controller(false, false, 0, false, BLANK, ram, result) }

  datatype Design = Design(
    seedRequests: seq<Packet>, copyRequests: seq<Packet>, checkRequests: seq<Packet>,
    dram: Controller, seedResponses: seq<Packet>,
    sram: Controller, copyQueue: seq<Packet>, checkResponses: seq<Packet>, copyResponses: seq<Packet>)

  const POWER_ON := Design([], [], [], Idle(CLEAR, 0), [], Idle(CLEAR, 0), [], [], [])

  datatype Offer = NoOffer | Offer(packet: Packet)

  /** What is on the input pins at a rising edge. */
  datatype Row = Row(
    reset: bool, seed: Offer, copy: Offer, check: Offer, takeSeed: bool, takeCopy: bool, takeCheck: bool)

  // --------------------------------------------------------------- queues

  predicate Room(q: seq<Packet>, depth: nat) { |q| < depth }

  /** One edge of a queue whose ready looks at its own occupancy alone: a pop where there is
      something to pop, and a push the caller has seen room for. */
  function Popped(q: seq<Packet>, pop: bool): seq<Packet> { if pop && q != [] then q[1..] else q }

  function Pushed(q: seq<Packet>, push: bool, p: Packet): seq<Packet> { if push then q + [p] else q }

  function Offered(q: seq<Packet>, depth: nat, o: Offer): seq<Packet> {
    if o.Offer? && Room(q, depth) then [o.packet] else []
  }

  // ------------------------------------------------------------ one controller

  predicate Eligible(c: Controller) { c.busy && c.remaining == 1 }

  /** The public response already shows the word read while it is still in the read register. */
  function ResponseOf(c: Controller): Packet {
    if c.captureOld then c.request.(data := c.result) else c.request
  }

  /** Accept, wait, or finish: the three rules of a controller exclude each other. */
  function Advanced(c: Controller): Controller {
    c.(request := ResponseOf(c), captureOld := false, remaining := c.remaining - if c.remaining > 0 then 1 else 0)
  }

  function Accepted(c: Controller, p: Packet, reader: bool, address: nat, latency: nat): Controller {
    Controller(
      true, true, latency, reader, p, if reader then c.ram else Write(c.ram, address, p.data), Read(c.ram, address))
  }

  // --------------------------------------------------------------- the outputs

  /** `accepted` and `enqueued` name the endpoint of each controller: 1 its reader, 2 its writer. */
  datatype Outputs = Outputs(
    seedReady: bool, copyReady: bool, checkReady: bool, seed: Offer, copy: Offer, check: Offer,
    dramAccepted: nat, dramEnqueued: nat, sramAccepted: nat, sramEnqueued: nat)

  function Front(q: seq<Packet>): Offer { if q == [] then NoOffer else Offer(q[0]) }

  function DramAccepted(d: Design): nat {
    if d.dram.busy then 0 else if d.copyRequests != [] then 1 else if d.seedRequests != [] then 2 else 0
  }

  function SramAccepted(d: Design): nat {
    if d.sram.busy then 0 else if d.checkRequests != [] then 1 else if d.copyQueue != [] then 2 else 0
  }

  /** A finished read leaves the DRAM only together with its push into the SRAM's queue. */
  function DramEnqueued(d: Design): nat {
    if !Eligible(d.dram) then 0
    else if d.dram.reader then (if Room(d.copyQueue, 2) then 1 else 0)
    else if Room(d.seedResponses, 2) then 2 else 0
  }

  function SramEnqueued(d: Design): nat {
    if !Eligible(d.sram) then 0
    else if d.sram.reader then (if Room(d.checkResponses, 2) then 1 else 0)
    else if Room(d.copyResponses, 2) then 2 else 0
  }

  function OutputsOf(d: Design): Outputs {
    Outputs(
      Room(d.seedRequests, 2), Room(d.copyRequests, 4), Room(d.checkRequests, 2),
      Front(d.seedResponses), Front(d.copyResponses), Front(d.checkResponses),
      DramAccepted(d), DramEnqueued(d), SramAccepted(d), SramEnqueued(d))
  }

  // ------------------------------------------------------------- one rising edge

  function NextDram(d: Design): Controller {
    var accepted := DramAccepted(d);
    if accepted == 1 then Accepted(d.dram, d.copyRequests[0], true, d.copyRequests[0].dram, 3)
    else if accepted == 2 then Accepted(d.dram, d.seedRequests[0], false, d.seedRequests[0].dram, 3)
    else if d.dram.busy && d.dram.remaining > 1 then Advanced(d.dram)
    else if DramEnqueued(d) != 0 then d.dram.(busy := false)
    else d.dram
  }

  function NextSram(d: Design): Controller {
    var accepted := SramAccepted(d);
    if accepted == 1 then Accepted(d.sram, d.checkRequests[0], true, d.checkRequests[0].sram, 2)
    else if accepted == 2 then Accepted(d.sram, d.copyQueue[0], false, d.copyQueue[0].sram, 2)
    else if d.sram.busy && d.sram.remaining > 1 then Advanced(d.sram)
    else if SramEnqueued(d) != 0 then d.sram.(busy := false)
    else d.sram
  }

  function Next(d: Design, row: Row): Design {
    if row.reset then
      Design([], [], [], Idle(d.dram.ram, d.dram.result), [], Idle(d.sram.ram, d.sram.result), [], [], [])
    else
      Design(
        Popped(d.seedRequests, DramAccepted(d) == 2) + Offered(d.seedRequests, 2, row.seed),
        Popped(d.copyRequests, DramAccepted(d) == 1) + Offered(d.copyRequests, 4, row.copy),
        Popped(d.checkRequests, SramAccepted(d) == 1) + Offered(d.checkRequests, 2, row.check),
        NextDram(d),
        Pushed(Popped(d.seedResponses, row.takeSeed), DramEnqueued(d) == 2, ResponseOf(d.dram)),
        NextSram(d),
        Pushed(Popped(d.copyQueue, SramAccepted(d) == 2), DramEnqueued(d) == 1, ResponseOf(d.dram)),
        Pushed(Popped(d.checkResponses, row.takeCheck), SramEnqueued(d) == 1, d.sram.request),
        Pushed(Popped(d.copyResponses, row.takeCopy), SramEnqueued(d) == 2, d.sram.request))
  }

  // --------------------------------------------------------------- the module

  class MemoryController {
    var busy: bool
    var captureOld: bool
    var remaining: nat
    var reader: bool
    var request: Packet
    var ram: Ram
    var result: nat

    function State(): Controller
      reads this
    {
      Controller(busy, captureOld, remaining, reader, request, ram, result)
    }

    constructor ()
      ensures State() == Idle(CLEAR, 0)
    {
      busy, captureOld, remaining, reader, request, ram, result := false, false, 0, false, BLANK, CLEAR, 0;
    }

    method Reset()
      modifies this
      ensures State() == Idle(old(ram), old(result))
    {
      busy, captureOld, remaining, reader, request := false, false, 0, false, BLANK;
    }

    method AdvanceLatency()
      requires busy && remaining > 1
      modifies this
      ensures State() == Advanced(old(State()))
    {
      if captureOld {
        request := request.(data := result);
        captureOld := false;
      }
      remaining := remaining - 1;
    }

    method Release()
      requires Eligible(State())
      modifies this`busy
      ensures State() == old(State()).(busy := false)
    {
      busy := false;
    }

    method Accept(p: Packet, asReader: bool, address: nat, latency: nat)
      requires !busy
      modifies this
      ensures State() == Accepted(old(State()), p, asReader, address, latency)
    {
      result := ram[address % 16];
      if !asReader { ram := ram[address % 16 := p.data]; }
      request, reader, busy, captureOld, remaining := p, asReader, true, true, latency;
    }
  }

  class Dma {
    var seedRequests: seq<Packet>
    var copyRequests: seq<Packet>
    var checkRequests: seq<Packet>
    var seedResponses: seq<Packet>
    var copyQueue: seq<Packet>
    var checkResponses: seq<Packet>
    var copyResponses: seq<Packet>
    const dram: MemoryController
    const sram: MemoryController

    function State(): Design
      reads this, dram, sram
    {
      Design(
        seedRequests, copyRequests, checkRequests, dram.State(), seedResponses, sram.State(), copyQueue, checkResponses,
        copyResponses)
    }

    constructor ()
      ensures State() == POWER_ON && fresh(dram) && fresh(sram) && dram != sram
    {
      seedRequests, copyRequests, checkRequests := [], [], [];
      seedResponses, copyQueue, checkResponses, copyResponses := [], [], [], [];
      dram := new MemoryController();
      sram := new MemoryController();
    }

    method Clear()
      requires dram != sram
      modifies this, dram, sram
      ensures State() == Next(old(State()), Row(true, NoOffer, NoOffer, NoOffer, false, false, false))
    {
      seedRequests, copyRequests, checkRequests := [], [], [];
      seedResponses, copyQueue, checkResponses, copyResponses := [], [], [], [];
      dram.Reset();
      sram.Reset();
    }

    /** The rules of the DRAM: which request it takes, where a finished one goes. */
    method ServeDram() returns (accepted: nat, finished: nat, response: Packet)
      requires dram != sram
      modifies dram
      ensures accepted == DramAccepted(old(State())) && finished == DramEnqueued(old(State()))
      ensures response == ResponseOf(old(dram.State())) && dram.State() == NextDram(old(State()))
    {
      accepted, finished := 0, 0;
      response := dram.request;
      if dram.captureOld { response := response.(data := dram.result); }
      if !dram.busy {
        if copyRequests != [] {
          accepted := 1;
          dram.Accept(copyRequests[0], true, copyRequests[0].dram, 3);
        } else if seedRequests != [] {
          accepted := 2;
          dram.Accept(seedRequests[0], false, seedRequests[0].dram, 3);
        }
      } else if dram.remaining > 1 {
        dram.AdvanceLatency();
      } else if dram.remaining == 1 {
        if dram.reader && |copyQueue| < 2 {
          finished := 1;
          dram.Release();
        } else if !dram.reader && |seedResponses| < 2 {
          finished := 2;
          dram.Release();
        }
      }
    }

    method ServeSram() returns (accepted: nat, finished: nat, response: Packet)
      requires dram != sram
      modifies sram
      ensures accepted == SramAccepted(old(State())) && finished == SramEnqueued(old(State()))
      ensures response == old(sram.request) && sram.State() == NextSram(old(State()))
    {
      accepted, finished, response := 0, 0, sram.request;
      if !sram.busy {
        if checkRequests != [] {
          accepted := 1;
          sram.Accept(checkRequests[0], true, checkRequests[0].sram, 2);
        } else if copyQueue != [] {
          accepted := 2;
          sram.Accept(copyQueue[0], false, copyQueue[0].sram, 2);
        }
      } else if sram.remaining > 1 {
        sram.AdvanceLatency();
      } else if sram.remaining == 1 {
        if sram.reader && |checkResponses| < 2 {
          finished := 1;
          sram.Release();
        } else if !sram.reader && |copyResponses| < 2 {
          finished := 2;
          sram.Release();
        }
      }
    }

    /** The request queues: pops by the controllers, pushes where there was room before. */
    method MoveRequests(row: Row, dramAccepted: nat, sramAccepted: nat)
      modifies this`seedRequests, this`copyRequests, this`checkRequests
      ensures seedRequests == old(Popped(seedRequests, dramAccepted == 2) + Offered(seedRequests, 2, row.seed))
      ensures copyRequests == old(Popped(copyRequests, dramAccepted == 1) + Offered(copyRequests, 4, row.copy))
      ensures checkRequests == old(Popped(checkRequests, sramAccepted == 1) + Offered(checkRequests, 2, row.check))
    {
      var seed, copy, check :=
        Offered(seedRequests, 2, row.seed), Offered(copyRequests, 4, row.copy), Offered(checkRequests, 2, row.check);
      if dramAccepted == 2 && seedRequests != [] { seedRequests := seedRequests[1..]; }
      if dramAccepted == 1 && copyRequests != [] { copyRequests := copyRequests[1..]; }
      if sramAccepted == 1 && checkRequests != [] { checkRequests := checkRequests[1..]; }
      seedRequests, copyRequests, checkRequests := seedRequests + seed, copyRequests + copy, checkRequests + check;
    }

    method MoveResponses(row: Row, sramAccepted: nat, dramFinished: nat, dramResponse: Packet, sramFinished: nat,
                         sramResponse: Packet)
      modifies this`seedResponses, this`copyQueue, this`checkResponses, this`copyResponses
      ensures seedResponses == old(Pushed(Popped(seedResponses, row.takeSeed), dramFinished == 2, dramResponse))
      ensures copyQueue == old(Pushed(Popped(copyQueue, sramAccepted == 2), dramFinished == 1, dramResponse))
      ensures checkResponses == old(Pushed(Popped(checkResponses, row.takeCheck), sramFinished == 1, sramResponse))
      ensures copyResponses == old(Pushed(Popped(copyResponses, row.takeCopy), sramFinished == 2, sramResponse))
    {
      seedResponses := QueueEdge(seedResponses, row.takeSeed, dramFinished == 2, dramResponse);
      copyQueue := QueueEdge(copyQueue, sramAccepted == 2, dramFinished == 1, dramResponse);
      checkResponses := QueueEdge(checkResponses, row.takeCheck, sramFinished == 1, sramResponse);
      copyResponses := QueueEdge(copyResponses, row.takeCopy, sramFinished == 2, sramResponse);
    }

    static method QueueEdge(q: seq<Packet>, pop: bool, push: bool, p: Packet) returns (r: seq<Packet>)
      ensures r == Pushed(Popped(q, pop), push, p)
    {
      r := q;
      if pop && r != [] { r := r[1..]; }
      if push { r := r + [p]; }
    }

    /** One rising edge: every rule reads the state before it. */
    method Edge(row: Row)
      requires dram != sram
      modifies this, dram, sram
      ensures State() == Next(old(State()), row)
    {
      if row.reset {
        Clear();
      } else {
        ghost var before := State();
        var dramAccepted, dramFinished, dramResponse := ServeDram();
        assert State() == before.(dram := NextDram(before));
        var sramAccepted, sramFinished, sramResponse := ServeSram();
        SramIgnoresDram(before, NextDram(before));
        hide NextDram, NextSram, DramAccepted, DramEnqueued, SramAccepted, SramEnqueued, Popped, Pushed, Offered,
          ResponseOf;
        MoveRequests(row, dramAccepted, sramAccepted);
        MoveResponses(row, sramAccepted, dramFinished, dramResponse, sramFinished, sramResponse);
      }
    }
  }

  lemma SramIgnoresDram(d: Design, c: Controller)
    ensures var e := d.(dram := c);
            SramAccepted(e) == SramAccepted(d) && SramEnqueued(e) == SramEnqueued(d) && NextSram(e) == NextSram(d)
  {
  }
}
