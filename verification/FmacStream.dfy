/** Streams through the multiply-accumulate: its four registers against the driver's three
    optional results (examples/bf16_fmac/bf16_fmac.py, driver.cpp). */
module FmacStream {
  import opened FmacMultiplier
  import opened FmacPipeline

  datatype Row = Row(reset: bool, operands: Operands, valid: bool)

  datatype Pipe = Pipe(s1: Stage1, s2: Stage2, s3: Stage3, result: nat, valid: bool)

  const EMPTY := Pipe(Stage1(IDLE, Rows(0, 0, 0, 0)), Stage2(IDLE, 0), Stage3(0, 0, 0, false), 0, false)

  /** Every register takes what the old ones give; the result holds across bubbles. */
  function Next(p: Pipe, row: Row): Pipe {
    if row.reset then EMPTY
    else
      Pipe(First(row.operands, row.valid), Second(p.s1), Third(p.s2), if p.s3.valid then Packed(p.s3) else p.result,
        p.s3.valid)
  }

  class Fmac {
    var s1: Stage1
    var s2: Stage2
    var s3: Stage3
    var result: nat
    var valid: bool

    function State(): Pipe
      reads this
    {
      Pipe(s1, s2, s3, result, valid)
    }

    constructor ()
      ensures State() == EMPTY
      ensures s1 == Stage1(Metadata(0, 0, 0, 0, 0, false, false), Rows(0, 0, 0, 0))
      ensures s2 == Stage2(Metadata(0, 0, 0, 0, 0, false, false), 0) && s3 == Stage3(0, 0, 0, false)
      ensures result == 0 && !valid
    {
      s1, s2, s3, result, valid := EMPTY.s1, EMPTY.s2, EMPTY.s3, 0, false;
    }

    /** One rising edge. */
    method Advance(row: Row)
      modifies this
      ensures State() == Next(old(State()), row)
    {
      hide First, Second, Third, Packed;
      if row.reset {
        s1, s2, s3, result, valid := EMPTY.s1, EMPTY.s2, EMPTY.s3, 0, false;
      } else {
        var enable, packed := s3.valid, Packed(s3);
        s3 := Third(s2);
        s2 := Second(s1);
        s1 := First(row.operands, row.valid);
        if enable { result := packed; }
        valid := enable;
      }
    }
  }

  // ------------------------------------------------------------------ the driver's view

  datatype Slot = Bubble | Full(value: nat)

  datatype View = View(first: Slot, second: Slot, third: Slot, result: nat, valid: bool)

  function Observed(v: View, row: Row): View {
    if row.reset then View(Bubble, Bubble, Bubble, 0, false)
    else
      View(
        if row.valid then Full(Evaluate(row.operands)) else Bubble, v.first, v.second,
        if v.third.Full? then v.third.value else v.result, v.third.Full?)
  }

  function PipeAfter(rows: seq<Row>): Pipe {
    if rows == [] then EMPTY else Next(PipeAfter(rows[..|rows| - 1]), rows[|rows| - 1])
  }

  function ViewAfter(rows: seq<Row>): View {
    if rows == [] then View(Bubble, Bubble, Bubble, 0, false)
    else Observed(ViewAfter(rows[..|rows| - 1]), rows[|rows| - 1])
  }

  /** Each register, run through the stages still ahead of it, holds the result in its slot. */
  predicate Shows(p: Pipe, v: View) {
    && v.first == (if p.s1.metadata.valid then Full(Packed(Third(Second(p.s1)))) else Bubble)
    && v.second == (if p.s2.metadata.valid then Full(Packed(Third(p.s2))) else Bubble)
    && v.third == (if p.s3.valid then Full(Packed(p.s3)) else Bubble)
    && v.result == p.result && v.valid == p.valid
  }

  lemma ValidPasses(s: Stage1, t: Stage2, x: Operands, valid: bool)
    ensures Second(s).metadata.valid == s.metadata.valid && Third(t).valid == t.metadata.valid
    ensures First(x, valid).metadata.valid == valid
  {
    hide Added, Compressed, Align, RightBarrel26;
  }

  lemma EdgeShows(p: Pipe, v: View, row: Row)
    requires Shows(p, v)
    ensures Shows(Next(p, row), Observed(v, row))
  {
    hide First, Second, Third, Packed, Evaluate;
    ValidPasses(p.s1, p.s2, row.operands, row.valid);
    ResetShows();
    StagesEvaluate(row.operands, row.valid);
  }

  lemma ResetShows()
    ensures Shows(EMPTY, View(Bubble, Bubble, Bubble, 0, false))
  {
    hide Second, Third, Packed;
  }

  /** On every input stream the pipeline's outputs are the driver's. */
  lemma {:induction false} StreamShows(rows: seq<Row>)
    ensures Shows(PipeAfter(rows), ViewAfter(rows))
  {
    hide Next, Observed, Shows;
    if rows == [] {
      ResetShows();
    } else {
      StreamShows(rows[..|rows| - 1]);
      EdgeShows(PipeAfter(rows[..|rows| - 1]), ViewAfter(rows[..|rows| - 1]), rows[|rows| - 1]);
    }
  }

  lemma ViewNext(rows: seq<Row>, row: Row)
    ensures ViewAfter(rows + [row]) == Observed(ViewAfter(rows), row)
  {
    assert (rows + [row])[..|rows|] == rows;
  }

  /** Four edges after a valid input its value is at the output, whatever came before and whatever
      follows; four edges after a bubble the last result is still held. */
  lemma FourEdgesLater(rows: seq<Row>, r0: Row, r1: Row, r2: Row, r3: Row)
    requires !r0.reset && !r1.reset && !r2.reset && !r3.reset
    ensures var before, after := PipeAfter(rows + [r0] + [r1] + [r2]), PipeAfter(rows + [r0] + [r1] + [r2] + [r3]);
            && after.valid == r0.valid
            && after.result == if r0.valid then Evaluate(r0.operands) else before.result
  {
    hide PipeAfter, ViewAfter, Evaluate, First, Second, Third, Packed;
    StreamShows(rows + [r0] + [r1] + [r2]);
    StreamShows(rows + [r0] + [r1] + [r2] + [r3]);
    ViewNext(rows, r0);
    ViewNext(rows + [r0], r1);
    ViewNext(rows + [r0] + [r1], r2);
    ViewNext(rows + [r0] + [r1] + [r2], r3);
  }
}
