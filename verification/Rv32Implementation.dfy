/** Instruction by instruction, the core's decoder and datapath have the effect the
    instruction set prescribes; hence so does every run of the pipeline. */
module Rv32Implementation {
  import opened Bits
  import opened Rv32Types
  import opened Rv32Decoder
  import opened Rv32Arithmetic
  import opened Rv32Core
  import opened Rv32Machine
  import opened Rv32Refinement
  import opened Rv32Progress
  import opened Rv32Isa
  import opened Rv32Reference
  import opened Rv32Conformance

  // --------------------------------------------- packets seen as instruction outcomes

  function AccessOf(x: Packet): Access {
    if x.store then Write(x.address, WidthOfSize(x.size), x.storeData % RawRange(x.size))
    else if x.load then Read(x.address, WidthOfSize(x.size), x.loadData)
    else NoAccess
  }

  /** The outcome a completed packet stands for. */
  function OutcomeOf(p: Platform, x: Packet): Outcome {
    if x.trap then Trap(x.cause, x.tval)
    else if StoreRefused(p, x) then Trap(7, x.address)
    else
      var rd := if x.writes then x.rd else 0;
      Done(x.nextPc, rd, if rd == 0 then 0 else x.result, AccessOf(x))
  }

  /** What the sequential machine keeps about the packets it retires. */
  predicate WellFormed(x: Packet, a: Arch) {
    && x.pc == a.pc
    && !(x.load && x.store)
    && (x.store ==> !x.writes)
    && ((x.load || x.store) && !x.trap ==> x.size < 3 && !Misaligned(x.address, WidthOfSize(x.size)))
  }

  lemma OutcomeIsReported(p: Platform, a: Arch, x: Packet)
    requires WellFormed(x, a)
    ensures RecordOf(p, a.order, x) == Reports(a, x.instruction, OutcomeOf(p, x))
  {
    hide RawRange, WordAddress;
    if (x.load || x.store) && !x.trap { MaskIs(x.address, x.size); }
    hide ByteMask, LaneMask;
  }

  lemma OutcomeIsLeft(p: Platform, a: Arch, x: Packet)
    requires WellFormed(x, a)
    ensures Retired(p, a, x) == Leaves(a, OutcomeOf(p, x))
  {
    hide WordAddress, FollowingOrder, Merge, ReadWord, StoreLanes, ByteMask, LaneMask, LanePower;
    if x.store && !x.trap {
      var word := ReadWord(a.memory, WordAddress(x.address));
      MaskIs(x.address, x.size);
      StoreLanesAgree(word, x.storeData, x.address, x.size);
      assert RawRange(x.size) == WidthRange(WidthOfSize(x.size));
    }
  }

  // ------------------------------------------------------- one opcode after another

  /** A fetched word through decoder, register read and datapath. */
  function Datapath(a: Arch, w: Word): Packet {
    Arithmetic(Decode(w), a.pc, w, ReadRegister(a.registers, Rs1(w)), ReadRegister(a.registers, Rs2(w)))
  }

  /** The core's treatment of `w` has the effect the instruction set gives it. */
  predicate Conforms(p: Platform, a: Arch, w: Word) {
    var x := Completed(p, a.memory, Datapath(a, w));
    WellFormed(x, a) && OutcomeOf(p, x) == Performs(p, a, w)
  }

  lemma CutIs(w: Word)
    ensures Cut(w) == Fields(Opcode(w), Rd(w), Funct3(w), Rs1(w), Rs2(w), Funct7(w))
  {
  }

  lemma AddWraps(a: Word, offset: int)
    ensures Add(a, ToWord(offset)) == ToWord(a + offset)
  {
    DivideUnique((a + ToWord(offset)) % TWO_32, (a + ToWord(offset)) / TWO_32 + offset / TWO_32, TWO_32);
  }

  lemma FollowingIs(pc: Word)
    ensures FollowingPc(pc) == ToWord(pc + 4)
  {
  }

  lemma UpperConforms(p: Platform, a: Arch, w: Word)
    requires Opcode(w) == 55 || Opcode(w) == 23
    ensures Conforms(p, a, w)
  {
    hide Cut, Rd, Rs1, Rs2, Funct3, Funct7, Upper, ImmediateU, ToWord, FollowingPc, Add, ReadRegister;
    CutIs(w);
    hide Opcode;
    UpperIs(w);
    ImmediateUIs(w);
    AddWraps(a.pc, 0x1000 * Upper(Cut(w)));
    FollowingIs(a.pc);
  }

  lemma JumpConforms(p: Platform, a: Arch, w: Word)
    requires Opcode(w) == 111
    ensures Conforms(p, a, w)
  {
    hide Cut, Rd, Rs1, Rs2, Funct3, Funct7, OffsetJ, ImmediateJ, ToWord, FollowingPc, Add, ReadRegister;
    CutIs(w);
    hide Opcode;
    ImmediateJIs(w);
    AddWraps(a.pc, OffsetJ(Cut(w)));
    FollowingIs(a.pc);
  }

  /** A word no opcode claims traps as illegal. */
  lemma UnclaimedConforms(p: Platform, a: Arch, w: Word)
    requires Decode(w) == Unclaimed(w) && Meaning(Cut(w)).None?
    ensures Conforms(p, a, w)
  {
    hide Decode, Meaning, Cut, Rd, Rs1, Rs2, Add, ReadRegister, FollowingPc, Alu;
  }

  lemma ClearBit0Is(a: Word)
    ensures ClearBit0(a) == a - a % 2
  {
  }

  lemma IndirectConforms(p: Platform, a: Arch, w: Word)
    requires Opcode(w) == 103
    ensures Conforms(p, a, w)
  {
    hide Cut, Rd, Rs1, Rs2, Funct3, Funct7, OffsetI, ImmediateI, ToWord, FollowingPc, Add, ReadRegister, ClearBit0;
    CutIs(w);
    hide Opcode;
    if Funct3(w) != 0 {
      UnclaimedConforms(p, a, w);
    } else {
      ImmediateIIs(w);
      var target := ToWord(ReadRegister(a.registers, Rs1(w)) + OffsetI(Cut(w)));
      AddWraps(ReadRegister(a.registers, Rs1(w)), OffsetI(Cut(w)));
      FollowingIs(a.pc);
      ClearBit0Is(target);
    }
  }

  lemma BranchConforms(p: Platform, a: Arch, w: Word)
    requires Opcode(w) == 99
    ensures Conforms(p, a, w)
  {
    hide Cut, Rd, Rs1, Rs2, Funct3, Funct7, OffsetB, ImmediateB, ToWord, FollowingPc, Add, ReadRegister, SignedLess,
      ToSigned;
    CutIs(w);
    hide Opcode;
    ImmediateBIs(w);
    AddWraps(a.pc, OffsetB(Cut(w)));
    FollowingIs(a.pc);
    SignedLessIs(ReadRegister(a.registers, Rs1(w)), ReadRegister(a.registers, Rs2(w)));
  }

  lemma LoadConforms(p: Platform, a: Arch, w: Word)
    requires Opcode(w) == 3
    ensures Conforms(p, a, w)
  {
    hide Cut, Rd, Rs1, Rs2, Funct7, OffsetI, ImmediateI, ToWord, FollowingPc, Add, ReadRegister, ReadWord, WordAddress,
      ByteMask, LaneMask, ReadLoad, RawLoad, BytesAt, Extended, Alu;
    CutIs(w);
    hide Opcode, Funct3;
    if Funct3(w) == 3 || Funct3(w) > 5 {
      UnclaimedConforms(p, a, w);
    } else {
      ImmediateIIs(w);
      var address, size := ToWord(ReadRegister(a.registers, Rs1(w)) + OffsetI(Cut(w))), Funct3(w) % 4;
      AddWraps(ReadRegister(a.registers, Rs1(w)), OffsetI(Cut(w)));
      FollowingIs(a.pc);
      if !Misaligned(address, WidthOfSize(size)) {
        MaskIs(address, size);
        RawLoadIs(a.memory, address, size);
        ReadLoadIs(ReadWord(a.memory, WordAddress(address)), address, size, Funct3(w) < 4);
      }
    }
  }

  lemma StoreConforms(p: Platform, a: Arch, w: Word)
    requires Opcode(w) == 35
    ensures Conforms(p, a, w)
  {
    hide Cut, Rd, Rs1, Rs2, Funct7, OffsetS, ImmediateS, ToWord, FollowingPc, Add, ReadRegister, WordAddress, ByteMask,
      LaneMask, Alu;
    CutIs(w);
    hide Opcode, Funct3;
    if Funct3(w) > 2 {
      UnclaimedConforms(p, a, w);
    } else {
      ImmediateSIs(w);
      var address, size := ToWord(ReadRegister(a.registers, Rs1(w)) + OffsetS(Cut(w))), Funct3(w) % 4;
      AddWraps(ReadRegister(a.registers, Rs1(w)), OffsetS(Cut(w)));
      FollowingIs(a.pc);
      if !Misaligned(address, WidthOfSize(size)) { MaskIs(address, size); }
    }
  }

  function OperationOf(op: AluOp): nat {
    match op
    case ADD => 0
    case SUB => 1
    case SLL => 2
    case SLT => 3
    case SLTU => 4
    case XOR => 5
    case SRL => 6
    case SRA => 7
    case OR => 8
    case AND => 9
  }

  lemma AluIs(op: AluOp, c: Decoded, pc: Word, first: Word, second: Word)
    requires c.operation == OperationOf(op)
    ensures Alu(c, pc, first, second) == AluResult(op, first, if c.immediateRhs then c.immediate else second)
  {
    hide BitAnd, BitOr, BitXor, Common, Pow2, Quotient, SignedLess, ToSigned, ShiftRightArithmetic;
    var rhs := if c.immediateRhs then c.immediate else second;
    SignedLessIs(first, rhs);
    LogicalIs(first, rhs);
    ArithmeticShiftIs(first, rhs % 32);
  }

  lemma ShiftReadsLowBits(op: AluOp, a: Word, b: Word, b': Word)
    requires Shift(op) && b % 32 == b' % 32
    ensures AluResult(op, a, b) == AluResult(op, a, b')
  {
    hide Pow2, ToSigned, ToWord;
  }

  lemma ShiftAmountIs(w: Word)
    ensures ImmediateI(w) % 32 == Rs2(w) && ToWord(Rs2(w)) % 32 == Rs2(w)
  {
    hide ImmediateI, OffsetI;
    ImmediateIIs(w);
    var f := Cut(w);
    LowBitsOfOffset(f);
    SplitResidue(OffsetI(f), 32, 0x800_0000);
  }

  lemma LowBitsOfOffset(f: Fields)
    requires InRange(f)
    ensures OffsetI(f) % 32 == f.rs2
  {
    TwelveBitsBack(f.funct7, f.rs2);
  }

  lemma ImmediateAluConforms(p: Platform, a: Arch, w: Word)
    requires Opcode(w) == 19
    ensures Conforms(p, a, w)
  {
    hide Cut, Rd, Rs1, Rs2, Funct7, OffsetI, ImmediateI, ToWord, FollowingPc, Add, ReadRegister, Alu, AluResult;
    CutIs(w);
    hide Opcode, Funct3;
    ImmediateIIs(w);
    FollowingIs(a.pc);
    var first, second, c := ReadRegister(a.registers, Rs1(w)), ReadRegister(a.registers, Rs2(w)), Decode(w);
    var op := AluOf(Funct3(w), Funct3(w) == 5 && Funct7(w) == 32);
    AluFieldsAgree(false, Funct3(w), Funct7(w));
    hide AluOperation, AluOf;
    if Meaning(Cut(w)).Some? {
      AluIs(op, c, a.pc, first, second);
      if Shift(op) {
        ShiftAmountIs(w);
        ShiftReadsLowBits(op, first, ImmediateI(w), ToWord(Rs2(w)));
      }
    }
  }

  /** The decoder's operation and legality are the instruction set's. */
  lemma AluFieldsAgree(registerForm: bool, funct3: nat, funct7: nat)
    requires funct3 < 8
    ensures var (operation, legal) := AluOperation(registerForm, funct3, funct7);
            var op := AluOf(funct3, (registerForm || funct3 == 5) && funct7 == 32);
            && (legal <==> (!registerForm && !Shift(op)) || funct7 == AluFunct7(op))
            && (legal ==> operation == OperationOf(op))
  {
  }

  lemma RegisterAluConforms(p: Platform, a: Arch, w: Word)
    requires Opcode(w) == 51
    ensures Conforms(p, a, w)
  {
    hide Cut, Rd, Rs1, Rs2, Funct7, ImmediateI, ToWord, FollowingPc, Add, ReadRegister, Alu, AluResult;
    CutIs(w);
    hide Opcode, Funct3;
    FollowingIs(a.pc);
    var first, second, c := ReadRegister(a.registers, Rs1(w)), ReadRegister(a.registers, Rs2(w)), Decode(w);
    var op := AluOf(Funct3(w), Funct7(w) == 32);
    AluFieldsAgree(true, Funct3(w), Funct7(w));
    hide AluOperation, AluOf;
    if Meaning(Cut(w)).Some? { AluIs(op, c, a.pc, first, second); }
  }

  lemma SystemConforms(p: Platform, a: Arch, w: Word)
    requires Opcode(w) == 115 || Opcode(w) == 15
    ensures Conforms(p, a, w)
  {
    hide Cut, Rd, Rs1, Rs2, Funct7, ToWord, FollowingPc, Add, ReadRegister, Alu, Assemble;
    CutIs(w);
    hide Opcode, Funct3;
    FollowingIs(a.pc);
    AssembleCut(w);
    assert Assemble(Fields(115, 0, 0, 0, 0, 0)) == 0x73 && Assemble(Fields(115, 0, 0, 0, 1, 0)) == 0x10_0073 by {
      AssembleSystem();
    }
    CutAssemble(Fields(115, 0, 0, 0, 0, 0));
    CutAssemble(Fields(115, 0, 0, 0, 1, 0));
  }

  lemma AssembleSystem()
    ensures Assemble(Fields(115, 0, 0, 0, 0, 0)) == 0x73
    ensures Assemble(Fields(115, 0, 0, 0, 1, 0)) == 0x10_0073
  {
  }

  /** Every 32-bit word, legal or not, has the effect the instruction set gives it. */
  lemma EveryWordConforms(p: Platform, a: Arch, w: Word)
    ensures Conforms(p, a, w)
  {
    hide Conforms, Cut, Rd, Rs1, Rs2, Funct3, Funct7, AluOperation, AluOf;
    CutIs(w);
    hide Opcode;
    match Opcode(w) {
      case 55 => UpperConforms(p, a, w);
      case 23 => UpperConforms(p, a, w);
      case 111 => JumpConforms(p, a, w);
      case 103 => IndirectConforms(p, a, w);
      case 99 => BranchConforms(p, a, w);
      case 3 => LoadConforms(p, a, w);
      case 35 => StoreConforms(p, a, w);
      case 19 => ImmediateAluConforms(p, a, w);
      case 51 => RegisterAluConforms(p, a, w);
      case 15 => SystemConforms(p, a, w);
      case 115 => SystemConforms(p, a, w);
      case _ => UnclaimedConforms(p, a, w);
    }
  }

  // ---------------------------------------------------------- fetches that fault

  /** The word returned beside a fetch fault decodes to an instruction that traps in the
      datapath, and that trap replaces the access fault. */
  predicate Overridden(p: Platform, a: Arch) {
    var reply := p.instruction(a.pc);
    var c := Decode(reply.data);
    var first, second := ReadRegister(a.registers, c.rs1), ReadRegister(a.registers, c.rs2);
    reply.fault && (MisalignedTarget(c, a.pc, first, second) || MisalignedAccess(c, first))
  }

  /** A faulting fetch halts the machine.  It is reported as an instruction access fault exactly
      when the returned word does not trap for alignment by itself, and otherwise under the cause
      and value of that alignment trap. */
  lemma FaultingFetch(p: Platform, a: Arch)
    requires p.instruction(a.pc).fault
    ensures var x, c := Final(p, a), Decode(p.instruction(a.pc).data);
            var first, second := ReadRegister(a.registers, c.rs1), ReadRegister(a.registers, c.rs2);
            && WellFormed(x, a) && x.trap
            && (OutcomeOf(p, x) == Trap(1, a.pc) <==> !Overridden(p, a))
            && OutcomeOf(p, x) == (
                 if MisalignedAccess(c, first) then Trap(if c.store then 6 else 4, Add(first, c.immediate))
                 else if MisalignedTarget(c, a.pc, first, second) then Trap(0, Target(c, a.pc, first))
                 else Trap(1, a.pc))
  {
    hide Decode, Alu, Add, ReadRegister, ClearBit0, SignedLess, NextPc;
    var reply := p.instruction(a.pc);
    Rv32Operands.DecoderAnnounces(reply.data, true, a.pc);
  }

  /** The word of `jal x0, 2`. */
  const SHORT_JUMP: Word := 0x0020_006F

  lemma ShortJump()
    ensures var c := Decode(SHORT_JUMP); c.jump == 1 && c.immediate == 2 && !c.load && !c.store
  {
    assert Opcode(SHORT_JUMP) == 111 && ImmediateJ(SHORT_JUMP) == 2;
  }

  /** A fetch fault beside that word is reported as a misaligned target, cause 0, by the sequential
      machine and by the pipeline five cycles after reset. */
  lemma OverriddenFetch(a: Arch)
    requires a.pc == RESET_PC
    ensures var p := Platform(_ => Reply(SHORT_JUMP, true), (_, _, _) => false);
            Overridden(p, a) && OutcomeOf(p, Final(p, a)) == Trap(0, RESET_PC + 2)
    ensures var records := Retirements(INITIAL_MACHINE, [Answered(SHORT_JUMP, true)] + FOUR_QUIET);
            |records| == 1 && records[0].pc == RESET_PC && records[0].trap && records[0].cause == 0
  {
    hide Decode, Alu, ReadRegister, Final, Retirements, OutcomeOf;
    ShortJump();
    FaultingFetch(Platform(_ => Reply(SHORT_JUMP, true), (_, _, _) => false), a);
    assert TrapsAtReset(SHORT_JUMP, true, 0);
    FiveCyclesTrap(SHORT_JUMP, true, 0);
  }

  lemma FinalInstruction(p: Platform, a: Arch)
    ensures Final(p, a).instruction == p.instruction(a.pc).data
    ensures !p.instruction(a.pc).fault ==> Executed(p, a) == Datapath(a, p.instruction(a.pc).data)
  {
    hide Alu, Add, ReadRegister, NextPc, Traps, TrapCause, TrapValue, ReadLoad, RawLoad, Redirects, Rs1, Rs2, Opcode,
      Funct3, Funct7, Rd, ImmediateI, ImmediateS, ImmediateB, ImmediateJ, ImmediateU, AluOperation;
  }

  /** One instruction of the core's sequential machine is one instruction of the reference; the
      records agree too, unless a faulting fetch is overridden. */
  lemma StepConforms(p: Platform, a: Arch)
    requires !a.halted
    ensures Step(p, a) == IsaStep(p, a)
    ensures Event(p, a) == IsaEvent(p, a) <==> !Overridden(p, a)
  {
    hide Retired, RecordOf, Decode, Arithmetic, MisalignedTarget, MisalignedAccess, MemoryWith, Performs, StoreRefused,
      AccessOf, Executed, Datapath, LaneMask;
    var x, w := Final(p, a), p.instruction(a.pc).data;
    FinalInstruction(p, a);
    if p.instruction(a.pc).fault {
      FaultingFetch(p, a);
    } else {
      EveryWordConforms(p, a, w);
    }
    OutcomeIsReported(p, a, x);
    OutcomeIsLeft(p, a, x);
  }

  // ------------------------------------------------------------------ whole runs

  /** None of the next `n` instructions is a fetch fault hidden by the returned word. */
  predicate FaultsReported(p: Platform, a: Arch, n: nat)
    decreases n
  {
    n == 0 || a.halted || (!Overridden(p, a) && FaultsReported(p, IsaStep(p, a), n - 1))
  }

  lemma {:induction false} RunConforms(p: Platform, a: Arch, n: nat)
    ensures StateAfter(p, a, n) == IsaStateAfter(p, a, n)
    ensures Trace(p, a, n) == IsaTrace(p, a, n) <==> FaultsReported(p, a, n)
    decreases n
  {
    hide Step, Event, IsaEvent, Overridden, FetchesAndPerforms, Leaves;
    if n > 0 {
      if a.halted {
        assert Step(p, a) == a by { HaltedStays(p, a); }
        RunConforms(p, a, n - 1);
      } else {
        StepConforms(p, a);
        RunConforms(p, Step(p, a), n - 1);
        var here := [Event(p, a)] + Trace(p, Step(p, a), n - 1);
        var there := [IsaEvent(p, a)] + IsaTrace(p, Step(p, a), n - 1);
        assert here[0] == Event(p, a) && here[1..] == Trace(p, Step(p, a), n - 1);
        assert there[0] == IsaEvent(p, a) && there[1..] == IsaTrace(p, Step(p, a), n - 1);
      }
    }
  }

  lemma HaltedStays(p: Platform, a: Arch)
    requires a.halted
    ensures Step(p, a) == a && IsaStep(p, a) == a
  {
  }

  /** From reset, for every program, data memory and pattern of bus waits and faults, the core's
      registers, program counter, data memory, order number and halt flag are those of the RV32I
      reference machine after as many instructions as the core has retired; and the retirement
      records are the reference's, exactly when no fetch fault came with a word that traps for
      alignment by itself. */
  lemma PipelineImplementsIsa(p: Platform, memory: DataMemory, buses: seq<BusInputs>)
    requires Admissible(p, INITIAL_MACHINE, memory, buses)
    ensures var records, a := Retirements(INITIAL_MACHINE, buses), ResetState(memory);
            && Committed(StateOf(INITIAL_MACHINE, buses), MemoryOf(INITIAL_MACHINE, memory, buses))
               == IsaStateAfter(p, a, |records|)
            && (records == IsaTrace(p, a, |records|) <==> FaultsReported(p, a, |records|))
  {
    hide StateOf, MemoryOf, Retirements, Admissible, StateAfter, IsaStateAfter, Trace, IsaTrace, FaultsReported;
    PipelineRefines(p, memory, buses);
    RunConforms(p, ResetState(memory), |Retirements(INITIAL_MACHINE, buses)|);
  }
}
