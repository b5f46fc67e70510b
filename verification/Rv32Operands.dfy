/** Which packet fields an instruction makes visible, and why the visible ones depend
    only on the operands the decoder says it uses. */
module Rv32Operands {
  import opened Rv32Types
  import opened Rv32Decoder
  import opened Rv32Arithmetic
  import opened Rv32Stages

  /** The packet with every field no retirement or later stage can observe set to zero. */
  function Visible(q: Packet): Packet {
    Packet(
      q.valid, q.pc, q.instruction, q.nextPc, q.rd, q.writes,
      if q.writes && (!q.load || q.done) then q.result else 0,
      q.load, q.store,
      if q.load || q.store then q.address else 0,
      if q.store then q.storeData else 0,
      if q.load && q.done && !q.trap then q.loadData else 0,
      q.size, q.signedLoad, q.done, q.redirect, q.trap, q.cause, q.tval)
  }

  /** An operation that does not read its operands. */
  predicate OperandFree(operation: nat) { operation == 10 || operation == 11 || operation == 12 }

  /** What a control word may read: nothing beyond what `use1` and `use2` announce. */
  predicate Announced(c: Decoded) {
    && (!c.use1 ==> !c.load && !c.store && !c.branch && c.jump != 2 && (c.writes ==> OperandFree(c.operation)))
    && (!c.use2 ==> !c.store && !c.branch && (c.writes ==> c.immediateRhs || OperandFree(c.operation)))
    && (c.store ==> !c.writes && !c.load)
  }

  lemma DecoderAnnounces(w: Word, fault: bool, pc: Word)
    ensures Announced(FetchControl(w, fault, pc))
  {
    hide Opcode, Funct3, Funct7, Rs1, Rs2, Rd, ImmediateI, ImmediateS, ImmediateB, ImmediateJ, ImmediateU, AluOperation;
  }

  /** Values agree wherever the control word reads them. */
  predicate Agree(c: Decoded, f: Word, s: Word, f': Word, s': Word) {
    (c.use1 ==> f == f') && (c.use2 ==> s == s')
  }

  lemma ControlFlowReadsUsed(c: Decoded, pc: Word, f: Word, s: Word, f': Word, s': Word)
    requires Announced(c) && Agree(c, f, s, f', s')
    ensures Traps(c, pc, f, s) == Traps(c, pc, f', s')
    ensures Redirects(c, f, s) == Redirects(c, f', s')
    ensures TrapCause(c, pc, f, s) == TrapCause(c, pc, f', s')
    ensures TrapValue(c, pc, f, s) == TrapValue(c, pc, f', s')
    ensures NextPc(c, pc, f, s) == NextPc(c, pc, f', s')
  {
    hide Add, ClearBit0, FollowingPc, Aligned, SignedLess;
  }

  lemma ResultReadsUsed(c: Decoded, pc: Word, f: Word, s: Word, f': Word, s': Word)
    requires Announced(c) && Agree(c, f, s, f', s')
    ensures c.writes ==> Alu(c, pc, f, s) == Alu(c, pc, f', s')
  {
    hide Add, Subtract, FollowingPc, BitAnd, BitOr, BitXor, SignedLess, ShiftLeft, ShiftRight, ShiftRightArithmetic;
  }

  /** The visible packet depends on the first operand only when `use1` holds and on the
      second only when `use2` holds. */
  lemma PacketReadsUsed(c: Decoded, pc: Word, i: Word, f: Word, s: Word, f': Word, s': Word)
    requires Announced(c) && Agree(c, f, s, f', s')
    ensures Visible(Arithmetic(c, pc, i, f, s)) == Visible(Arithmetic(c, pc, i, f', s'))
  {
    hide Alu, Traps, Redirects, TrapCause, TrapValue, NextPc, Add;
    ControlFlowReadsUsed(c, pc, f, s, f', s');
    ResultReadsUsed(c, pc, f, s, f', s');
  }
}
