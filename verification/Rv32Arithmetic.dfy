/** The execute-stage datapath (designs/rv32i_core/arithmetic.py). */
module Rv32Arithmetic {
  import opened Bits
  import opened Rv32Types

  function BitAnd(a: Word, b: Word): Word {
    Pow2Of32();
    Bitwise(Both, a, b, 32)
  }

  function BitOr(a: Word, b: Word): Word {
    Pow2Of32();
    Bitwise(Either, a, b, 32)
  }

  function BitXor(a: Word, b: Word): Word {
    Pow2Of32();
    Bitwise(Differ, a, b, 32)
  }

  /** Flipping the sign bit. */
  function FlipSign(a: Word): Word { Add(a, 0x8000_0000) }

  predicate SignedLess(a: Word, b: Word) { FlipSign(a) < FlipSign(b) }

  function ShiftLeft(a: Word, amount: nat): Word { (a * Pow2(amount)) % TWO_32 }

  function ShiftRight(a: Word, amount: nat): Word { Quotient(a, Pow2(amount)) }

  /** Ones in the top `amount` bits of a word. */
  function SignFill(a: Word, amount: nat): Word
    requires amount < 32
  {
    if a >= 0x8000_0000 && amount != 0 then ShiftLeft(0xFFFF_FFFF, 32 - amount) else 0
  }

  /** The filled bits lie above the shifted ones, so the OR is a bitwise one on disjoint fields. */
  function ShiftRightArithmetic(a: Word, amount: nat): Word
    requires amount < 32
  {
    BitOr(ShiftRight(a, amount), SignFill(a, amount))
  }

  function Alu(c: Decoded, pc: Word, first: Word, second: Word): Word {
    var rhs := if c.immediateRhs then c.immediate else second;
    var amount := rhs % 32;
    match c.operation
    case 1 => Subtract(first, rhs)
    case 2 => ShiftLeft(first, amount)
    case 3 => if SignedLess(first, rhs) then 1 else 0
    case 4 => if first < rhs then 1 else 0
    case 5 => BitXor(first, rhs)
    case 6 => ShiftRight(first, amount)
    case 7 => ShiftRightArithmetic(first, amount)
    case 8 => BitOr(first, rhs)
    case 9 => BitAnd(first, rhs)
    case 10 => c.immediate
    case 11 => Add(pc, c.immediate)
    case 12 => FollowingPc(pc)
    case _ => Add(first, rhs)
  }

  predicate Taken(c: Decoded, first: Word, second: Word) {
    c.branch &&
    match c.condition
    case 0 => first == second
    case 1 => first != second
    case 4 => SignedLess(first, second)
    case 5 => !SignedLess(first, second)
    case 6 => first < second
    case _ => first >= second
  }

  predicate Redirects(c: Decoded, first: Word, second: Word) {
    Taken(c, first, second) || c.jump != 0
  }

  function ClearBit0(a: Word): Word { a - a % 2 }

  function Target(c: Decoded, pc: Word, first: Word): Word {
    if c.jump == 2 then ClearBit0(Add(first, c.immediate)) else Add(pc, c.immediate)
  }

  predicate Aligned(address: Word, bytes: nat)
    requires bytes > 0
  {
    address % bytes == 0
  }

  predicate MisalignedTarget(c: Decoded, pc: Word, first: Word, second: Word) {
    Redirects(c, first, second) && !Aligned(Target(c, pc, first), 4)
  }

  predicate MisalignedAccess(c: Decoded, first: Word) {
    var address := Add(first, c.immediate);
    (c.load || c.store) && ((c.size == 1 && !Aligned(address, 2)) || (c.size == 2 && !Aligned(address, 4)))
  }

  predicate Traps(c: Decoded, pc: Word, first: Word, second: Word) {
    c.trap || MisalignedTarget(c, pc, first, second) || MisalignedAccess(c, first)
  }

  /** A misaligned access wins over a misaligned target, which wins over a decoder trap. */
  function TrapCause(c: Decoded, pc: Word, first: Word, second: Word): nat {
    if MisalignedAccess(c, first) then if c.store then 6 else 4
    else if MisalignedTarget(c, pc, first, second) then 0
    else c.cause
  }

  function TrapValue(c: Decoded, pc: Word, first: Word, second: Word): Word {
    if MisalignedAccess(c, first) then Add(first, c.immediate)
    else if MisalignedTarget(c, pc, first, second) then Target(c, pc, first)
    else if c.trap && c.cause == 3 then pc
    else c.tval
  }

  function NextPc(c: Decoded, pc: Word, first: Word, second: Word): Word {
    if Traps(c, pc, first, second) then pc
    else if Redirects(c, first, second) then Target(c, pc, first)
    else FollowingPc(pc)
  }

  function Arithmetic(c: Decoded, pc: Word, instruction: Word, first: Word, second: Word): Packet {
    var trap := Traps(c, pc, first, second);
    Packet(
      true, pc, instruction, NextPc(c, pc, first, second),
      c.rd, c.writes && !trap, Alu(c, pc, first, second),
      c.load, c.store, Add(first, c.immediate), second, 0,
      c.size, c.signedLoad, false, Redirects(c, first, second) && !trap,
      trap, TrapCause(c, pc, first, second), TrapValue(c, pc, first, second))
  }

  /** The ALU ladder, lines 11 to 41 of the source function. */
  method ComputeValue(c: Decoded, pc: Word, first: Word, second: Word) returns (value: Word)
    ensures value == Alu(c, pc, first, second)
  {
    hide Add, Subtract, FollowingPc, BitAnd, BitOr, BitXor, FlipSign, ShiftLeft, ShiftRight;
    var rhs := if c.immediateRhs then c.immediate else second;
    var amount := rhs % 32;
    var fill: Word := if first >= 0x8000_0000 && amount != 0 then ShiftLeft(0xFFFF_FFFF, 32 - amount) else 0;
    var signedLess := FlipSign(first) < FlipSign(rhs);
    value := Add(first, rhs);
    if c.operation == 1 { value := Subtract(first, rhs); }
    else if c.operation == 2 { value := ShiftLeft(first, amount); }
    else if c.operation == 3 { value := if signedLess then 1 else 0; }
    else if c.operation == 4 { value := if first < rhs then 1 else 0; }
    else if c.operation == 5 { value := BitXor(first, rhs); }
    else if c.operation == 6 { value := ShiftRight(first, amount); }
    else if c.operation == 7 { value := BitOr(ShiftRight(first, amount), fill); }
    else if c.operation == 8 { value := BitOr(first, rhs); }
    else if c.operation == 9 { value := BitAnd(first, rhs); }
    else if c.operation == 10 { value := c.immediate; }
    else if c.operation == 11 { value := Add(pc, c.immediate); }
    else if c.operation == 12 { value := FollowingPc(pc); }
  }

  /** The branch ladder, lines 42 to 56. */
  method ComputeTaken(c: Decoded, first: Word, second: Word) returns (taken: bool)
    ensures taken == Taken(c, first, second)
  {
    hide FlipSign;
    var less := FlipSign(first) < FlipSign(second);
    taken := false;
    if c.branch {
      if c.condition == 0 { taken := first == second; }
      else if c.condition == 1 { taken := first != second; }
      else if c.condition == 4 { taken := less; }
      else if c.condition == 5 { taken := !less; }
      else if c.condition == 6 { taken := first < second; }
      else { taken := first >= second; }
    }
  }

  /** The datapath as the source writes it, by successive reassignment. */
  method ComputeArithmetic(c: Decoded, pc: Word, instruction: Word, first: Word, second: Word)
    returns (result: Packet)
    ensures result == Arithmetic(c, pc, instruction, first, second)
  {
    hide Alu, Taken, Add, FollowingPc, ClearBit0, Aligned;
    var value := ComputeValue(c, pc, first, second);
    var taken := ComputeTaken(c, first, second);
    var target := Add(pc, c.immediate);
    if c.jump == 2 { target := ClearBit0(Add(first, c.immediate)); }
    var redirect := taken || c.jump != 0;
    var nextPc := if redirect then target else FollowingPc(pc);
    var writes, address := c.writes, Add(first, c.immediate);
    var trap, cause, tval := c.trap, c.cause, c.tval;
    if c.trap && c.cause == 3 { tval := pc; }
    if redirect && !Aligned(target, 4) {
      trap, cause, tval := true, 0, target;
    }
    if c.load || c.store {
      if (c.size == 1 && !Aligned(address, 2)) || (c.size == 2 && !Aligned(address, 4)) {
        trap, cause, tval := true, if c.store then 6 else 4, address;
      }
    }
    if trap {
      redirect, writes, nextPc := false, false, pc;
    }
    result := Packet(
      true, pc, instruction, nextPc, c.rd, writes, value,
      c.load, c.store, address, second, 0, c.size, c.signedLoad, false, redirect, trap, cause, tval);
  }
}
