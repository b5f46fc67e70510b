/** The instruction decoder (designs/rv32i_core/decoder.py) and the load lane
    selector (designs/rv32i_core/types.py). */
module Rv32Decoder {
  import opened Rv32Types

  function Opcode(w: Word): nat { w % 128 }

  function Funct3(w: Word): (f: nat)
    ensures f < 8
  {
    w / 0x1000 % 8
  }

  function Funct7(w: Word): nat { w / 0x200_0000 }

  function Rd(w: Word): Register { w / 0x80 % 32 }

  function Rs1(w: Word): Register { w / 0x8000 % 32 }

  function Rs2(w: Word): Register { w / 0x10_0000 % 32 }

  predicate Negative(w: Word) { w >= 0x8000_0000 }

  /** The extension mask covers only bits above the field, so the OR is a sum. */
  function SignExtended(w: Word, field: nat, extension: Word): Word
    requires field + extension < TWO_32
  {
    if Negative(w) then field + extension else field
  }

  function ImmediateI(w: Word): Word {
    SignExtended(w, w / 0x10_0000, 0xFFFF_F000)
  }

  function ImmediateS(w: Word): Word {
    SignExtended(w, Funct7(w) * 32 + w / 0x80 % 32, 0xFFFF_F000)
  }

  /** The bits of a branch offset and of a jump offset, gathered from where they are scattered. */
  function BranchField(w: Word): (r: nat)
    ensures r < 0x2000
  {
    assert w / 0x8000_0000 < 2;
    w / 0x8000_0000 * 0x1000 + w / 0x80 % 2 * 0x800 + w / 0x200_0000 % 64 * 32 + w / 0x100 % 16 * 2
  }

  function JumpField(w: Word): (r: nat)
    ensures r < 0x20_0000
  {
    assert w / 0x8000_0000 < 2;
    w / 0x8000_0000 * 0x10_0000 + w / 0x1000 % 256 * 0x1000 + w / 0x10_0000 % 2 * 0x800 + w / 0x20_0000 % 1024 * 2
  }

  function ImmediateB(w: Word): Word { SignExtended(w, BranchField(w), 0xFFFF_E000) }

  function ImmediateJ(w: Word): Word { SignExtended(w, JumpField(w), 0xFFE0_0000) }

  function ImmediateU(w: Word): Word { w - w % 0x1000 }

  /** The control word before any opcode claims the instruction. */
  function Unclaimed(w: Word): Decoded {
    EMPTY_DECODED.(rs1 := Rs1(w), rs2 := Rs2(w), rd := Rd(w),
                   tval := if w % 4 == 3 then w else w % 0x1_0000)
  }

  /** Operation and legality of the register-immediate and register-register groups. */
  function AluOperation(registerForm: bool, funct3: nat, funct7: nat): (nat, bool) {
    var plain := !registerForm || funct7 == 0;
    if funct3 == 0 then
      if registerForm && funct7 == 32 then (1, true) else (0, plain)
    else if funct3 == 1 then (2, funct7 == 0)
    else if funct3 == 2 then (3, plain)
    else if funct3 == 3 then (4, plain)
    else if funct3 == 4 then (5, plain)
    else if funct3 == 5 then
      if funct7 == 0 then (6, true) else if funct7 == 32 then (7, true) else (0, false)
    else if funct3 == 6 then (8, plain)
    else (9, plain)
  }

  /** The control word of an instruction. */
  function Decode(w: Word): Decoded {
    var u := Unclaimed(w);
    var funct3 := Funct3(w);
    match Opcode(w)
    case 55 => u.(operation := 10, immediate := ImmediateU(w), writes := true, trap := false)
    case 23 => u.(operation := 11, immediate := ImmediateU(w), writes := true, trap := false)
    case 111 => u.(operation := 12, jump := 1, immediate := ImmediateJ(w), writes := true, trap := false)
    case 103 =>
      if funct3 != 0 then u
      else u.(operation := 12, jump := 2, immediate := ImmediateI(w), use1 := true, writes := true, trap := false)
    case 99 =>
      if funct3 == 2 || funct3 == 3 then u
      else
        u.(branch := true, condition := funct3, immediate := ImmediateB(w), use1 := true, use2 := true, trap := false)
    case 3 =>
      if funct3 == 3 || funct3 == 6 || funct3 == 7 then u
      else u.(load := true, use1 := true, writes := true, immediateRhs := true, immediate := ImmediateI(w),
              size := funct3 % 4, signedLoad := funct3 < 4, trap := false)
    case 35 =>
      if funct3 > 2 then u
      else u.(store := true, use1 := true, use2 := true, immediateRhs := true, immediate := ImmediateS(w),
              size := funct3 % 4, trap := false)
    case 19 =>
      var (operation, legal) := AluOperation(false, funct3, Funct7(w));
      u.(use1 := true, immediateRhs := true, immediate := ImmediateI(w), writes := true,
         operation := operation, trap := !legal)
    case 51 =>
      var (operation, legal) := AluOperation(true, funct3, Funct7(w));
      u.(use1 := true, use2 := true, immediate := ImmediateI(w), writes := true,
         operation := operation, trap := !legal)
    case 15 => u.(trap := funct3 != 0)
    case 115 =>
      if w == 0x73 then u.(cause := 11, tval := 0)
      else if w == 0x10_0073 then u.(cause := 3, tval := 0)
      else u
    case _ => u
  }

  /** The decoder as the source writes it: one record whose fields are set branch by branch. */
  method ComputeDecoder(w: Word) returns (result: Decoded)
    ensures result == Decode(w)
  {
    hide Opcode, Funct3, Funct7, Rs1, Rs2, Rd, ImmediateI, ImmediateS, ImmediateB, ImmediateJ, ImmediateU;
    var opcode, funct3, funct7 := Opcode(w), Funct3(w), Funct7(w);
    var immI, immS, immB, immJ := ImmediateI(w), ImmediateS(w), ImmediateB(w), ImmediateJ(w);
    result := EMPTY_DECODED;
    result := result.(rs1 := Rs1(w), rs2 := Rs2(w), rd := Rd(w));
    result := result.(tval := if w % 4 == 3 then w else w % 0x1_0000);
    if opcode == 55 {
      result := result.(operation := 10, immediate := ImmediateU(w), writes := true, trap := false);
    } else if opcode == 23 {
      result := result.(operation := 11, immediate := ImmediateU(w), writes := true, trap := false);
    } else if opcode == 111 {
      result := result.(operation := 12, jump := 1, immediate := immJ, writes := true, trap := false);
    } else if opcode == 103 {
      if funct3 == 0 {
        result := result.(operation := 12, jump := 2, immediate := immI, use1 := true, writes := true, trap := false);
      }
    } else if opcode == 99 {
      if funct3 == 0 || funct3 == 1 || funct3 == 4 || funct3 == 5 || funct3 == 6 || funct3 == 7 {
        result := result.(
          branch := true, condition := funct3, immediate := immB, use1 := true, use2 := true, trap := false);
      }
    } else if opcode == 3 {
      if funct3 == 0 || funct3 == 1 || funct3 == 2 || funct3 == 4 || funct3 == 5 {
        result := result.(load := true, use1 := true, writes := true, immediateRhs := true, immediate := immI,
                          size := funct3 % 4, signedLoad := funct3 / 4 == 0, trap := false);
      }
    } else if opcode == 35 {
      if funct3 == 0 || funct3 == 1 || funct3 == 2 {
        result := result.(store := true, use1 := true, use2 := true, immediateRhs := true, immediate := immS,
                          size := funct3 % 4, trap := false);
      }
    } else if opcode == 19 || opcode == 51 {
      result := result.(use1 := true, use2 := opcode == 51, immediateRhs := opcode == 19,
                        immediate := immI, writes := true, trap := false);
      if funct3 == 0 {
        if opcode == 51 && funct7 == 32 {
          result := result.(operation := 1);
        } else if opcode == 51 && funct7 != 0 {
          result := result.(trap := true);
        }
      } else if funct3 == 1 {
        result := result.(operation := 2);
        if funct7 != 0 { result := result.(trap := true); }
      } else if funct3 == 2 {
        result := result.(operation := 3);
        if opcode == 51 && funct7 != 0 { result := result.(trap := true); }
      } else if funct3 == 3 {
        result := result.(operation := 4);
        if opcode == 51 && funct7 != 0 { result := result.(trap := true); }
      } else if funct3 == 4 {
        result := result.(operation := 5);
        if opcode == 51 && funct7 != 0 { result := result.(trap := true); }
      } else if funct3 == 5 {
        if funct7 == 0 {
          result := result.(operation := 6);
        } else if funct7 == 32 {
          result := result.(operation := 7);
        } else {
          result := result.(trap := true);
        }
      } else if funct3 == 6 {
        result := result.(operation := 8);
        if opcode == 51 && funct7 != 0 { result := result.(trap := true); }
      } else {
        result := result.(operation := 9);
        if opcode == 51 && funct7 != 0 { result := result.(trap := true); }
      }
    } else if opcode == 15 {
      if funct3 == 0 { result := result.(trap := false); }
    } else if opcode == 115 {
      if w == 0x73 {
        result := result.(cause := 11, tval := 0);
      } else if w == 0x10_0073 {
        result := result.(cause := 3, tval := 0);
      }
    }
  }

  /** Little-endian lane selection and extension of a loaded word. */
  function ReadLoad(data: Word, address: Word, size: nat, signed: bool): Word {
    var raw := RawLoad(data, address, size);
    if size == 0 then
      if signed && raw >= 0x80 then raw + 0xFFFF_FF00 else raw
    else if size == 1 then
      if signed && raw >= 0x8000 then raw + 0xFFFF_0000 else raw
    else data / LaneScale(address)
  }

  method ComputeReadLoad(data: Word, address: Word, size: nat, signed: bool) returns (value: Word)
    ensures value == ReadLoad(data, address, size, signed)
  {
    value := data / LaneScale(address);
    if size == 0 {
      value := value % 256;
      if signed && value / 128 == 1 { value := value + 4294967040; }
    } else if size == 1 {
      value := value % 65536;
      if signed && value / 32768 == 1 { value := value + 4294901760; }
    }
  }
}
