/** `assemble_instruction`: one mnemonic and its operand text, at a given
    address and with a given label table, to one instruction word or to the
    exception the assembler raises. */
module Assembler {
  import opened Bits
  import opened Wrappers
  import opened PyStr
  import opened Operands
  import opened Encoding
  import opened Isa

  /** `s.split(c, 1)`: the text before the first c and the text after it,
      or s alone. */
  function SplitOnce(s: string, c: char): (r: seq<string>)
    ensures 1 <= |r| <= 2
  {
    if Contains(s, c) then [Before(s, c), After(s, c)] else [s]
  }

  /** `parse_reg(parts[i])`; indexing past the end raises. */
  function RegAt(parts: seq<string>, i: nat): (r: Result<int>)
    ensures r.Ok? ==> 0 <= r.value < 32
    ensures r.Err? ==> r.error.UnknownRegister? || r.error.MissingOperand?
  {
    if i < |parts| then ParseReg(parts[i]) else Err(MissingOperand)
  }

  /** `parse_imm(parts[i])`. */
  function ImmAt(parts: seq<string>, i: nat): (r: Result<int>)
    ensures r.Err? ==> r.error.InvalidLiteral? || r.error.MissingOperand?
  {
    if i < |parts| then ParseImm(parts[i]) else Err(MissingOperand)
  }

  /** `parts[i]`. */
  function PartAt(parts: seq<string>, i: nat): (r: Result<string>)
    ensures r.Err? <==> i >= |parts|
    ensures r.Err? ==> r.error.MissingOperand?
  {
    if i < |parts| then Ok(parts[i]) else Err(MissingOperand)
  }

  /** `[parse_reg(op) for op in parts]`: every part parsed, left to right,
      the first failure raised. */
  function ParseRegs(parts: seq<string>): (r: Result<seq<int>>)
    ensures r.Ok? ==> |r.value| == |parts|
    ensures r.Ok? ==> forall i :: 0 <= i < |parts| ==> 0 <= r.value[i] < 32
    ensures r.Err? ==> r.error.UnknownRegister?
  {
    if parts == [] then Ok([])
    else
      var first :- ParseReg(parts[0]);
      var rest :- ParseRegs(parts[1..]);
      Ok([first] + rest)
  }

  /** One step of the list comprehension. */
  lemma ParseRegsCons(p: string, rest: seq<string>)
    ensures ParseRegs([p] + rest)
      == (if ParseReg(p).Err? then Err(ParseReg(p).error)
          else if ParseRegs(rest).Err? then Err(ParseRegs(rest).error)
          else Ok([ParseReg(p).value] + ParseRegs(rest).value))
  {
    assert ([p] + rest)[1..] == rest;
  }

  /** Three operands are parsed in order; the first bad one raises. */
  lemma ParseRegsThree(a: string, b: string, c: string)
    ensures ParseRegs([a, b, c])
      == (if ParseReg(a).Err? then Err(ParseReg(a).error)
          else if ParseReg(b).Err? then Err(ParseReg(b).error)
          else if ParseReg(c).Err? then Err(ParseReg(c).error)
          else Ok([ParseReg(a).value, ParseReg(b).value, ParseReg(c).value]))
  {
    ParseRegsOne(c);
    ParseRegsCons(b, [c]);
    assert [b, c] == [b] + [c];
    ParseRegsCons(a, [b, c]);
    assert [a, b, c] == [a] + [b, c];
    if ParseReg(a).Ok? && ParseReg(b).Ok? && ParseReg(c).Ok? {
      var x, y, z := ParseReg(a).value, ParseReg(b).value, ParseReg(c).value;
      assert [x] + ([y] + [z]) == [x, y, z];
    }
  }

  /** A single operand is parsed alone. */
  lemma ParseRegsOne(c: string)
    ensures ParseRegs([c]) == (if ParseReg(c).Err? then Err(ParseReg(c).error) else Ok([ParseReg(c).value]))
  {
    assert [c][1..] == [];
    assert ParseRegs([]) == Ok([]);
    if ParseReg(c).Ok? {
      assert [ParseReg(c).value] + [] == [ParseReg(c).value];
    }
  }

  /** The instruction groups of assemble_instruction, each with the value
      its dictionary gives the mnemonic (a funct or an opcode). */
  datatype Mnemonic =
    | Arith(funct: int)       // add .. sltu: rd, rs, rt
    | Shift(funct: int)       // sll, srl, sra: rd, rt, shamt
    | VarShift(funct: int)    // sllv, srlv, srav: rd, rt, rs
    | Immediate(opcode: int)  // addi .. sltiu: rt, rs, imm
    | Lui                     // rt, imm
    | Memory(opcode: int)     // lb .. sw: rt, offset(rs)
    | Branch2(opcode: int)    // beq, bne: rs, rt, target
    | Branch1(opcode: int)    // bgtz, blez: rs, target
    | Jump(opcode: int)       // j, jal: target
    | Jr
    | Jalr
    | Move
    | HiLo(funct: int, toRd: bool)  // mfhi, mflo (rd); mthi, mtlo (rs)
    | MulDiv(funct: int)      // mult .. divu: rs, rt
    | Syscall
    | Nop

  /** The mnemonic lists and dictionaries of assemble_instruction, merged:
      the lists are disjoint, so the order in which the source tries them
      does not matter. */
  function Mnemonics(m: string): Option<Mnemonic>
  {
    match m
    case "add" => Some(Arith(SUBOP_ADD))
    case "addu" => Some(Arith(SUBOP_ADDU))
    case "sub" => Some(Arith(SUBOP_SUB))
    case "subu" => Some(Arith(SUBOP_SUBU))
    case "and" => Some(Arith(SUBOP_AND))
    case "or" => Some(Arith(SUBOP_OR))
    case "xor" => Some(Arith(SUBOP_XOR))
    case "nor" => Some(Arith(SUBOP_NOR))
    case "slt" => Some(Arith(SUBOP_SLT))
    case "sltu" => Some(Arith(SUBOP_SLTU))
    case "sll" => Some(Shift(SUBOP_SLL))
    case "srl" => Some(Shift(SUBOP_SRL))
    case "sra" => Some(Shift(SUBOP_SRA))
    case "sllv" => Some(VarShift(SUBOP_SLLV))
    case "srlv" => Some(VarShift(SUBOP_SRLV))
    case "srav" => Some(VarShift(SUBOP_SRAV))
    case "addi" => Some(Immediate(OP_ADDI))
    case "addiu" => Some(Immediate(OP_ADDIU))
    case "andi" => Some(Immediate(OP_ANDI))
    case "ori" => Some(Immediate(OP_ORI))
    case "xori" => Some(Immediate(OP_XORI))
    case "slti" => Some(Immediate(OP_SLTI))
    case "sltiu" => Some(Immediate(OP_SLTIU))
    case "lui" => Some(Lui)
    case "lb" => Some(Memory(OP_LB))
    case "lh" => Some(Memory(OP_LH))
    case "lw" => Some(Memory(OP_LW))
    case "lbu" => Some(Memory(OP_LBU))
    case "lhu" => Some(Memory(OP_LHU))
    case "sb" => Some(Memory(OP_SB))
    case "sh" => Some(Memory(OP_SH))
    case "sw" => Some(Memory(OP_SW))
    case "beq" => Some(Branch2(OP_BEQ))
    case "bne" => Some(Branch2(OP_BNE))
    case "bgtz" => Some(Branch1(OP_BGTZ))
    case "blez" => Some(Branch1(OP_BLEZ))
    case "j" => Some(Jump(OP_J))
    case "jal" => Some(Jump(OP_JAL))
    case "jr" => Some(Jr)
    case "jalr" => Some(Jalr)
    case "move" => Some(Move)
    case "mfhi" => Some(HiLo(SUBOP_MFHI, true))
    case "mflo" => Some(HiLo(SUBOP_MFLO, true))
    case "mthi" => Some(HiLo(SUBOP_MTHI, false))
    case "mtlo" => Some(HiLo(SUBOP_MTLO, false))
    case "mult" => Some(MulDiv(SUBOP_MULT))
    case "multu" => Some(MulDiv(SUBOP_MULTU))
    case "div" => Some(MulDiv(SUBOP_DIV))
    case "divu" => Some(MulDiv(SUBOP_DIVU))
    case "syscall" => Some(Syscall)
    case "nop" => Some(Nop)
    case _ => None
  }

  /** A branch operand: a label gives the PC-relative word offset
      `(target - (addr + 4)) >> 2` (Python's `>>` floors, as `/ 4` does);
      anything else is read as a literal offset. */
  function BranchOffset(target: string, currentAddr: int, labels: map<string, int>): (r: Result<int>)
    ensures r.Err? ==> target !in labels && r.error.InvalidLiteral?
  {
    if target in labels then Ok((labels[target] - (currentAddr + 4)) / 4) else ParseImm(target)
  }

  /** A jump operand: a label's address, or a literal absolute address. */
  function JumpAddress(target: string, labels: map<string, int>): (r: Result<int>)
    ensures r.Err? ==> target !in labels && r.error.InvalidLiteral?
  {
    if target in labels then Ok(labels[target]) else ParseImm(target)
  }

  /** The shift encoding as written: the amount is packed without a range
      check, so an amount outside 0..31 spills into rd (or, when negative,
      makes the word negative). */
  function ShiftWordAsWritten(funct: int, rt: int, rd: int, shamt: int): Result<int>
  {
    Ok(EncodeR(0, 0, rt, rd, shamt, funct))
  }

  /** The corrected shift encoding: an amount outside the 5-bit field is
      refused instead of corrupting the other fields. The assembler itself
      keeps the unchecked encoding above. */
  function ShiftWord(funct: int, rt: int, rd: int, shamt: int): (r: Result<int>)
    ensures r.Err? <==> !(0 <= shamt < 32)
    ensures r.Err? ==> r.error == ShiftAmountOutOfRange(shamt)
  {
    if 0 <= shamt < 32 then Ok(EncodeR(0, 0, rt, rd, shamt, funct))
    else Err(ShiftAmountOutOfRange(shamt))
  }

  /** `assemble_instruction`: the mnemonic is lower-cased and looked up;
      an unknown one raises. */
  function AssembleInstruction(mnemonic: string, operands: string, currentAddr: int, labels: map<string, int>): (r: Result<int>)
    ensures r.Err? && r.error.UnknownInstruction? <==> Mnemonics(Lower(mnemonic)).None?
    ensures r.Err? && r.error.UnknownInstruction? ==> r.error.mnemonic == Lower(mnemonic)
  {
    var m := Lower(mnemonic);
    match Mnemonics(m)
    case None => Err(UnknownInstruction(m))
    case Some(k) => AssembleGroup(k, operands, currentAddr, labels)
  }

  /** One group's branch of `assemble_instruction`. Operands are read in the
      source's order, so the exception raised for a bad line is the one
      Python raises first. */
  function AssembleGroup(k: Mnemonic, operands: string, currentAddr: int, labels: map<string, int>): (r: Result<int>)
    ensures r.Err? ==> !r.error.UnknownInstruction?
  {
    match k
    case Arith(funct) => AssembleArith(funct, operands)
    case Shift(funct) => AssembleShift(funct, operands)
    case VarShift(funct) => AssembleVarShift(funct, operands)
    case Immediate(opcode) => AssembleImmediate(opcode, operands)
    case Lui => AssembleLui(operands)
    case Memory(opcode) => AssembleMemory(opcode, operands)
    case Branch2(opcode) => AssembleBranch2(opcode, operands, currentAddr, labels)
    case Branch1(opcode) => AssembleBranch1(opcode, operands, currentAddr, labels)
    case Jump(opcode) => AssembleJump(opcode, operands, labels)
    case Jr => AssembleJr(operands)
    case Jalr => AssembleJalr(operands)
    case Move => AssembleMove(operands)
    case HiLo(funct, toRd) => AssembleHiLo(funct, toRd, operands)
    case MulDiv(funct) => AssembleMulDiv(funct, operands)
    case Syscall => Ok(EncodeR(0, 0, 0, 0, 0, SUBOP_SYSCALL))
    case Nop => Ok(0)
  }

  /** `add rd, rs, rt` and the other three-register arithmetic. */
  function AssembleArith(funct: int, operands: string): (r: Result<int>)
    ensures r.Err? ==> r.error.UnknownRegister? || r.error.WrongOperandCount?
  {
    var regs :- ParseRegs(Split(operands, ','));
    if |regs| != 3 then Err(WrongOperandCount)
    else Ok(EncodeR(0, regs[1], regs[2], regs[0], 0, funct))
  }

  /** `sll rd, rt, shamt`, `srl`, `sra`: the amount is packed as parsed,
      without a range check. */
  function AssembleShift(funct: int, operands: string): (r: Result<int>)
    ensures r.Err? ==> r.error.UnknownRegister? || r.error.InvalidLiteral? || r.error.WrongOperandCount?
  {
    var parts := Split(operands, ',');
    if |parts| != 3 then Err(WrongOperandCount)
    else
      var rd :- ParseReg(parts[0]);
      var rt :- ParseReg(parts[1]);
      var shamt :- ParseImm(parts[2]);
      ShiftWordAsWritten(funct, rt, rd, shamt)
  }

  /** `sllv rd, rt, rs`, `srlv`, `srav`: rs is the last operand. */
  function AssembleVarShift(funct: int, operands: string): (r: Result<int>)
    ensures r.Err? ==> r.error.UnknownRegister? || r.error.WrongOperandCount?
  {
    var regs :- ParseRegs(Split(operands, ','));
    if |regs| != 3 then Err(WrongOperandCount)
    else Ok(EncodeR(0, regs[2], regs[1], regs[0], 0, funct))
  }

  /** `addi rt, rs, imm` and the other immediate arithmetic. */
  function AssembleImmediate(opcode: int, operands: string): (r: Result<int>)
    ensures r.Err? ==> r.error.UnknownRegister? || r.error.InvalidLiteral? || r.error.MissingOperand?
  {
    var parts := Split(operands, ',');
    var rt :- RegAt(parts, 0);
    var rs :- RegAt(parts, 1);
    var imm :- ImmAt(parts, 2);
    Ok(EncodeI(opcode, rs, rt, imm))
  }

  /** `lui rt, imm`. */
  function AssembleLui(operands: string): (r: Result<int>)
    ensures r.Err? ==> r.error.UnknownRegister? || r.error.InvalidLiteral? || r.error.MissingOperand?
  {
    var parts := Split(operands, ',');
    var rt :- RegAt(parts, 0);
    var imm :- ImmAt(parts, 1);
    Ok(EncodeI(OP_LUI, 0, rt, imm))
  }

  /** `lw rt, offset(base)` and the other loads and stores: the operands
      are split at the first comma only. */
  function AssembleMemory(opcode: int, operands: string): (r: Result<int>)
    ensures r.Err? ==> r.error.UnknownRegister? || r.error.MissingOperand?
                       || r.error.InvalidMemoryOperand? || r.error.InvalidLiteral?
  {
    var parts := SplitOnce(operands, ',');
    var rt :- RegAt(parts, 0);
    var operand :- PartAt(parts, 1);
    var mem :- ParseMemoryOperand(operand);
    Ok(EncodeI(opcode, mem.1, rt, mem.0))
  }

  /** `beq rs, rt, target`, `bne`. */
  function AssembleBranch2(opcode: int, operands: string, currentAddr: int, labels: map<string, int>): (r: Result<int>)
    ensures r.Err? ==> r.error.UnknownRegister? || r.error.InvalidLiteral? || r.error.MissingOperand?
  {
    var parts := Split(operands, ',');
    var rs :- RegAt(parts, 0);
    var rt :- RegAt(parts, 1);
    var target :- PartAt(parts, 2);
    var offset :- BranchOffset(Strip(target), currentAddr, labels);
    Ok(EncodeI(opcode, rs, rt, offset))
  }

  /** `blez rs, target`, `bgtz`. */
  function AssembleBranch1(opcode: int, operands: string, currentAddr: int, labels: map<string, int>): (r: Result<int>)
    ensures r.Err? ==> r.error.UnknownRegister? || r.error.InvalidLiteral? || r.error.MissingOperand?
  {
    var parts := Split(operands, ',');
    var rs :- RegAt(parts, 0);
    var target :- PartAt(parts, 1);
    var offset :- BranchOffset(Strip(target), currentAddr, labels);
    Ok(EncodeI(opcode, rs, 0, offset))
  }

  /** `j target`, `jal target`: the word address of the target. */
  function AssembleJump(opcode: int, operands: string, labels: map<string, int>): (r: Result<int>)
    ensures r.Err? ==> r.error.InvalidLiteral?
  {
    var address :- JumpAddress(Strip(operands), labels);
    Ok(EncodeJ(opcode, address / 4))
  }

  /** `jr rs`. */
  function AssembleJr(operands: string): (r: Result<int>)
    ensures r.Err? ==> r.error.UnknownRegister?
  {
    var rs :- ParseReg(operands);
    Ok(EncodeR(0, rs, 0, 0, 0, SUBOP_JR))
  }

  /** `jalr rd, rs`, or `jalr rs` linking through register 31. */
  function AssembleJalr(operands: string): (r: Result<int>)
    ensures r.Err? ==> r.error.UnknownRegister?
  {
    var parts := Split(operands, ',');
    if |parts| == 2 then
      var rd :- ParseReg(parts[0]);
      var rs :- ParseReg(parts[1]);
      Ok(EncodeR(0, rs, 0, rd, 0, SUBOP_JALR))
    else
      var rs :- ParseReg(parts[0]);
      Ok(EncodeR(0, rs, 0, 31, 0, SUBOP_JALR))
  }

  /** The pseudo-instruction `move rd, rs`. */
  function AssembleMove(operands: string): (r: Result<int>)
    ensures r.Err? ==> r.error.UnknownRegister? || r.error.MissingOperand?
  {
    var parts := Split(operands, ',');
    var rd :- RegAt(parts, 0);
    var rs :- RegAt(parts, 1);
    Ok(EncodeR(0, rs, 0, rd, 0, SUBOP_ADDU))
  }

  /** `mfhi rd`/`mflo rd` write rd; `mthi rs`/`mtlo rs` read rs. */
  function AssembleHiLo(funct: int, toRd: bool, operands: string): (r: Result<int>)
    ensures r.Err? ==> r.error.UnknownRegister?
  {
    var reg :- ParseReg(operands);
    Ok(if toRd then EncodeR(0, 0, 0, reg, 0, funct) else EncodeR(0, reg, 0, 0, 0, funct))
  }

  /** `mult rs, rt` and the other HI/LO producers. */
  function AssembleMulDiv(funct: int, operands: string): (r: Result<int>)
    ensures r.Err? ==> r.error.UnknownRegister? || r.error.MissingOperand?
  {
    var parts := Split(operands, ',');
    var rs :- RegAt(parts, 0);
    var rt :- RegAt(parts, 1);
    Ok(EncodeR(0, rs, rt, 0, 0, funct))
  }

  // ---------------------------------------------------------------------
  // Properties of the encodings
  // ---------------------------------------------------------------------

  /** As written, a shift amount from 32 to 63 carries its bit 5 into bit
      11, the low bit of rd: the word is the in-range encoding with rd | 1
      and the amount minus 32. So `sll $t0, $t1, 32` assembles to the word
      of `sll $t1, $t1, 0`. */
  lemma ShiftAmountSpillsIntoRd(funct: int, rt: int, rd: int, shamt: int)
    requires 0 <= funct < 64 && 0 <= rt < 32 && 0 <= rd < 32 && 32 <= shamt < 64
    ensures Or(rd, 1) == rd + 1 - rd % 2
    ensures ShiftWordAsWritten(funct, rt, rd, shamt) == ShiftWord(funct, rt, Or(rd, 1), shamt - 32)
  {
    OrOne(rd);
    var o4 := Or(Or(Or(0 * 0x400_0000, 0 * 0x20_0000), rt * 0x1_0000), rd * 0x800);
    ShiftRegisterFields(rt, rd);
    SpillAt11(rt, rd, shamt - 32, o4);
    SpillFunct(funct, rt, Or(rd, 1), shamt - 32, Or(o4, shamt * 0x40));
    assert EncodeR(0, 0, rt, rd, shamt, funct) == Or(Or(o4, shamt * 0x40), funct);
  }

  /** rt and rd of a shift, or-ed under rs = 0 and opcode 0, are a sum. */
  lemma ShiftRegisterFields(rt: int, rd: int)
    requires 0 <= rt < 32 && 0 <= rd < 32
    ensures Or(Or(Or(0 * 0x400_0000, 0 * 0x20_0000), rt * 0x1_0000), rd * 0x800) == rt * 0x1_0000 + rd * 0x800
  {
    Pow2Table();
    PackTop(0, 0, rt);
    OrAbove(Or(Or(0 * 0x400_0000, 0 * 0x20_0000), rt * 0x1_0000), rt, rd * 0x800, 16);
  }

  /** The last step of `ShiftAmountSpillsIntoRd`: or-ing in funct gives the
      in-range encoding with rd1 and the amount s. */
  lemma SpillFunct(funct: int, rt: int, rd1: int, s: int, o5: int)
    requires 0 <= funct < 64 && 0 <= rt < 32 && 0 <= rd1 < 32 && 0 <= s < 32
    requires o5 == (rt * 32 + rd1) * 0x800 + s * 0x40
    ensures Or(o5, funct) == EncodeR(0, 0, rt, rd1, s, funct)
  {
    Pow2Table();
    OrAbove(o5, (rt * 32 + rd1) * 32 + s, funct, 6);
    PackR(0, 0, rt, rd1, s, funct);
  }

  /** `x | 1` sets the low bit. */
  lemma OrOne(x: nat)
    ensures Or(x, 1) == x + 1 - x % 2
  {
    OrZero(x / 2);
  }

  /** The step of `ShiftAmountSpillsIntoRd` at bit 11: or-ing `shamt << 6`
      into rt and rd sets rd's low bit and leaves the rest of the amount
      below. */
  lemma SpillAt11(rt: nat, rd: nat, s: nat, o4: int)
    requires rt < 32 && rd < 32 && s < 32 && o4 == rt * 0x1_0000 + rd * 0x800
    ensures Or(rd, 1) < 32
    ensures Or(o4, (s + 32) * 0x40) == (rt * 32 + Or(rd, 1)) * 0x800 + s * 0x40
  {
    assert Pow2(11) == 0x800 by { Pow2Table(); }
    var h := rt * 32 + rd;
    ShlMul(h, 11);
    ShlMul(1, 11);
    OrSplit(11, o4, h, 0, (s + 32) * 0x40, 1, s * 0x40);
    OrZero(s * 0x40);
    SpillLow(rt, rd);
    ShlMul(Or(h, 1), 11);
  }

  /** `(rt << 5 | rd) | 1` is `rt << 5 | (rd | 1)`. */
  lemma SpillLow(rt: nat, rd: nat)
    requires rt < 32 && rd < 32
    ensures Or(rd, 1) < 32 && Or(rt * 32 + rd, 1) == rt * 32 + Or(rd, 1)
  {
    assert Pow2(5) == 32 by { Pow2Table(); }
    ShlMul(rt, 5);
    ShlMul(0, 5);
    OrSplit(5, rt * 32 + rd, rt, rd, 1, 0, 1);
    OrZero(rt);
    OrBound(rd, 1, 5);
    ShlMul(rt, 5);
  }

  /** As written, a negative shift amount makes the whole word negative
      (Python's `|` on a negative operand). */
  lemma NegativeShiftAmount(funct: int, rt: int, rd: int, shamt: int)
    requires 0 <= funct < 64 && 0 <= rt < 32 && 0 <= rd < 32 && shamt < 0
    ensures ShiftWordAsWritten(funct, rt, rd, shamt).value < 0
  {
    var o4 := Or(Or(Or(0 * 0x400_0000, 0 * 0x20_0000), rt * 0x1_0000), rd * 0x800);
    OrNegative(o4, shamt * 0x40);
    OrNegative(Or(o4, shamt * 0x40), funct);
  }

  /** With the range check, a shift is refused exactly when its amount does
      not fit the 5-bit field, and an accepted shift keeps rt, rd and the
      amount in their own fields. */
  lemma ShiftWordFields(funct: int, rt: int, rd: int, shamt: int)
    requires 0 <= funct < 64 && 0 <= rt < 32 && 0 <= rd < 32
    ensures ShiftWord(funct, rt, rd, shamt).Ok? <==> 0 <= shamt < 32
    ensures ShiftWord(funct, rt, rd, shamt).Ok? ==>
      var w := ShiftWord(funct, rt, rd, shamt).value;
      0 <= w < 0x1_0000_0000 && w / 0x400_0000 == 0 && (w / 0x20_0000) % 0x20 == 0
      && (w / 0x1_0000) % 0x20 == rt && (w / 0x800) % 0x20 == rd
      && (w / 0x40) % 0x20 == shamt && w % 0x40 == funct
    ensures 0 <= shamt < 32 ==> ShiftWord(funct, rt, rd, shamt) == ShiftWordAsWritten(funct, rt, rd, shamt)
  {
    if 0 <= shamt < 32 {
      EncodeRFields(0, 0, rt, rd, shamt, funct);
    }
  }

  lemma ParseZero()
    ensures ParseReg("$zero") == Ok(0)
  {
    StripPlain("$zero");
    LowerNoUpper("$zero");
  }

  /** The lookup is all that depends on the mnemonic's spelling. */
  lemma Dispatch(mnemonic: string, k: Mnemonic, operands: string, addr: int, labels: map<string, int>)
    requires Mnemonics(Lower(mnemonic)) == Some(k)
    ensures AssembleInstruction(mnemonic, operands, addr, labels) == AssembleGroup(k, operands, addr, labels)
  {}

  /** `a,b` with comma-free a and b splits into a and b. */
  lemma SplitTwo(a: string, b: string)
    requires !Contains(a, ',') && !Contains(b, ',')
    ensures Split(a + "," + b, ',') == [a, b]
  {
    assert a + "," + b == a + [','] + b;
    SplitCons(a, ',', b);
    FindSpec(b, ',');
  }

  /** `a,b,c` with comma-free a, b and c splits into a, b and c. */
  lemma SplitThree(a: string, b: string, c: string)
    requires !Contains(a, ',') && !Contains(b, ',') && !Contains(c, ',')
    ensures Split(a + "," + b + "," + c, ',') == [a, b, c]
  {
    assert a + "," + b + "," + c == a + [','] + (b + "," + c);
    SplitCons(a, ',', b + "," + c);
    SplitTwo(b, c);
  }

  /** A mnemonic written in lower case is found as written. */
  lemma Spelled(m: string, k: Mnemonic)
    requires Mnemonics(m) == Some(k) && forall i :: 0 <= i < |m| ==> !('A' <= m[i] <= 'Z')
    ensures Mnemonics(Lower(m)) == Some(k)
  {
    LowerNoUpper(m);
  }

  /** `move rd, rs` is `addu rd, rs, $zero`, errors included. */
  lemma MoveIsAddu(a: string, b: string, addr: int, labels: map<string, int>)
    requires !Contains(a, ',') && !Contains(b, ',')
    ensures AssembleInstruction("move", a + "," + b, addr, labels)
         == AssembleInstruction("addu", a + "," + b + ",$zero", addr, labels)
  {
    Spelled("move", Move);
    Dispatch("move", Move, a + "," + b, addr, labels);
    Spelled("addu", Arith(SUBOP_ADDU));
    Dispatch("addu", Arith(SUBOP_ADDU), a + "," + b + ",$zero", addr, labels);
    MoveGroupIsAddu(a, b, addr, labels);
  }

  lemma MoveGroupIsAddu(a: string, b: string, addr: int, labels: map<string, int>)
    requires !Contains(a, ',') && !Contains(b, ',')
    ensures AssembleGroup(Move, a + "," + b, addr, labels)
         == AssembleGroup(Arith(SUBOP_ADDU), a + "," + b + ",$zero", addr, labels)
  {
    MoveSplits(a, b);
    ParseZero();
    MoveGroup(a + "," + b, a + "," + b + ",$zero", a, b, addr, labels);
  }

  lemma MoveSplits(a: string, b: string)
    requires !Contains(a, ',') && !Contains(b, ',')
    ensures Split(a + "," + b, ',') == [a, b]
    ensures Split(a + "," + b + ",$zero", ',') == [a, b, "$zero"]
  {
    SplitTwo(a, b);
    ZeroCommaFree();
    SplitThree(a, b, "$zero");
    ZeroOperand(a, b);
  }

  lemma ZeroCommaFree()
    ensures !Contains("$zero", ',')
  {
    FindSpec("$zero", ',');
  }

  lemma ZeroOperand(a: string, b: string)
    ensures a + "," + b + ",$zero" == a + "," + b + "," + "$zero"
  {
  }

  lemma MoveGroup(ops: string, ops3: string, a: string, b: string, addr: int, labels: map<string, int>)
    requires Split(ops, ',') == [a, b] && Split(ops3, ',') == [a, b, "$zero"] && ParseReg("$zero") == Ok(0)
    ensures AssembleGroup(Move, ops, addr, labels) == AssembleGroup(Arith(SUBOP_ADDU), ops3, addr, labels)
  {
    MoveGroupOf(ops, a, b, addr, labels);
    ArithGroupOf(SUBOP_ADDU, ops3, a, b, "$zero", addr, labels);
  }

  /** `move` with two operands. */
  lemma MoveGroupOf(ops: string, a: string, b: string, addr: int, labels: map<string, int>)
    requires Split(ops, ',') == [a, b]
    ensures AssembleGroup(Move, ops, addr, labels)
      == (if ParseReg(a).Err? then Err(ParseReg(a).error)
          else if ParseReg(b).Err? then Err(ParseReg(b).error)
          else Ok(EncodeR(0, ParseReg(b).value, 0, ParseReg(a).value, 0, SUBOP_ADDU)))
  {
    assert AssembleGroup(Move, ops, addr, labels) == AssembleMove(ops);
    assert RegAt([a, b], 0) == ParseReg(a);
    assert RegAt([a, b], 1) == ParseReg(b);
  }

  /** A three-register instruction with three operands. */
  lemma ArithGroupOf(funct: int, ops: string, a: string, b: string, c: string, addr: int, labels: map<string, int>)
    requires Split(ops, ',') == [a, b, c]
    ensures AssembleGroup(Arith(funct), ops, addr, labels)
      == (if ParseReg(a).Err? then Err(ParseReg(a).error)
          else if ParseReg(b).Err? then Err(ParseReg(b).error)
          else if ParseReg(c).Err? then Err(ParseReg(c).error)
          else Ok(EncodeR(0, ParseReg(b).value, ParseReg(c).value, ParseReg(a).value, 0, funct)))
  {
    assert AssembleGroup(Arith(funct), ops, addr, labels) == AssembleArith(funct, ops);
    ParseRegsThree(a, b, c);
  }

  /** A one-operand `jalr rs` links through register 31. */
  lemma JalrDefaultsToRa(r: string, addr: int, labels: map<string, int>)
    requires !Contains(r, ',')
    ensures AssembleInstruction("jalr", r, addr, labels).Ok? <==> ParseReg(r).Ok?
    ensures AssembleInstruction("jalr", r, addr, labels).Ok? ==>
      var w := AssembleInstruction("jalr", r, addr, labels).value;
      w / 0x400_0000 == OP_SPECIAL && (w / 0x20_0000) % 0x20 == ParseReg(r).value
      && (w / 0x800) % 0x20 == 31 && w % 0x40 == SUBOP_JALR
  {
    Spelled("jalr", Jalr);
    Dispatch("jalr", Jalr, r, addr, labels);
    JalrGroup(r, addr, labels);
  }

  lemma JalrGroup(r: string, addr: int, labels: map<string, int>)
    requires !Contains(r, ',')
    ensures AssembleGroup(Jalr, r, addr, labels).Ok? <==> ParseReg(r).Ok?
    ensures AssembleGroup(Jalr, r, addr, labels).Ok? ==>
      var w := AssembleGroup(Jalr, r, addr, labels).value;
      w / 0x400_0000 == OP_SPECIAL && (w / 0x20_0000) % 0x20 == ParseReg(r).value
      && (w / 0x800) % 0x20 == 31 && w % 0x40 == SUBOP_JALR
  {
    FindSpec(r, ',');
    assert Split(r, ',') == [r];
    if ParseReg(r).Ok? {
      EncodeRFields(0, ParseReg(r).value, 0, 31, 0, SUBOP_JALR);
    }
  }

  /** `nop` encodes as the all-zero word, whatever follows it. */
  lemma NopIsZero(operands: string, addr: int, labels: map<string, int>)
    ensures AssembleInstruction("nop", operands, addr, labels) == Ok(0)
  {
    Spelled("nop", Nop);
    Dispatch("nop", Nop, operands, addr, labels);
  }

  /** `syscall` is funct 0x0C alone, whatever follows it. */
  lemma SyscallWord(operands: string, addr: int, labels: map<string, int>)
    ensures AssembleInstruction("syscall", operands, addr, labels) == Ok(SUBOP_SYSCALL)
  {
    Spelled("syscall", Syscall);
    Dispatch("syscall", Syscall, operands, addr, labels);
    SyscallGroup(operands, addr, labels);
  }

  lemma SyscallGroup(operands: string, addr: int, labels: map<string, int>)
    ensures AssembleGroup(Syscall, operands, addr, labels) == Ok(SUBOP_SYSCALL)
  {
    PackR(0, 0, 0, 0, 0, SUBOP_SYSCALL);
  }

  /** The two-register branch group unfolded: registers first, then the
      target. */
  lemma Branch2Is(opcode: int, ops: string, addr: int, labels: map<string, int>)
    requires |Split(ops, ',')| >= 3 && RegAt(Split(ops, ','), 0).Ok? && RegAt(Split(ops, ','), 1).Ok?
    ensures var parts := Split(ops, ',');
      var off := BranchOffset(Strip(parts[2]), addr, labels);
      AssembleGroup(Branch2(opcode), ops, addr, labels)
        == if off.Ok? then Ok(EncodeI(opcode, ParseReg(parts[0]).value, ParseReg(parts[1]).value, off.value))
           else Err(off.error)
  {
    var parts := Split(ops, ',');
    Branch2Parts(opcode, ops, parts, ParseReg(parts[0]).value, ParseReg(parts[1]).value, addr, labels);
    assert AssembleGroup(Branch2(opcode), ops, addr, labels) == AssembleBranch2(opcode, ops, addr, labels);
  }

  /** `AssembleBranch2` with its operand list and registers already read. */
  lemma Branch2Parts(opcode: int, ops: string, parts: seq<string>, rs: int, rt: int, addr: int, labels: map<string, int>)
    requires parts == Split(ops, ',') && |parts| >= 3
    requires RegAt(parts, 0) == Ok(rs) && RegAt(parts, 1) == Ok(rt)
    ensures var off := BranchOffset(Strip(parts[2]), addr, labels);
      AssembleBranch2(opcode, ops, addr, labels)
        == if off.Ok? then Ok(EncodeI(opcode, rs, rt, off.value)) else Err(off.error)
  {
    assert PartAt(parts, 2) == Ok(parts[2]);
  }

  /** The one-register branch group unfolded. */
  lemma Branch1Is(opcode: int, ops: string, addr: int, labels: map<string, int>)
    requires |Split(ops, ',')| >= 2 && RegAt(Split(ops, ','), 0).Ok?
    ensures var parts := Split(ops, ',');
      var off := BranchOffset(Strip(parts[1]), addr, labels);
      AssembleGroup(Branch1(opcode), ops, addr, labels)
        == if off.Ok? then Ok(EncodeI(opcode, ParseReg(parts[0]).value, 0, off.value))
           else Err(off.error)
  {
    var parts := Split(ops, ',');
    Branch1Parts(opcode, ops, parts, ParseReg(parts[0]).value, addr, labels);
    assert AssembleGroup(Branch1(opcode), ops, addr, labels) == AssembleBranch1(opcode, ops, addr, labels);
  }

  /** `AssembleBranch1` with its operand list and register already read. */
  lemma Branch1Parts(opcode: int, ops: string, parts: seq<string>, rs: int, addr: int, labels: map<string, int>)
    requires parts == Split(ops, ',') && |parts| >= 2 && RegAt(parts, 0) == Ok(rs)
    ensures var off := BranchOffset(Strip(parts[1]), addr, labels);
      AssembleBranch1(opcode, ops, addr, labels)
        == if off.Ok? then Ok(EncodeI(opcode, rs, 0, off.value)) else Err(off.error)
  {
    assert PartAt(parts, 1) == Ok(parts[1]);
  }

  /** The branch word's low half is the offset; a label at the branch's own
      address gives -1, which is 0xFFFF. */
  lemma BranchWordFields(opcode: int, rs: int, rt: int, off: Result<int>, target: string, addr: int, labels: map<string, int>)
    requires 0 <= opcode < 64 && 0 <= rs < 32 && 0 <= rt < 32
    requires off == BranchOffset(target, addr, labels)
    ensures off.Ok? ==>
      var w := EncodeI(opcode, rs, rt, off.value);
      0 <= w < 0x1_0000_0000 && w / 0x400_0000 == opcode
      && (w / 0x20_0000) % 0x20 == rs && (w / 0x1_0000) % 0x20 == rt
      && w % 0x1_0000 == off.value % 0x1_0000
  {
    if off.Ok? {
      EncodeIFields(opcode, rs, rt, off.value);
    }
  }

  /** A label target gives the word offset from the next instruction; a
      branch to itself has offset -1, whose 16-bit pattern is 0xFFFF. */
  lemma BranchLabelOffset(target: string, addr: int, labels: map<string, int>)
    requires target in labels
    ensures BranchOffset(target, addr, labels) == Ok((labels[target] - (addr + 4)) / 4)
    ensures labels[target] == addr ==> BranchOffset(target, addr, labels).value % 0x1_0000 == 0xFFFF
  {
    if labels[target] == addr {
      assert labels[target] - (addr + 4) == -4;
    }
  }

  /** A branch with two registers: it assembles exactly when its target
      does, and the offset lands in the low 16 bits. A label target at the
      branch's own address gives the offset -1, which is 0xFFFF. */
  lemma Branch2Fields(opcode: int, ops: string, addr: int, labels: map<string, int>)
    requires 0 <= opcode < 64
    requires |Split(ops, ',')| >= 3 && RegAt(Split(ops, ','), 0).Ok? && RegAt(Split(ops, ','), 1).Ok?
    ensures var parts := Split(ops, ',');
      var target := Strip(parts[2]);
      var r := AssembleGroup(Branch2(opcode), ops, addr, labels);
      (r.Ok? <==> BranchOffset(target, addr, labels).Ok?)
      && (r.Ok? ==>
        r.value / 0x400_0000 == opcode
        && (r.value / 0x20_0000) % 0x20 == ParseReg(parts[0]).value
        && (r.value / 0x1_0000) % 0x20 == ParseReg(parts[1]).value
        && r.value % 0x1_0000 == BranchOffset(target, addr, labels).value % 0x1_0000)
      && (target in labels ==>
        r.Ok? && r.value % 0x1_0000 == ((labels[target] - (addr + 4)) / 4) % 0x1_0000
        && (labels[target] == addr ==> r.value % 0x1_0000 == 0xFFFF))
  {
    var parts := Split(ops, ',');
    Branch2Is(opcode, ops, addr, labels);
    BranchWordFields(opcode, ParseReg(parts[0]).value, ParseReg(parts[1]).value,
      BranchOffset(Strip(parts[2]), addr, labels), Strip(parts[2]), addr, labels);

    if Strip(parts[2]) in labels { BranchLabelOffset(Strip(parts[2]), addr, labels); }
  }

  /** A branch with one register (`bgtz`, `blez`): as `Branch2Fields`, with
      rt 0. */
  lemma Branch1Fields(opcode: int, ops: string, addr: int, labels: map<string, int>)
    requires 0 <= opcode < 64
    requires |Split(ops, ',')| >= 2 && RegAt(Split(ops, ','), 0).Ok?
    ensures var parts := Split(ops, ',');
      var target := Strip(parts[1]);
      var r := AssembleGroup(Branch1(opcode), ops, addr, labels);
      (r.Ok? <==> BranchOffset(target, addr, labels).Ok?)
      && (r.Ok? ==>
        r.value / 0x400_0000 == opcode
        && (r.value / 0x20_0000) % 0x20 == ParseReg(parts[0]).value
        && (r.value / 0x1_0000) % 0x20 == 0
        && r.value % 0x1_0000 == BranchOffset(target, addr, labels).value % 0x1_0000)
      && (target in labels ==>
        r.Ok? && r.value % 0x1_0000 == ((labels[target] - (addr + 4)) / 4) % 0x1_0000)
  {
    var parts := Split(ops, ',');
    Branch1Is(opcode, ops, addr, labels);
    BranchWordFields(opcode, ParseReg(parts[0]).value, 0,
      BranchOffset(Strip(parts[1]), addr, labels), Strip(parts[1]), addr, labels);

    if Strip(parts[1]) in labels { BranchLabelOffset(Strip(parts[1]), addr, labels); }
  }
  /** The jump group unfolded. */
  lemma JumpIs(opcode: int, ops: string, addr: int, labels: map<string, int>)
    ensures var a := JumpAddress(Strip(ops), labels);
      AssembleGroup(Jump(opcode), ops, addr, labels)
        == if a.Ok? then Ok(EncodeJ(opcode, a.value / 4)) else Err(a.error)
  {
  }

  /** A jump word keeps the opcode and the word address's low 26 bits. */
  lemma JumpWordFields(opcode: int, a: Result<int>)
    requires 0 <= opcode < 64
    ensures a.Ok? ==>
      var w := EncodeJ(opcode, a.value / 4);
      0 <= w < 0x1_0000_0000 && w / 0x400_0000 == opcode
      && w % 0x400_0000 == (a.value / 4) % 0x400_0000
  {
    if a.Ok? {
      EncodeJFields(opcode, a.value / 4);
    }
  }

  /** The I-type arithmetic group unfolded. */
  lemma ImmediateIs(opcode: int, ops: string, addr: int, labels: map<string, int>)
    requires |Split(ops, ',')| >= 3 && RegAt(Split(ops, ','), 0).Ok? && RegAt(Split(ops, ','), 1).Ok?
    ensures var parts := Split(ops, ',');
      var imm := ParseImm(parts[2]);
      AssembleGroup(Immediate(opcode), ops, addr, labels)
        == if imm.Ok? then Ok(EncodeI(opcode, ParseReg(parts[1]).value, ParseReg(parts[0]).value, imm.value))
           else Err(imm.error)
  {
    var parts := Split(ops, ',');
    ImmediateParts(opcode, ops, parts, ParseReg(parts[0]).value, ParseReg(parts[1]).value);
    assert AssembleGroup(Immediate(opcode), ops, addr, labels) == AssembleImmediate(opcode, ops);
  }

  /** `AssembleImmediate` with its operand list and registers already read. */
  lemma ImmediateParts(opcode: int, ops: string, parts: seq<string>, rt: int, rs: int)
    requires parts == Split(ops, ',') && |parts| >= 3
    requires RegAt(parts, 0) == Ok(rt) && RegAt(parts, 1) == Ok(rs)
    ensures var imm := ParseImm(parts[2]);
      AssembleImmediate(opcode, ops) == if imm.Ok? then Ok(EncodeI(opcode, rs, rt, imm.value)) else Err(imm.error)
  {
    assert ImmAt(parts, 2) == ParseImm(parts[2]);
  }

  /** `j`/`jal`: the low 26 bits hold the target address shifted right by 2;
      a label's address is used as is, other text as a literal address. */
  lemma JumpFields(opcode: int, ops: string, addr: int, labels: map<string, int>)
    requires 0 <= opcode < 64
    ensures var target := Strip(ops);
      var r := AssembleGroup(Jump(opcode), ops, addr, labels);
      (r.Ok? <==> JumpAddress(target, labels).Ok?)
      && (r.Ok? ==>
        0 <= r.value < 0x1_0000_0000 && r.value / 0x400_0000 == opcode
        && r.value % 0x400_0000 == (JumpAddress(target, labels).value / 4) % 0x400_0000)
      && (target in labels ==>
        r.Ok? && r.value % 0x400_0000 == (labels[target] / 4) % 0x400_0000)
  {
    var a := JumpAddress(Strip(ops), labels);
    JumpIs(opcode, ops, addr, labels);
    JumpWordFields(opcode, a);
  }

  /** An I-type arithmetic instruction keeps the immediate modulo 2^16;
      operands after the third are ignored. */
  lemma ImmediateFields(opcode: int, ops: string, addr: int, labels: map<string, int>)
    requires 0 <= opcode < 64
    requires |Split(ops, ',')| >= 3 && RegAt(Split(ops, ','), 0).Ok? && RegAt(Split(ops, ','), 1).Ok?
    ensures var parts := Split(ops, ',');
      var r := AssembleGroup(Immediate(opcode), ops, addr, labels);
      (r.Ok? <==> ParseImm(parts[2]).Ok?)
      && (r.Ok? ==>
        r.value / 0x400_0000 == opcode
        && (r.value / 0x20_0000) % 0x20 == ParseReg(parts[1]).value
        && (r.value / 0x1_0000) % 0x20 == ParseReg(parts[0]).value
        && r.value % 0x1_0000 == ParseImm(parts[2]).value % 0x1_0000)
  {
    var parts := Split(ops, ',');
    ImmediateIs(opcode, ops, addr, labels);
    if ParseImm(parts[2]).Ok? {
      EncodeIFields(opcode, ParseReg(parts[1]).value, ParseReg(parts[0]).value, ParseImm(parts[2]).value);
    }
  }

  /** `lui rt, imm`: it assembles exactly when rt and the immediate parse;
      rs is 0 and the low 16 bits hold the immediate. */
  lemma LuiFields(ops: string)
    ensures var parts := Split(ops, ',');
      var r := AssembleLui(ops);
      (r.Ok? <==> RegAt(parts, 0).Ok? && ImmAt(parts, 1).Ok?)
      && (RegAt(parts, 0).Err? ==> r == Err(RegAt(parts, 0).error))
      && (r.Ok? ==>
        0 <= r.value < 0x1_0000_0000 && r.value / 0x400_0000 == OP_LUI
        && (r.value / 0x20_0000) % 0x20 == 0
        && (r.value / 0x1_0000) % 0x20 == RegAt(parts, 0).value
        && r.value % 0x1_0000 == ImmAt(parts, 1).value % 0x1_0000)
  {
    var parts := Split(ops, ',');
    if RegAt(parts, 0).Ok? && ImmAt(parts, 1).Ok? {
      EncodeIFields(OP_LUI, 0, RegAt(parts, 0).value, ImmAt(parts, 1).value);
    }
  }

  /** `lw rt, offset(base)` and the other loads and stores: the operands
      are split at the first comma; the line assembles exactly when rt and
      the memory operand parse, and the word holds the base register as
      rs, rt, and the offset modulo 2^16. */
  lemma MemoryFields(opcode: int, ops: string)
    requires 0 <= opcode < 64
    ensures var parts := SplitOnce(ops, ',');
      var r := AssembleMemory(opcode, ops);
      (r.Ok? <==> RegAt(parts, 0).Ok? && |parts| == 2 && ParseMemoryOperand(parts[1]).Ok?)
      && (RegAt(parts, 0).Err? ==> r == Err(RegAt(parts, 0).error))
      && (RegAt(parts, 0).Ok? && |parts| == 1 ==> r == Err(MissingOperand))
      && (r.Ok? ==>
        var mem := ParseMemoryOperand(parts[1]).value;
        0 <= r.value < 0x1_0000_0000 && r.value / 0x400_0000 == opcode
        && (r.value / 0x20_0000) % 0x20 == mem.1
        && (r.value / 0x1_0000) % 0x20 == RegAt(parts, 0).value
        && r.value % 0x1_0000 == mem.0 % 0x1_0000)
  {
    var parts := SplitOnce(ops, ',');
    MemoryIs(opcode, ops, parts);
    if RegAt(parts, 0).Ok? && |parts| == 2 && ParseMemoryOperand(parts[1]).Ok? {
      var mem := ParseMemoryOperand(parts[1]).value;
      EncodeIFields(opcode, mem.1, RegAt(parts, 0).value, mem.0);
    }
  }

  /** `AssembleMemory` unfolded: rt first, then the second half, then the
      memory operand. */
  lemma MemoryIs(opcode: int, ops: string, parts: seq<string>)
    requires parts == SplitOnce(ops, ',')
    ensures AssembleMemory(opcode, ops)
      == if RegAt(parts, 0).Err? then Err(RegAt(parts, 0).error)
         else if |parts| == 1 then Err(MissingOperand)
         else if ParseMemoryOperand(parts[1]).Err? then Err(ParseMemoryOperand(parts[1]).error)
         else Ok(EncodeI(opcode, ParseMemoryOperand(parts[1]).value.1, RegAt(parts, 0).value,
                         ParseMemoryOperand(parts[1]).value.0))
  {
    if |parts| == 2 {
      assert PartAt(parts, 1) == Ok(parts[1]);
    }
  }

  /** `sll rd, rt, shamt`, `srl`, `sra`: exactly three operands are
      unpacked, and the word is the unchecked encoding of rt, rd and the
      amount; an amount in 0..31 lands in its own field with rs 0. */
  lemma ShiftFields(funct: int, ops: string)
    requires 0 <= funct < 64
    ensures var parts := Split(ops, ',');
      var r := AssembleShift(funct, ops);
      (|parts| != 3 ==> r == Err(WrongOperandCount))
      && (r.Ok? <==> |parts| == 3 && ParseReg(parts[0]).Ok? && ParseReg(parts[1]).Ok? && ParseImm(parts[2]).Ok?)
      && (r.Ok? ==> r == ShiftWordAsWritten(funct, ParseReg(parts[1]).value, ParseReg(parts[0]).value, ParseImm(parts[2]).value))
      && (r.Ok? && 0 <= ParseImm(parts[2]).value < 32 ==>
        0 <= r.value < 0x1_0000_0000 && r.value / 0x400_0000 == OP_SPECIAL
        && (r.value / 0x20_0000) % 0x20 == 0
        && (r.value / 0x1_0000) % 0x20 == ParseReg(parts[1]).value
        && (r.value / 0x800) % 0x20 == ParseReg(parts[0]).value
        && (r.value / 0x40) % 0x20 == ParseImm(parts[2]).value
        && r.value % 0x40 == funct)
  {
    var parts := Split(ops, ',');
    if |parts| == 3 && ParseReg(parts[0]).Ok? && ParseReg(parts[1]).Ok? && ParseImm(parts[2]).Ok? {
      var shamt := ParseImm(parts[2]).value;
      if 0 <= shamt < 32 {
        EncodeRFields(0, 0, ParseReg(parts[1]).value, ParseReg(parts[0]).value, shamt, funct);
      }
    }
  }

  /** `sllv rd, rt, rs` and the other variable shifts: three registers, of
      which the last is rs. */
  lemma VarShiftFields(funct: int, ops: string)
    requires 0 <= funct < 64
    ensures var parts := Split(ops, ',');
      var r := AssembleVarShift(funct, ops);
      (r.Ok? <==> |parts| == 3 && ParseReg(parts[0]).Ok? && ParseReg(parts[1]).Ok? && ParseReg(parts[2]).Ok?)
      && (r.Ok? ==>
        0 <= r.value < 0x1_0000_0000 && r.value / 0x400_0000 == OP_SPECIAL
        && (r.value / 0x20_0000) % 0x20 == ParseReg(parts[2]).value
        && (r.value / 0x1_0000) % 0x20 == ParseReg(parts[1]).value
        && (r.value / 0x800) % 0x20 == ParseReg(parts[0]).value
        && (r.value / 0x40) % 0x20 == 0
        && r.value % 0x40 == funct)
  {
    var parts := Split(ops, ',');
    if |parts| == 3 {
      assert parts == [parts[0], parts[1], parts[2]];
      ParseRegsThree(parts[0], parts[1], parts[2]);
      if ParseReg(parts[0]).Ok? && ParseReg(parts[1]).Ok? && ParseReg(parts[2]).Ok? {
        EncodeRFields(0, ParseReg(parts[2]).value, ParseReg(parts[1]).value, ParseReg(parts[0]).value, 0, funct);
      }
    }
  }

  /** `jr rs`: the whole operand text is the register. */
  lemma JrFields(ops: string)
    ensures var r := AssembleJr(ops);
      (r.Ok? <==> ParseReg(ops).Ok?)
      && (r.Ok? ==>
        0 <= r.value < 0x1_0000_0000 && r.value / 0x400_0000 == OP_SPECIAL
        && (r.value / 0x20_0000) % 0x20 == ParseReg(ops).value
        && (r.value / 0x1_0000) % 0x20 == 0 && (r.value / 0x800) % 0x20 == 0
        && (r.value / 0x40) % 0x20 == 0 && r.value % 0x40 == SUBOP_JR)
  {
    if ParseReg(ops).Ok? {
      EncodeRFields(0, ParseReg(ops).value, 0, 0, 0, SUBOP_JR);
    }
  }

  /** `mfhi rd`/`mflo rd` put their register in rd, `mthi rs`/`mtlo rs` in
      rs; the other register fields are 0. */
  lemma HiLoFields(funct: int, toRd: bool, ops: string)
    requires 0 <= funct < 64
    ensures var r := AssembleHiLo(funct, toRd, ops);
      (r.Ok? <==> ParseReg(ops).Ok?)
      && (r.Ok? ==>
        0 <= r.value < 0x1_0000_0000 && r.value / 0x400_0000 == OP_SPECIAL
        && (r.value / 0x20_0000) % 0x20 == (if toRd then 0 else ParseReg(ops).value)
        && (r.value / 0x1_0000) % 0x20 == 0
        && (r.value / 0x800) % 0x20 == (if toRd then ParseReg(ops).value else 0)
        && (r.value / 0x40) % 0x20 == 0 && r.value % 0x40 == funct)
  {
    if ParseReg(ops).Ok? {
      if toRd {
        EncodeRFields(0, 0, 0, ParseReg(ops).value, 0, funct);
      } else {
        EncodeRFields(0, ParseReg(ops).value, 0, 0, 0, funct);
      }
    }
  }

  /** `mult rs, rt`, `multu`, `div`, `divu`: two registers, rd 0. */
  lemma MulDivFields(funct: int, ops: string)
    requires 0 <= funct < 64
    ensures var parts := Split(ops, ',');
      var r := AssembleMulDiv(funct, ops);
      (r.Ok? <==> RegAt(parts, 0).Ok? && RegAt(parts, 1).Ok?)
      && (RegAt(parts, 0).Err? ==> r == Err(RegAt(parts, 0).error))
      && (r.Ok? ==>
        0 <= r.value < 0x1_0000_0000 && r.value / 0x400_0000 == OP_SPECIAL
        && (r.value / 0x20_0000) % 0x20 == RegAt(parts, 0).value
        && (r.value / 0x1_0000) % 0x20 == RegAt(parts, 1).value
        && (r.value / 0x800) % 0x20 == 0
        && (r.value / 0x40) % 0x20 == 0 && r.value % 0x40 == funct)
  {
    var parts := Split(ops, ',');
    if RegAt(parts, 0).Ok? && RegAt(parts, 1).Ok? {
      EncodeRFields(0, RegAt(parts, 0).value, RegAt(parts, 1).value, 0, 0, funct);
    }
  }

  /** The opcode or function value a group carries fits its 6-bit field. */
  predicate FieldsInRange(k: Mnemonic)
  {
    match k
    case Arith(f) => 0 <= f < 64
    case Shift(f) => 0 <= f < 64
    case VarShift(f) => 0 <= f < 64
    case HiLo(f, _) => 0 <= f < 64
    case MulDiv(f) => 0 <= f < 64
    case Immediate(o) => 0 <= o < 64
    case Memory(o) => 0 <= o < 64
    case Branch2(o) => 0 <= o < 64
    case Branch1(o) => 0 <= o < 64
    case Jump(o) => 0 <= o < 64
    case _ => true
  }

  /** Every entry of the mnemonic table carries in-range field values. */
  lemma MnemonicsInRange(m: string)
    ensures Mnemonics(m).Some? ==> FieldsInRange(Mnemonics(m).value)
  {
  }

  /** `assemble_instruction` raises the unknown-instruction error exactly
      when the lower-cased mnemonic is not in the table, and names it. */
  lemma UnknownMnemonic(mnemonic: string, ops: string, addr: int, labels: map<string, int>)
    ensures AssembleInstruction(mnemonic, ops, addr, labels) == Err(UnknownInstruction(Lower(mnemonic)))
      <==> Mnemonics(Lower(mnemonic)).None?
  {
    match Mnemonics(Lower(mnemonic))
    case None =>
    case Some(k) =>
  }

  /** A shift line whose amount parses to a value outside 0..31; the
      assembler packs it anyway (see `ShiftAmountSpillsIntoRd` and
      `NegativeShiftAmount`). */
  predicate OutOfRangeShift(k: Mnemonic, ops: string)
  {
    var parts := Split(ops, ',');
    k.Shift? && |parts| == 3 && ParseImm(parts[2]).Ok? && !(0 <= ParseImm(parts[2]).value < 32)
  }

  /** The register-operand R-type groups give 32-bit words when a shift
      amount is in range. */
  lemma RegisterGroupIsWord(k: Mnemonic, ops: string, addr: int, labels: map<string, int>)
    requires FieldsInRange(k) && (k.Arith? || k.Shift? || k.VarShift? || k.Jr? || k.Jalr? || k.Move?)
    requires !OutOfRangeShift(k, ops)
    ensures var r := AssembleGroup(k, ops, addr, labels);
      r.Ok? ==> 0 <= r.value < 0x1_0000_0000
  {
    var r := AssembleGroup(k, ops, addr, labels);
    if r.Ok? {
      var parts := Split(ops, ',');
      match k
      case Arith(f) =>
        var regs := ParseRegs(parts).value;
        EncodeRFields(0, regs[1], regs[2], regs[0], 0, f);
      case Shift(f) =>
        EncodeRFields(0, 0, ParseReg(parts[1]).value, ParseReg(parts[0]).value, ParseImm(parts[2]).value, f);
      case VarShift(f) =>
        var regs := ParseRegs(parts).value;
        EncodeRFields(0, regs[2], regs[1], regs[0], 0, f);
      case Jr =>
        EncodeRFields(0, ParseReg(ops).value, 0, 0, 0, SUBOP_JR);
      case Jalr =>
        if |parts| == 2 {
          EncodeRFields(0, ParseReg(parts[1]).value, 0, ParseReg(parts[0]).value, 0, SUBOP_JALR);
        } else {
          EncodeRFields(0, ParseReg(parts[0]).value, 0, 31, 0, SUBOP_JALR);
        }
      case Move =>
        EncodeRFields(0, RegAt(parts, 1).value, 0, RegAt(parts, 0).value, 0, SUBOP_ADDU);
    }
  }

  /** The HI/LO, multiply/divide, `syscall` and `nop` groups give 32-bit
      words. */
  lemma SpecialGroupIsWord(k: Mnemonic, ops: string, addr: int, labels: map<string, int>)
    requires FieldsInRange(k) && (k.HiLo? || k.MulDiv? || k.Syscall? || k.Nop?)
    ensures var r := AssembleGroup(k, ops, addr, labels);
      r.Ok? ==> 0 <= r.value < 0x1_0000_0000
  {
    var r := AssembleGroup(k, ops, addr, labels);
    if r.Ok? {
      var parts := Split(ops, ',');
      match k
      case HiLo(f, toRd) =>
        EncodeRFields(0, 0, 0, ParseReg(ops).value, 0, f);
        EncodeRFields(0, ParseReg(ops).value, 0, 0, 0, f);
      case MulDiv(f) =>
        EncodeRFields(0, RegAt(parts, 0).value, RegAt(parts, 1).value, 0, 0, f);
      case Syscall =>
        EncodeRFields(0, 0, 0, 0, 0, SUBOP_SYSCALL);
      case Nop =>
    }
  }

  /** The I-type and J-type groups give 32-bit words. */
  lemma ImmediateGroupIsWord(k: Mnemonic, ops: string, addr: int, labels: map<string, int>)
    requires FieldsInRange(k)
    requires k.Immediate? || k.Lui? || k.Memory? || k.Branch2? || k.Branch1? || k.Jump?
    ensures var r := AssembleGroup(k, ops, addr, labels);
      r.Ok? ==> 0 <= r.value < 0x1_0000_0000
  {
    var r := AssembleGroup(k, ops, addr, labels);
    if r.Ok? {
      var parts := Split(ops, ',');
      match k
      case Immediate(o) =>
        EncodeIFields(o, RegAt(parts, 1).value, RegAt(parts, 0).value, ImmAt(parts, 2).value);
      case Lui =>
        EncodeIFields(OP_LUI, 0, RegAt(parts, 0).value, ImmAt(parts, 1).value);
      case Memory(o) =>
        var halves := SplitOnce(ops, ',');
        var mem := ParseMemoryOperand(PartAt(halves, 1).value).value;
        EncodeIFields(o, mem.1, RegAt(halves, 0).value, mem.0);
      case Branch2(o) =>
        EncodeIFields(o, RegAt(parts, 0).value, RegAt(parts, 1).value,
          BranchOffset(Strip(parts[2]), addr, labels).value);
      case Branch1(o) =>
        EncodeIFields(o, RegAt(parts, 0).value, 0, BranchOffset(Strip(parts[1]), addr, labels).value);
      case Jump(o) =>
        EncodeJFields(o, JumpAddress(Strip(ops), labels).value / 4);
    }
  }

  /** A group with in-range field values assembles to a 32-bit word, unless
      it is a shift with an amount outside 0..31. */
  lemma GroupIsWord(k: Mnemonic, ops: string, addr: int, labels: map<string, int>)
    requires FieldsInRange(k) && !OutOfRangeShift(k, ops)
    ensures var r := AssembleGroup(k, ops, addr, labels);
      r.Ok? ==> 0 <= r.value < 0x1_0000_0000
  {
    if k.Arith? || k.Shift? || k.VarShift? || k.Jr? || k.Jalr? || k.Move? {
      RegisterGroupIsWord(k, ops, addr, labels);
    } else if k.HiLo? || k.MulDiv? || k.Syscall? || k.Nop? {
      SpecialGroupIsWord(k, ops, addr, labels);
    } else {
      ImmediateGroupIsWord(k, ops, addr, labels);
    }
  }

  /** Every word `assemble_instruction` produces fits in 32 bits, except
      for a shift whose amount is outside 0..31: that one is packed
      unchecked and may be negative or wider. */
  lemma AssembledIsWord(mnemonic: string, ops: string, addr: int, labels: map<string, int>)
    ensures var r := AssembleInstruction(mnemonic, ops, addr, labels);
      var k := Mnemonics(Lower(mnemonic));
      r.Ok? && !(k.Some? && OutOfRangeShift(k.value, ops)) ==> 0 <= r.value < 0x1_0000_0000
  {
    var m := Lower(mnemonic);
    MnemonicsInRange(m);
    if Mnemonics(m).Some? && !OutOfRangeShift(Mnemonics(m).value, ops) {
      GroupIsWord(Mnemonics(m).value, ops, addr, labels);
    }
  }
}
