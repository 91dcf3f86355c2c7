/** The ops that flow through the pipeline (`Pipe_Op`) and the decode
    stage's reading of an instruction word into them. */
module PipeOps {
  import opened Bits
  import opened Isa

  /** A register index an op carries: 0..31, or -1 when it has none. */
  type RegIndex = x: int | -1 <= x < 32

  /** A shift amount as decode extracts it: five bits. */
  type Shamt = x: int | 0 <= x < 32

  /** `Pipe_Op`: the raw instruction, its decoded fields, and the values
      collected as it moves down the pipeline. The source's 0/1 `int`
      flags are booleans. */
  datatype PipeOp = PipeOp(
    pc: Word, instruction: Word, opcode: int, subop: int,
    imm16: Word, seImm16: Word, shamt: Shamt,
    regSrc1: RegIndex, regSrc2: RegIndex, regSrc1Value: Word, regSrc2Value: Word,
    isMem: bool, memAddr: Word, memWrite: bool, memValue: Word,
    regDst: RegIndex, regDstValue: Word, regDstValueReady: bool,
    isBranch: bool, branchDest: Word, branchCond: bool, branchTaken: bool,
    isLink: bool, linkReg: int)

  /** The op fetch sends down: `Pipe_Op()` (no registers, every other
      field zero) with the fetched word and its address filled in. */
  function FetchedOp(pc: Word, instruction: Word): (op: PipeOp)
    ensures op.regSrc1 == -1 && op.regSrc2 == -1 && op.regDst == -1
    ensures !op.isBranch && !op.branchTaken && !op.isMem && !op.regDstValueReady
  {
    PipeOp(pc, instruction, 0, 0, 0, 0, 0, -1, -1, 0, 0,
      false, 0, false, 0, -1, 0, false, false, 0, false, false, false, 0)
  }

  // ---------------------------------------------------------------------
  // Fields of an instruction word (pipe.cpp, decode): `(instr >> k) &
  // mask`, written as division and remainder; FieldsAreShiftMasks below
  // connects the two.
  // ---------------------------------------------------------------------

  function OpcodeOf(w: Word): (r: nat) ensures r < 64 { (w / 0x400_0000) % 0x40 }
  function RsOf(w: Word): (r: nat) ensures r < 32 { (w / 0x20_0000) % 0x20 }
  function RtOf(w: Word): (r: nat) ensures r < 32 { (w / 0x1_0000) % 0x20 }
  function RdOf(w: Word): (r: nat) ensures r < 32 { (w / 0x800) % 0x20 }
  function ShamtOf(w: Word): (r: nat) ensures r < 32 { (w / 0x40) % 0x20 }
  function FunctOf(w: Word): (r: nat) ensures r < 64 { w % 0x40 }
  function Imm16Of(w: Word): (r: nat) ensures r < 0x1_0000 { w % 0x1_0000 }

  /** `targ`: the 26-bit target field shifted left by 2. */
  function TargOf(w: Word): (r: nat)
    ensures r < 0x1000_0000 && r % 4 == 0
  {
    (w % 0x400_0000) * 4
  }

  /** `se_imm16`: imm16 with bits 16..31 copied from bit 15. */
  function SignExtend16(imm16: int): (r: Word)
    requires 0 <= imm16 < 0x1_0000
    ensures r % 0x1_0000 == imm16
    ensures Signed(r) == (if imm16 < 0x8000 then imm16 else imm16 - 0x1_0000)
  {
    if imm16 < 0x8000 then imm16 else imm16 + 0xFFFF_0000
  }

  /** A conditional branch's destination `pc + 4 + (se_imm16 << 2)`, in
      unsigned 32-bit arithmetic. */
  function BranchTarget(pc: Word, seImm16: Word): Word
  {
    Wrap(pc + 4 + Wrap(seImm16 * 4))
  }

  /** A jump's destination `(pc & 0xF0000000) | targ`: the target field
      replaces the low 28 bits of the jump's own address. */
  function JumpTarget(pc: Word, w: Word): (r: Word)
    ensures r / 0x1000_0000 == pc / 0x1000_0000 && r % 0x1000_0000 == TargOf(w)
  {
    var r := (pc / 0x1000_0000) * 0x1000_0000 + TargOf(w);
    DivModUnique(r, 0x1000_0000, pc / 0x1000_0000, TargOf(w));
    r
  }

  predicate IsLoad(opcode: int)
  {
    opcode == OP_LW || opcode == OP_LH || opcode == OP_LHU || opcode == OP_LB || opcode == OP_LBU
  }

  predicate IsStore(opcode: int)
  {
    opcode == OP_SW || opcode == OP_SH || opcode == OP_SB
  }

  /** The opcodes decode treats as I-type ALU instructions. */
  predicate IsImmediateAlu(opcode: int)
  {
    opcode == OP_ADDI || opcode == OP_ADDIU || opcode == OP_SLTI || opcode == OP_SLTIU
    || opcode == OP_ANDI || opcode == OP_ORI || opcode == OP_XORI || opcode == OP_LUI
  }

  /** The conditional branches: decode computes their destination and reads rs and rt, and execute decides whether they are taken. */
  predicate IsBranchOpcode(opcode: int)
  {
    opcode == OP_BEQ || opcode == OP_BNE || opcode == OP_BLEZ || opcode == OP_BGTZ
  }

  /** The decode stage's work on one op: every format's fields, then the
      source and destination registers, branch information and memory
      direction its opcode calls for. Unknown opcodes keep only the
      fields. */
  function DecodeOp(op: PipeOp): PipeOp
  {
    var w := op.instruction;
    var opcode := OpcodeOf(w);
    var base := op.(opcode := opcode, imm16 := Imm16Of(w), seImm16 := SignExtend16(Imm16Of(w)), shamt := ShamtOf(w));
    if opcode == OP_SPECIAL then DecodeSpecial(base)
    else if opcode == OP_BRSPEC then DecodeRegImm(base)
    else if opcode == OP_JAL || opcode == OP_J then DecodeJType(base)
    else if IsBranchOpcode(opcode) then
      base.(isBranch := true, branchCond := true, branchDest := BranchTarget(op.pc, base.seImm16),
        regSrc1 := RsOf(w), regSrc2 := RtOf(w))
    else if IsImmediateAlu(opcode) then
      base.(regSrc1 := RsOf(w), regDst := RtOf(w))
    else if IsLoad(opcode) then
      base.(isMem := true, regSrc1 := RsOf(w), memWrite := false, regDst := RtOf(w))
    else if IsStore(opcode) then
      base.(isMem := true, regSrc1 := RsOf(w), memWrite := true, regSrc2 := RtOf(w))
    else
      base
  }

  /** Decode of an R-type op: registers and function code; a syscall reads
      $v0 and $v1; JR and JALR are unconditional branches. */
  function DecodeSpecial(base: PipeOp): PipeOp
  {
    var w := base.instruction;
    var funct := FunctOf(w);
    var o := base.(regSrc1 := RsOf(w), regSrc2 := RtOf(w), regDst := RdOf(w), subop := funct);
    var o' := if funct == SUBOP_SYSCALL then o.(regSrc1 := 2, regSrc2 := 3) else o;
    if funct == SUBOP_JR || funct == SUBOP_JALR then o'.(isBranch := true, branchCond := false) else o'
  }

  /** Decode of the REGIMM group (BLTZ, BGEZ and their linking forms). */
  function DecodeRegImm(base: PipeOp): PipeOp
  {
    var w := base.instruction;
    var rt := RtOf(w);
    var o := base.(isBranch := true, regSrc1 := RsOf(w), regSrc2 := rt, branchCond := true,
      branchDest := BranchTarget(base.pc, base.seImm16), subop := rt);
    if rt == BROP_BLTZAL || rt == BROP_BGEZAL then
      o.(regDst := 31, regDstValue := Wrap(base.pc + 4), regDstValueReady := true)
    else o
  }

  /** Decode of `j` and `jal`. */
  function DecodeJType(base: PipeOp): PipeOp
  {
    // `jal` sets the link and falls through to `j`.
    var o := if base.opcode == OP_JAL then base.(regDst := 31, regDstValue := Wrap(base.pc + 4), regDstValueReady := true) else base;
    o.(isBranch := true, branchCond := false, branchTaken := true, branchDest := JumpTarget(base.pc, base.instruction))
  }

  // ---------------------------------------------------------------------
  // Properties of decode
  // ---------------------------------------------------------------------

  /** Decode of a conditional branch: the registers it compares and its
      PC-relative destination; whether it is taken is left to execute. */
  lemma DecodeBranchOp(op: PipeOp)
    requires IsBranchOpcode(OpcodeOf(op.instruction))
    ensures var w, d := op.instruction, DecodeOp(op);
      d.opcode == OpcodeOf(w) && d.isBranch && d.branchCond && d.branchTaken == op.branchTaken &&
      d.regSrc1 == RsOf(w) && d.regSrc2 == RtOf(w) && d.regDst == op.regDst &&
      d.branchDest == BranchTarget(op.pc, SignExtend16(Imm16Of(w)))
  {
  }

  /** Decode of `j` and `jal`: a taken jump into the same 256 MB region;
      `jal` links the next address into $ra. */
  lemma DecodeJumpOp(op: PipeOp)
    requires OpcodeOf(op.instruction) == OP_J || OpcodeOf(op.instruction) == OP_JAL
    ensures var w, d := op.instruction, DecodeOp(op);
      d.opcode == OpcodeOf(w) && d.isBranch && d.branchTaken && !d.branchCond &&
      d.branchDest == JumpTarget(op.pc, w) &&
      (OpcodeOf(w) == OP_JAL ==> d.regDst == 31 && d.regDstValue == Wrap(op.pc + 4) && d.regDstValueReady) &&
      (OpcodeOf(w) == OP_J ==> d.regDst == op.regDst)
  {
  }

  /** Decode of an I-type ALU op, load or store: rs is the base or first
      source; rt the destination, except for a store, where it is the data
      source. */
  lemma DecodeImmediateOp(op: PipeOp)
    requires var c := OpcodeOf(op.instruction); IsImmediateAlu(c) || IsLoad(c) || IsStore(c)
    ensures var w, d := op.instruction, DecodeOp(op);
      var c := OpcodeOf(w);
      d.opcode == c && d.regSrc1 == RsOf(w) && d.imm16 == Imm16Of(w) && d.seImm16 == SignExtend16(Imm16Of(w)) &&
      (IsStore(c) ==> d.isMem && d.memWrite && d.regSrc2 == RtOf(w) && d.regDst == op.regDst) &&
      (IsLoad(c) ==> d.isMem && !d.memWrite && d.regDst == RtOf(w) && d.regSrc2 == op.regSrc2) &&
      (IsImmediateAlu(c) ==> d.isMem == op.isMem && d.regDst == RtOf(w) && d.regSrc2 == op.regSrc2)
  {
  }

  /** The division-and-remainder fields are the source's shift-and-mask
      expressions. */
  lemma FieldsAreShiftMasks(w: Word)
    ensures OpcodeOf(w) == And(Shr32(w, 26), 0x3F)
    ensures RsOf(w) == And(Shr32(w, 21), 0x1F)
    ensures RtOf(w) == And(Shr32(w, 16), 0x1F)
    ensures RdOf(w) == And(Shr32(w, 11), 0x1F)
    ensures ShamtOf(w) == And(Shr32(w, 6), 0x1F)
    ensures FunctOf(w) == And(w, 0x3F)
    ensures Imm16Of(w) == And(w, 0xFFFF)
    ensures TargOf(w) == And(w, 0x3FF_FFFF) * 4
  {
    Pow2Table();
    AndLowMask(w / Pow2(26), 6);
    AndLowMask(w / Pow2(21), 5);
    AndLowMask(w / Pow2(16), 5);
    AndLowMask(w / Pow2(11), 5);
    AndLowMask(w / Pow2(6), 5);
    AndLowMask(w, 6);
    AndLowMask(w, 16);
    AndLowMask(w, 26);
  }

  /** `imm16 & 0x8000` tests bit 15. */
  lemma SignBitIsMask(imm16: int)
    requires 0 <= imm16 < 0x1_0000
    ensures And(imm16, 0x8000) == (imm16 / 0x8000) * 0x8000
  {
    Pow2Table();
    var h, l := imm16 / 0x8000, imm16 % 0x8000;
    AndShift(imm16, 0x8000, 15);
    AndZero(l);
    assert And(h, 1) == h by {
      assert h == 0 || h == 1;
    }
    AndNonneg(imm16, 0x8000);
    DivParts(And(imm16, 0x8000), 0x8000);
  }

  /** OR with an odd number keeps it when the other operand is 1. */
  lemma OrOneOdd(x: nat)
    requires x % 2 == 1
    ensures Or(1, x) == x
  {
    OrStep(1, x);
    OrZero(x / 2);
  }

  /** `imm16 | 0xFFFF8000` with bit 15 set fills bits 16..31. */
  lemma SignFill(imm16: int)
    requires 0x8000 <= imm16 < 0x1_0000
    ensures Or(imm16, 0xFFFF_8000) == imm16 + 0xFFFF_0000
  {
    Pow2Table();
    var l := imm16 % 0x8000;
    assert imm16 / 0x8000 == 1;
    OrShift(imm16, 0xFFFF_8000, 15);
    OrZero(l);
    OrOneOdd(0x1_FFFF);
    OrNonneg(imm16, 0xFFFF_8000);
    DivParts(Or(imm16, 0xFFFF_8000), 0x8000);
  }

  /** `imm16 | ((imm16 & 0x8000) ? 0xFFFF8000 : 0)` is the sign extension. */
  lemma SignExtendIsMask(imm16: int)
    requires 0 <= imm16 < 0x1_0000
    ensures And(imm16, 0x8000) != 0 <==> imm16 >= 0x8000
    ensures SignExtend16(imm16) == Or(imm16, if And(imm16, 0x8000) != 0 then 0xFFFF_8000 else 0)
  {
    SignBitIsMask(imm16);
    if imm16 >= 0x8000 {
      SignFill(imm16);
    } else {
      OrZero(imm16);
    }
  }

  /** A branch's destination is the address after it plus four times the
      signed offset, modulo 2^32. */
  lemma BranchTargetIsOffset(pc: Word, seImm16: Word)
    ensures BranchTarget(pc, seImm16) == Wrap(pc + 4 + 4 * Signed(seImm16))
  {
    var s := Signed(seImm16);
    assert seImm16 == s || seImm16 == s + TWO32;
    assert Wrap(seImm16 * 4) == Wrap(4 * s) by {
      if seImm16 != s {
        assert seImm16 * 4 == 4 * s + 4 * TWO32;
      }
    }
    var k := (pc + 4 + Wrap(4 * s)) - (pc + 4 + 4 * s);
    assert k == Wrap(4 * s) - 4 * s;
    DivParts(4 * s, TWO32);
    assert k % TWO32 == 0;
    ModShift(pc + 4 + 4 * s, k / TWO32);
  }

  /** `(pc & 0xF0000000) | targ` is the jump target: the region of pc and
      the 28 bits of targ. */
  lemma JumpTargetIsMask(pc: Word, w: Word)
    ensures JumpTarget(pc, w) == Or(And(pc, 0xF000_0000), TargOf(w))
  {
    var p := 0x1000_0000;
    var h := pc / p;
    assert Pow2(28) == p && Pow2(4) == 16 by {
      Pow2Table();
      Pow2Add(2, 2);
    }
    DivAtMost(pc, p);
    ClearLowBits(pc, 0xF000_0000, 28, 4);
    DivParts(pc, p);
    assert (h * p) % Pow2(28) == 0 by {
      DivModUniqueQ(h * p, p, h, 0);
    }
    OrDisjoint(h * p, TargOf(w), 28);
  }


}
