/** The assembler and the pipeline's decode stage agree: a word the
    assembler packs from in-range fields decodes back to those fields, a
    branch to a label decodes to a branch whose destination is that label's
    address, and a jump to a label in the same 256 MB region decodes to a
    jump to it. */
module RoundTrip {
  import opened Bits
  import opened Isa
  import opened PipeOps
  import Encoding
  import Assembler
  import PyStr
  import Operands

  /** An R-type word decodes to its function code, shift amount and
      registers; a syscall reads $v0 and $v1 instead, and only JR and JALR
      are jumps. */
  lemma DecodeRType(pc: Word, rs: nat, rt: nat, rd: nat, shamt: nat, funct: nat)
    requires rs < 32 && rt < 32 && rd < 32 && shamt < 32 && funct < 64
    ensures var w := Encoding.EncodeR(OP_SPECIAL, rs, rt, rd, shamt, funct);
      0 <= w < TWO32 &&
      var d := DecodeOp(FetchedOp(pc, w));
      d.opcode == OP_SPECIAL && d.subop == funct && d.shamt == shamt && d.regDst == rd &&
      (funct != SUBOP_SYSCALL ==> d.regSrc1 == rs && d.regSrc2 == rt) &&
      (funct == SUBOP_SYSCALL ==> d.regSrc1 == 2 && d.regSrc2 == 3) &&
      d.isBranch == (funct == SUBOP_JR || funct == SUBOP_JALR)
  {
    Encoding.EncodeRFields(OP_SPECIAL, rs, rt, rd, shamt, funct);
  }

  /** The assembler's 16-bit immediate read back through decode's sign
      extension is the immediate itself when it fits in 16 signed bits. */
  lemma ImmediateRoundTrip(imm: int)
    requires -0x8000 <= imm < 0x8000
    ensures Signed(PipeOps.SignExtend16(imm % 0x1_0000)) == imm
  {
  }

  /** An I-type ALU, load or store word decodes to its opcode and
      registers (rt is the destination of an ALU op or a load and the data
      source of a store), with imm16 the immediate modulo 2^16. */
  lemma DecodeIType(pc: Word, opcode: int, rs: nat, rt: nat, imm: int)
    requires IsImmediateAlu(opcode) || IsLoad(opcode) || IsStore(opcode)
    requires rs < 32 && rt < 32
    ensures var w := Encoding.EncodeI(opcode, rs, rt, imm);
      0 <= w < TWO32 &&
      var d := DecodeOp(FetchedOp(pc, w));
      d.opcode == opcode && d.regSrc1 == rs && d.imm16 == imm % 0x1_0000 &&
      (-0x8000 <= imm < 0x8000 ==> Signed(d.seImm16) == imm) &&
      (IsStore(opcode) ==> d.isMem && d.memWrite && d.regSrc2 == rt && d.regDst == -1) &&
      (IsLoad(opcode) ==> d.isMem && !d.memWrite && d.regDst == rt) &&
      (IsImmediateAlu(opcode) ==> !d.isMem && d.regDst == rt)
  {
    Encoding.EncodeIFields(opcode, rs, rt, imm);
    var w := Encoding.EncodeI(opcode, rs, rt, imm);
    assert OpcodeOf(w) == opcode && RsOf(w) == rs && RtOf(w) == rt && Imm16Of(w) == imm % 0x1_0000;
    DecodeImmediateOp(FetchedOp(pc, w));
    if -0x8000 <= imm < 0x8000 {
      ImmediateRoundTrip(imm);
    }
  }

  /** The assembler's word offset from the next instruction, masked to 16
      bits and sign-extended again by decode, leads the branch back to its
      target when the distance is a multiple of four and fits. */
  lemma BranchOffsetRoundTrip(pc: Word, target: Word)
    requires (target - (pc + 4)) % 4 == 0 && -0x8000 <= (target - (pc + 4)) / 4 < 0x8000
    ensures BranchTarget(pc, PipeOps.SignExtend16(((target - (pc + 4)) / 4) % 0x1_0000)) == target
  {
    var off := (target - (pc + 4)) / 4;
    var se := PipeOps.SignExtend16(off % 0x1_0000);
    ImmediateRoundTrip(off);
    BranchTargetIsOffset(pc, se);
    assert pc + 4 + 4 * off == target;
  }

  /** A conditional branch packed with the word offset from the next
      instruction to `target` decodes to a branch to `target`, as long as
      the distance is a multiple of four and the offset fits in 16 bits. */
  lemma DecodeBranch(pc: Word, opcode: int, rs: nat, rt: nat, target: Word)
    requires IsBranchOpcode(opcode) && rs < 32 && rt < 32
    requires (target - (pc + 4)) % 4 == 0 && -0x8000 <= (target - (pc + 4)) / 4 < 0x8000
    ensures var w := Encoding.EncodeI(opcode, rs, rt, (target - (pc + 4)) / 4);
      0 <= w < TWO32 &&
      var d := DecodeOp(FetchedOp(pc, w));
      d.opcode == opcode && d.isBranch && d.branchCond && !d.branchTaken &&
      d.regSrc1 == rs && d.regSrc2 == rt && d.branchDest == target
  {
    var off := (target - (pc + 4)) / 4;
    Encoding.EncodeIFields(opcode, rs, rt, off);
    var w := Encoding.EncodeI(opcode, rs, rt, off);
    assert OpcodeOf(w) == opcode && RsOf(w) == rs && RtOf(w) == rt && Imm16Of(w) == off % 0x1_0000;
    DecodeBranchOp(FetchedOp(pc, w));
    BranchOffsetRoundTrip(pc, target);
  }

  /** A jump packed with `target / 4` decodes to a taken jump to `target`
      when the target is word-aligned and in the jump's 256 MB region;
      `jal` also links the next address into $ra. */
  lemma DecodeJump(pc: Word, opcode: int, target: Word)
    requires opcode == OP_J || opcode == OP_JAL
    requires target % 4 == 0 && target / 0x1000_0000 == pc / 0x1000_0000
    ensures var w := Encoding.EncodeJ(opcode, target / 4);
      0 <= w < TWO32 &&
      var d := DecodeOp(FetchedOp(pc, w));
      d.opcode == opcode && d.isBranch && d.branchTaken && !d.branchCond && d.branchDest == target &&
      (opcode == OP_JAL ==> d.regDst == 31 && d.regDstValue == Wrap(pc + 4) && d.regDstValueReady) &&
      (opcode == OP_J ==> d.regDst == -1)
  {
    var q := target / 4;
    var w := Encoding.EncodeJ(opcode, q);
    assert 0 <= w < TWO32 && OpcodeOf(w) == opcode && (pc / 0x1000_0000) * 0x1000_0000 + TargOf(w) == target by {
      Encoding.EncodeJFields(opcode, q);
      JumpRegionArith(pc, target);
    }
    DecodeJumpWord(pc, w, target);
  }

  /** A jump word whose target field leads from pc's region to `target`
      decodes to a taken jump there. */
  lemma DecodeJumpWord(pc: Word, w: Word, target: Word)
    requires OpcodeOf(w) == OP_J || OpcodeOf(w) == OP_JAL
    requires (pc / 0x1000_0000) * 0x1000_0000 + TargOf(w) == target
    ensures var d := DecodeOp(FetchedOp(pc, w));
      d.opcode == OpcodeOf(w) && d.isBranch && d.branchTaken && !d.branchCond && d.branchDest == target &&
      (OpcodeOf(w) == OP_JAL ==> d.regDst == 31 && d.regDstValue == Wrap(pc + 4) && d.regDstValueReady) &&
      (OpcodeOf(w) == OP_J ==> d.regDst == -1)
  {
    DecodeJumpOp(FetchedOp(pc, w));
  }

  /** The region of pc with the low 28 bits of a word-aligned target in
      the same region is the target. */
  lemma JumpRegionArith(pc: Word, target: Word)
    requires target % 4 == 0 && target / 0x1000_0000 == pc / 0x1000_0000
    ensures (pc / 0x1000_0000) * 0x1000_0000 + ((target / 4) % 0x400_0000) * 4 == target
  {
    var q := target / 4;
    DivParts(q, 0x400_0000);
    DivModUnique(target, 0x1000_0000, q / 0x400_0000, (q % 0x400_0000) * 4);
    DivParts(target, 0x1000_0000);
  }

  /** `beq rs, rt, label` (and `bne`) assembled at `addr` decodes to a
      branch to the label's address, given the distance fits the offset
      field. */
  lemma BranchToLabel(opcode: int, ops: string, addr: Word, labels: map<string, int>)
    requires opcode == OP_BEQ || opcode == OP_BNE
    requires |PyStr.Split(ops, ',')| >= 3
    requires Assembler.RegAt(PyStr.Split(ops, ','), 0).Ok? && Assembler.RegAt(PyStr.Split(ops, ','), 1).Ok?
    requires var t := PyStr.Strip(PyStr.Split(ops, ',')[2]);
      t in labels && 0 <= labels[t] < TWO32 &&
      (labels[t] - (addr + 4)) % 4 == 0 && -0x8000 <= (labels[t] - (addr + 4)) / 4 < 0x8000
    ensures var r := Assembler.AssembleGroup(Assembler.Branch2(opcode), ops, addr, labels);
      var parts := PyStr.Split(ops, ',');
      r.Ok? && 0 <= r.value < TWO32 &&
      var d := DecodeOp(FetchedOp(addr, r.value));
      d.branchDest == labels[PyStr.Strip(parts[2])] &&
      d.regSrc1 == Operands.ParseReg(parts[0]).value && d.regSrc2 == Operands.ParseReg(parts[1]).value
  {
    var parts := PyStr.Split(ops, ',');
    var rs, rt := Operands.ParseReg(parts[0]).value, Operands.ParseReg(parts[1]).value;
    var t := PyStr.Strip(parts[2]);
    assert Operands.ParseReg(parts[0]) == Assembler.RegAt(parts, 0) && Operands.ParseReg(parts[1]) == Assembler.RegAt(parts, 1);
    assert IsBranchOpcode(opcode) && rs < 32 && rt < 32;
    var w := Encoding.EncodeI(opcode, rs, rt, (labels[t] - (addr + 4)) / 4);
    Branch2Word(opcode, ops, addr, labels, t);
    assert 0 <= w < TWO32 && var d := DecodeOp(FetchedOp(addr, w));
      d.branchDest == labels[t] && d.regSrc1 == rs && d.regSrc2 == rt by {
      DecodeBranch(addr, opcode, rs, rt, labels[t]);
    }
  }

  /** The word a two-register branch to a label assembles to. */
  lemma Branch2Word(opcode: int, ops: string, addr: Word, labels: map<string, int>, t: string)
    requires |PyStr.Split(ops, ',')| >= 3
    requires Assembler.RegAt(PyStr.Split(ops, ','), 0).Ok? && Assembler.RegAt(PyStr.Split(ops, ','), 1).Ok?
    requires t == PyStr.Strip(PyStr.Split(ops, ',')[2]) && t in labels
    ensures var parts := PyStr.Split(ops, ',');
      Assembler.AssembleGroup(Assembler.Branch2(opcode), ops, addr, labels)
        == Operands.Ok(Encoding.EncodeI(opcode, Operands.ParseReg(parts[0]).value, Operands.ParseReg(parts[1]).value,
                                        (labels[t] - (addr + 4)) / 4))
  {
    Assembler.Branch2Is(opcode, ops, addr, labels);
    Assembler.BranchLabelOffset(t, addr, labels);
  }

  /** `j label` and `jal label` assembled at `addr` decode to a jump to the
      label's address when it is word-aligned and in the same region. */
  lemma JumpToLabel(opcode: int, ops: string, addr: Word, labels: map<string, int>)
    requires opcode == OP_J || opcode == OP_JAL
    requires var t := PyStr.Strip(ops);
      t in labels && 0 <= labels[t] < TWO32 && labels[t] % 4 == 0 &&
      labels[t] / 0x1000_0000 == addr / 0x1000_0000
    ensures var r := Assembler.AssembleGroup(Assembler.Jump(opcode), ops, addr, labels);
      r.Ok? && 0 <= r.value < TWO32 &&
      DecodeOp(FetchedOp(addr, r.value)).branchDest == labels[PyStr.Strip(ops)]
  {
    Assembler.JumpIs(opcode, ops, addr, labels);
    DecodeJump(addr, opcode, labels[PyStr.Strip(ops)]);
  }
}
