/** Opcode and function-field values of the MIPS32 instruction set (MIPS32
    Architecture For Programmers, Volume II), shared by the assembler and the
    pipeline. */
module Isa {

  // Primary opcodes, bits 31..26.
  const OP_SPECIAL: int := 0x00
  const OP_BRSPEC: int := 0x01
  const OP_J: int := 0x02
  const OP_JAL: int := 0x03
  const OP_BEQ: int := 0x04
  const OP_BNE: int := 0x05
  const OP_BLEZ: int := 0x06
  const OP_BGTZ: int := 0x07
  const OP_ADDI: int := 0x08
  const OP_ADDIU: int := 0x09
  const OP_SLTI: int := 0x0A
  const OP_SLTIU: int := 0x0B
  const OP_ANDI: int := 0x0C
  const OP_ORI: int := 0x0D
  const OP_XORI: int := 0x0E
  const OP_LUI: int := 0x0F
  const OP_LB: int := 0x20
  const OP_LH: int := 0x21
  const OP_LW: int := 0x23
  const OP_LBU: int := 0x24
  const OP_LHU: int := 0x25
  const OP_SB: int := 0x28
  const OP_SH: int := 0x29
  const OP_SW: int := 0x2B

  // Function field of SPECIAL instructions, bits 5..0.
  const SUBOP_SLL: int := 0x00
  const SUBOP_SRL: int := 0x02
  const SUBOP_SRA: int := 0x03
  const SUBOP_SLLV: int := 0x04
  const SUBOP_SRLV: int := 0x06
  const SUBOP_SRAV: int := 0x07
  const SUBOP_JR: int := 0x08
  const SUBOP_JALR: int := 0x09
  const SUBOP_SYSCALL: int := 0x0C
  const SUBOP_MFHI: int := 0x10
  const SUBOP_MTHI: int := 0x11
  const SUBOP_MFLO: int := 0x12
  const SUBOP_MTLO: int := 0x13
  const SUBOP_MULT: int := 0x18
  const SUBOP_MULTU: int := 0x19
  const SUBOP_DIV: int := 0x1A
  const SUBOP_DIVU: int := 0x1B
  const SUBOP_ADD: int := 0x20
  const SUBOP_ADDU: int := 0x21
  const SUBOP_SUB: int := 0x22
  const SUBOP_SUBU: int := 0x23
  const SUBOP_AND: int := 0x24
  const SUBOP_OR: int := 0x25
  const SUBOP_XOR: int := 0x26
  const SUBOP_NOR: int := 0x27
  const SUBOP_SLT: int := 0x2A
  const SUBOP_SLTU: int := 0x2B

  // The rt field of REGIMM (BRSPEC) branches, bits 20..16.
  const BROP_BLTZ: int := 0x00
  const BROP_BGEZ: int := 0x01
  const BROP_BLTZAL: int := 0x10
  const BROP_BGEZAL: int := 0x11

  /** The text segment where programs are loaded and where execution starts. */
  const TEXT_BASE: int := 0x0040_0000
}
