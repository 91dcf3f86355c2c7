/** The assembler's bit packing of the three MIPS32 instruction formats
    (MIPS32 Architecture For Programmers, Volume II, section 2.2):

      R-type  opcode(31..26) rs(25..21) rt(20..16) rd(15..11) shamt(10..6) funct(5..0)
      I-type  opcode(31..26) rs(25..21) rt(20..16) immediate(15..0)
      J-type  opcode(31..26) target(25..0)

    The encoders are written with Python's unbounded `<<` and `|`, so they are
    defined for every integer argument; the lemmas say what they produce when
    the fields are in range. */
module Encoding {
  import opened Bits

  /** `sign_extend_16`: despite its name it masks to the low 16 bits, so a
      negative immediate becomes its 16-bit two's-complement pattern. */
  function SignExtend16(v: int): (r: int)
    ensures 0 <= r < 0x1_0000
    ensures r == v % 0x1_0000
  {
    AndLowMask(v, 16);
    Pow2Table();
    And(v, 0xFFFF)
  }

  /** `encode_r_type`. */
  function EncodeR(opcode: int, rs: int, rt: int, rd: int, shamt: int, funct: int): int
  {
    Or(Or(Or(Or(Or(opcode * 0x400_0000, rs * 0x20_0000), rt * 0x1_0000), rd * 0x800), shamt * 0x40), funct)
  }

  /** `encode_i_type`. */
  function EncodeI(opcode: int, rs: int, rt: int, imm: int): int
  {
    Or(Or(Or(opcode * 0x400_0000, rs * 0x20_0000), rt * 0x1_0000), SignExtend16(imm))
  }

  /** `encode_j_type`: the target keeps its low 26 bits. */
  function EncodeJ(opcode: int, target: int): int
  {
    Or(opcode * 0x400_0000, And(target, 0x3FF_FFFF))
  }

  /** OR with a value whose set bits all lie below the low set bit of the
      other is addition. */
  lemma OrAbove(a: int, q: nat, b: nat, k: nat)
    requires a == q * Pow2(k) && b < Pow2(k)
    ensures Or(a, b) == a + b
  {
    MulNonneg(q, Pow2(k));
    DivModUniqueQ(a, Pow2(k), q, 0);
    OrDisjoint(a, b, k);
  }

  /** Bits `k .. k+width-1` of a word assembled from a high part, a field of
      width bits and a low part below 2^k. */
  lemma FieldOfPacked(w: int, hi: nat, f: nat, lo: nat, k: nat, width: nat)
    requires f < Pow2(width) && lo < Pow2(k)
    requires w == (hi * Pow2(width) + f) * Pow2(k) + lo
    ensures (w / Pow2(k)) % Pow2(width) == f
    ensures w / Pow2(k) / Pow2(width) == hi
  {
    DivModUniqueQ(w, Pow2(k), hi * Pow2(width) + f, lo);
    DivModUniqueQ(hi * Pow2(width) + f, Pow2(width), hi, f);
  }

  /** The opcode, rs and rt fields, shared by the R and I formats. */
  lemma PackTop(opcode: int, rs: int, rt: int)
    requires 0 <= opcode < 64 && 0 <= rs < 32 && 0 <= rt < 32
    ensures Or(Or(opcode * 0x400_0000, rs * 0x20_0000), rt * 0x1_0000)
      == (opcode * 0x400 + rs * 32 + rt) * 0x1_0000
  {
    Pow2Table();
    var a1 := opcode * 0x400_0000;
    OrAbove(a1, opcode, rs * 0x20_0000, 26);
    var a2 := a1 + rs * 0x20_0000;
    OrAbove(a2, opcode * 32 + rs, rt * 0x1_0000, 21);
  }

  /** The six R-type fields occupy disjoint bit ranges, so `|` adds them. */
  lemma PackR(opcode: int, rs: int, rt: int, rd: int, shamt: int, funct: int)
    requires 0 <= opcode < 64 && 0 <= rs < 32 && 0 <= rt < 32 && 0 <= rd < 32
    requires 0 <= shamt < 32 && 0 <= funct < 64
    ensures EncodeR(opcode, rs, rt, rd, shamt, funct)
      == opcode * 0x400_0000 + rs * 0x20_0000 + rt * 0x1_0000 + rd * 0x800 + shamt * 0x40 + funct
  {
    PackTop(opcode, rs, rt);
    var top := opcode * 0x400 + rs * 32 + rt;
    Pow2Table();
    var o3 := Or(Or(opcode * 0x400_0000, rs * 0x20_0000), rt * 0x1_0000);
    OrAbove(o3, top, rd * 0x800, 16);
    var o4 := Or(o3, rd * 0x800);
    OrAbove(o4, top * 32 + rd, shamt * 0x40, 11);
    var o5 := Or(o4, shamt * 0x40);
    OrAbove(o5, top * 0x400 + rd * 32 + shamt, funct, 6);
    assert EncodeR(opcode, rs, rt, rd, shamt, funct) == Or(o5, funct);
  }

  /** The I-type fields occupy disjoint bit ranges, so `|` adds them. */
  lemma PackI(opcode: int, rs: int, rt: int, imm: int)
    requires 0 <= opcode < 64 && 0 <= rs < 32 && 0 <= rt < 32
    ensures EncodeI(opcode, rs, rt, imm)
      == opcode * 0x400_0000 + rs * 0x20_0000 + rt * 0x1_0000 + imm % 0x1_0000
  {
    PackTop(opcode, rs, rt);
    var top := opcode * 0x400 + rs * 32 + rt;
    Pow2Table();
    OrAbove(top * 0x1_0000, top, SignExtend16(imm), 16);
  }

  /** The J-type fields occupy disjoint bit ranges, so `|` adds them. */
  lemma PackJ(opcode: int, target: int)
    requires 0 <= opcode < 64
    ensures EncodeJ(opcode, target) == opcode * 0x400_0000 + target % 0x400_0000
  {
    Pow2Table();
    AndLowMask(target, 26);
    OrAbove(opcode * 0x400_0000, opcode, target % 0x400_0000, 26);
  }

  /** An R-type word with in-range fields is a 32-bit word from which every
      field can be read back. */
  lemma EncodeRFields(opcode: int, rs: int, rt: int, rd: int, shamt: int, funct: int)
    requires 0 <= opcode < 64 && 0 <= rs < 32 && 0 <= rt < 32 && 0 <= rd < 32
    requires 0 <= shamt < 32 && 0 <= funct < 64
    ensures var w := EncodeR(opcode, rs, rt, rd, shamt, funct);
      0 <= w < 0x1_0000_0000
      && w / 0x400_0000 == opcode
      && (w / 0x20_0000) % 0x20 == rs
      && (w / 0x1_0000) % 0x20 == rt
      && (w / 0x800) % 0x20 == rd
      && (w / 0x40) % 0x20 == shamt
      && w % 0x40 == funct
  {
    PackR(opcode, rs, rt, rd, shamt, funct);
    var w := EncodeR(opcode, rs, rt, rd, shamt, funct);
    Pow2Table();
    FieldOfPacked(w, 0, opcode, rs * 0x20_0000 + rt * 0x1_0000 + rd * 0x800 + shamt * 0x40 + funct, 26, 6);
    FieldOfPacked(w, opcode, rs, rt * 0x1_0000 + rd * 0x800 + shamt * 0x40 + funct, 21, 5);
    FieldOfPacked(w, opcode * 32 + rs, rt, rd * 0x800 + shamt * 0x40 + funct, 16, 5);
    FieldOfPacked(w, opcode * 0x400 + rs * 32 + rt, rd, shamt * 0x40 + funct, 11, 5);
    FieldOfPacked(w, opcode * 0x8000 + rs * 0x400 + rt * 32 + rd, shamt, funct, 6, 5);
    DivModUniqueQ(w, 0x40, opcode * 0x10_0000 + rs * 0x8000 + rt * 0x400 + rd * 32 + shamt, funct);
  }

  /** An I-type word is a 32-bit word whose immediate field is the
      immediate modulo 2^16. */
  lemma EncodeIFields(opcode: int, rs: int, rt: int, imm: int)
    requires 0 <= opcode < 64 && 0 <= rs < 32 && 0 <= rt < 32
    ensures var w := EncodeI(opcode, rs, rt, imm);
      0 <= w < 0x1_0000_0000
      && w / 0x400_0000 == opcode
      && (w / 0x20_0000) % 0x20 == rs
      && (w / 0x1_0000) % 0x20 == rt
      && w % 0x1_0000 == imm % 0x1_0000
  {
    PackI(opcode, rs, rt, imm);
    var w := EncodeI(opcode, rs, rt, imm);
    var lo := imm % 0x1_0000;
    Pow2Table();
    FieldOfPacked(w, 0, opcode, rs * 0x20_0000 + rt * 0x1_0000 + lo, 26, 6);
    FieldOfPacked(w, opcode, rs, rt * 0x1_0000 + lo, 21, 5);
    FieldOfPacked(w, opcode * 32 + rs, rt, lo, 16, 5);
    DivModUniqueQ(w, 0x1_0000, opcode * 0x400 + rs * 32 + rt, lo);
  }

  /** A J-type word is a 32-bit word whose target field is the target
      modulo 2^26. */
  lemma EncodeJFields(opcode: int, target: int)
    requires 0 <= opcode < 64
    ensures var w := EncodeJ(opcode, target);
      0 <= w < 0x1_0000_0000
      && w / 0x400_0000 == opcode
      && w % 0x400_0000 == target % 0x400_0000
  {
    PackJ(opcode, target);
    var w := EncodeJ(opcode, target);
    DivModUniqueQ(w, 0x400_0000, opcode, target % 0x400_0000);
  }
}
