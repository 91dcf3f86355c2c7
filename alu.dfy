/** The values the execute stage computes (`Pipeline::execute` in
    code/src/pipe.cpp): R-type ALU and shift results, the HI/LO pair of a
    multiply or divide, I-type results, branch conditions and effective
    addresses. Every value is a `uint32_t` word; `(int32_t)` casts are
    `Signed`. */
module Alu {
  import opened Bits
  import opened Isa
  import opened Wrappers

  // ---------------------------------------------------------------------
  // Signed arithmetic on words
  // ---------------------------------------------------------------------

  function Abs(x: int): nat
  {
    if x < 0 then -x else x
  }

  /** A value in the int32 range survives the trip through a word. */
  lemma SignedWrap(q: int)
    requires -0x8000_0000 <= q < 0x8000_0000
    ensures Signed(Wrap(q)) == q
  {
    if q < 0 {
      DivModUnique(q, TWO32, -1, q + TWO32);
    } else {
      DivModUnique(q, TWO32, 0, q);
    }
  }

  /** Reading an operand as signed does not change a sum or difference
      modulo 2^32. */
  lemma WrapOfSigned(x: int, a: Word)
    ensures Wrap(x + Signed(a)) == Wrap(x + a)
    ensures Wrap(x - Signed(a)) == Wrap(x - a)
  {
    if a >= 0x8000_0000 {
      ModShift(x + Signed(a), 1);
      ModShift(x - Signed(a), -1);
    }
  }

  /** The 32-bit sum, read as signed, is the sum of the signed readings
      whenever that sum is an int32. */
  lemma SignedSum(a: Word, b: Word)
    requires -0x8000_0000 <= Signed(a) + Signed(b) < 0x8000_0000
    ensures Signed(Wrap(a + b)) == Signed(a) + Signed(b)
  {
    WrapOfSigned(Signed(a), b);
    WrapOfSigned(b, a);
    SignedWrap(Signed(a) + Signed(b));
  }

  /** The same for the 32-bit difference. */
  lemma SignedDifference(a: Word, b: Word)
    requires -0x8000_0000 <= Signed(a) - Signed(b) < 0x8000_0000
    ensures Signed(Wrap(a - b)) == Signed(a) - Signed(b)
  {
    WrapOfSigned(Signed(a), b);
    var nb: int := -(b as int);
    WrapOfSigned(nb, a);
    assert Signed(a) - b == nb + Signed(a) && a - b == nb + a;
    SignedWrap(Signed(a) - Signed(b));
  }

  // ---------------------------------------------------------------------
  // R-type (SPECIAL) results
  // ---------------------------------------------------------------------

  /** The shift amount SLLV, SRLV and SRAV take from rs. C leaves a shift
      by 32 or more undefined; the model keeps the low five bits, as the
      MIPS32 instructions do. */
  function RegShift(v: Word): (r: nat)
    ensures r < 32
  {
    v % 32
  }

  /** Keeping the low five bits is the mask `v & 0x1F`. */
  lemma RegShiftIsMask(v: Word)
    ensures RegShift(v) == And(v, 0x1F)
  {
    Pow2Table();
    AndLowMask(v, 5);
  }

  /** The value a SPECIAL instruction leaves in `reg_dst_value`, from the
      source values a (rs) and b (rt), or None for the subops that leave it
      alone: multiply, divide, MTHI, MTLO, SYSCALL and unknown function
      codes. MFHI and MFLO read the HI and LO given; their stall is decided
      by the caller. */
  function SpecialResult(subop: int, a: Word, b: Word, shamt: nat, pc: Word, hi: Word, lo: Word): (r: Option<Word>)
    ensures r.None? <==> subop !in {SUBOP_SLL, SUBOP_SLLV, SUBOP_SRL, SUBOP_SRLV, SUBOP_SRA, SUBOP_SRAV,
      SUBOP_JR, SUBOP_JALR, SUBOP_MFHI, SUBOP_MFLO, SUBOP_ADD, SUBOP_ADDU, SUBOP_SUB, SUBOP_SUBU,
      SUBOP_AND, SUBOP_OR, SUBOP_NOR, SUBOP_XOR, SUBOP_SLT, SUBOP_SLTU}
  {
    if subop == SUBOP_SLL then Some(Shl32(b, shamt))
    else if subop == SUBOP_SLLV then Some(Shl32(b, RegShift(a)))
    else if subop == SUBOP_SRL then Some(Shr32(b, shamt))
    else if subop == SUBOP_SRLV then Some(Shr32(b, RegShift(a)))
    else if subop == SUBOP_SRA then Some(Sra32(b, shamt))
    else if subop == SUBOP_SRAV then Some(Sra32(b, RegShift(a)))
    else if subop == SUBOP_JR || subop == SUBOP_JALR then Some(Wrap(pc + 4))
    else if subop == SUBOP_MFHI then Some(hi)
    else if subop == SUBOP_MFLO then Some(lo)
    else if subop == SUBOP_ADD || subop == SUBOP_ADDU then Some(Wrap(a + b))
    else if subop == SUBOP_SUB || subop == SUBOP_SUBU then Some(Wrap(a - b))
    else if subop == SUBOP_AND then Some(And32(a, b))
    else if subop == SUBOP_OR then Some(Or32(a, b))
    else if subop == SUBOP_NOR then Some(Not32(Or32(a, b)))
    else if subop == SUBOP_XOR then Some(Xor32(a, b))
    else if subop == SUBOP_SLT then Some(if Signed(a) < Signed(b) then 1 else 0)
    else if subop == SUBOP_SLTU then Some(if a < b then 1 else 0)
    else None
  }

  /** ADD and ADDU compute the same word (no overflow exception is
      modelled); when the signed sum is an int32 the word is that sum. SUB
      and SUBU likewise. */
  lemma AddSubAreSigned(a: Word, b: Word, shamt: nat, pc: Word, hi: Word, lo: Word)
    ensures SpecialResult(SUBOP_ADD, a, b, shamt, pc, hi, lo) == SpecialResult(SUBOP_ADDU, a, b, shamt, pc, hi, lo)
    ensures SpecialResult(SUBOP_SUB, a, b, shamt, pc, hi, lo) == SpecialResult(SUBOP_SUBU, a, b, shamt, pc, hi, lo)
    ensures -0x8000_0000 <= Signed(a) + Signed(b) < 0x8000_0000 ==>
      Signed(SpecialResult(SUBOP_ADD, a, b, shamt, pc, hi, lo).value) == Signed(a) + Signed(b)
    ensures -0x8000_0000 <= Signed(a) - Signed(b) < 0x8000_0000 ==>
      Signed(SpecialResult(SUBOP_SUB, a, b, shamt, pc, hi, lo).value) == Signed(a) - Signed(b)
  {
    if -0x8000_0000 <= Signed(a) + Signed(b) < 0x8000_0000 {
      SignedSum(a, b);
    }
    if -0x8000_0000 <= Signed(a) - Signed(b) < 0x8000_0000 {
      SignedDifference(a, b);
    }
  }

  /** SLL by k clears the low k bits and moves the low 32 - k bits of b up. */
  lemma ShiftLeftFields(b: Word, k: nat)
    requires k < 32
    ensures Shl32(b, k) % Pow2(k) == 0
    ensures Shl32(b, k) / Pow2(k) == b % Pow2(32 - k)
  {
    Pow2Add(32 - k, k);
    assert Pow2(32) == TWO32 by { Pow2Table(); }
    ScaleSplit(b, Pow2(k), Pow2(32 - k));
  }

  /** Multiplying by p where p * q == 2^32 keeps b modulo q, shifted up. */
  lemma ScaleSplit(b: nat, p: int, q: int)
    requires p >= 1 && q >= 1 && q * p == TWO32
    ensures (b * p) % TWO32 == (b % q) * p
    ensures ((b * p) % TWO32) % p == 0 && ((b * p) % TWO32) / p == b % q
  {
    var h, l := b / q, b % q;
    DivParts(b, q);
    assert b * p == h * TWO32 + l * p by {
      assert b == h * q + l;
      Distrib(p, h * q, l);
      Assoc(h, q, p);
    }
    assert 0 <= l * p < TWO32 by {
      MulMonotone(p, l, q - 1);
      Distrib(p, q, -1);
    }
    DivModUnique(b * p, TWO32, h, l * p);
    DivModUniqueQ(l * p, p, l, 0);
  }

  /** Floor division by a positive divisor stays between 0 and the dividend. */
  lemma FloorDivBounds(s: int, p: int)
    requires p >= 1
    ensures s >= 0 ==> 0 <= s / p <= s
    ensures s < 0 ==> s <= s / p < 0
  {
    DivParts(s, p);
    var q := s / p;
    if s >= 0 {
      DivAtMost(s, p);
    } else {
      if q >= 0 {
        MulNonneg(q, p);
      }
      assert q < 0;
      if q + 1 <= 0 {
        MulMonotone(p, q + 1, 0);
        assert (q + 1) * p <= q + 1 by {
          MulMonotone(-(q + 1), 1, p);
        }
        Distrib(p, q, 1);
      }
    }
  }

  /** SRA by k is floor division of the signed reading by 2^k, and agrees
      with SRL on words whose sign bit is clear. */
  lemma ArithmeticShiftIsFloorDiv(b: Word, k: nat)
    ensures Signed(Sra32(b, k)) == Signed(b) / Pow2(k)
    ensures b < 0x8000_0000 ==> Sra32(b, k) == Shr32(b, k)
  {
    FloorDivBounds(Signed(b), Pow2(k));
    SignedWrap(Signed(b) / Pow2(k));
    if b < 0x8000_0000 {
      DivModUnique(b / Pow2(k), TWO32, 0, b / Pow2(k));
    }
  }

  /** SLT and SLTU agree when both sign bits are clear and disagree when
      exactly one of them is set. */
  lemma SetLessThanSigns(a: Word, b: Word, shamt: nat, pc: Word, hi: Word, lo: Word)
    ensures (a < 0x8000_0000 && b < 0x8000_0000) ==>
      SpecialResult(SUBOP_SLT, a, b, shamt, pc, hi, lo) == SpecialResult(SUBOP_SLTU, a, b, shamt, pc, hi, lo)
    ensures (a < 0x8000_0000) != (b < 0x8000_0000) ==>
      SpecialResult(SUBOP_SLT, a, b, shamt, pc, hi, lo).value == 1 - SpecialResult(SUBOP_SLTU, a, b, shamt, pc, hi, lo).value
  {
  }

  // ---------------------------------------------------------------------
  // HI and LO: multiply and divide
  // ---------------------------------------------------------------------

  datatype HiLo = HiLo(hi: Word, lo: Word)

  const TWO64: int := 0x1_0000_0000_0000_0000

  /** `(u >> 32) & 0xFFFFFFFF` and `u & 0xFFFFFFFF` of a `uint64_t`. */
  function Halves(u: int): (r: HiLo)
    requires 0 <= u < TWO64
    ensures r.hi * TWO32 + r.lo == u
  {
    HighBelow(u);
    HiLo(u / TWO32, u % TWO32)
  }

  lemma HighBelow(u: int)
    requires 0 <= u < TWO64
    ensures u == (u / TWO32) * TWO32 + u % TWO32 && 0 <= u / TWO32 < TWO32
  {
    DivParts(u, TWO32);
  }

  lemma ProductBelow(a: Word, b: Word)
    ensures 0 <= a * b < TWO64
  {
    MulNonneg(a, b);
    MulMonotone(a, b, TWO32 - 1);
    MulMonotone(TWO32 - 1, a, TWO32 - 1);
  }

  /** MULTU: HI and LO hold the unsigned 64-bit product of the two words. */
  function MultuHiLo(a: Word, b: Word): (r: HiLo)
    ensures r.hi * TWO32 + r.lo == a * b
  {
    ProductBelow(a, b);
    DivModUnique(a * b, TWO64, 0, a * b);
    Halves((a * b) % TWO64)
  }

  lemma ProductBound(x: int, y: int)
    requires -0x8000_0000 <= x <= 0x8000_0000 && -0x8000_0000 <= y <= 0x8000_0000
    ensures -0x4000_0000_0000_0000 <= x * y <= 0x4000_0000_0000_0000
  {
    var ax: int, ay: int := Abs(x), Abs(y);
    MulMonotone(ax, ay, 0x8000_0000);
    MulMonotone(0x8000_0000, ax, 0x8000_0000);
    if (x < 0) == (y < 0) {
      assert x * y == ax * ay;
    } else {
      assert x * y == -(ax * ay);
    }
  }

  /** A 64-bit two's-complement value read back through its halves, with
      HI taken as signed. */
  lemma SignedHalves(p: int)
    requires -0x4000_0000_0000_0000 <= p <= 0x4000_0000_0000_0000
    ensures Halves(p % TWO64).hi * TWO32 + Halves(p % TWO64).lo == (if p < 0 then p + TWO64 else p)
    ensures Signed(Halves(p % TWO64).hi) * TWO32 + Halves(p % TWO64).lo == p
  {
    var u := if p < 0 then p + TWO64 else p;
    DivModUnique(p, TWO64, if p < 0 then -1 else 0, u);
    var r := Halves(u);
    assert r.hi * TWO32 + r.lo == u;
  }

  /** MULT: the 64-bit product of the signed readings, cast to `uint64_t`
      and split into HI and LO. */
  function MultHiLo(a: Word, b: Word): (r: HiLo)
    ensures Signed(r.hi) * TWO32 + r.lo == Signed(a) * Signed(b)
  {
    var p := Signed(a) * Signed(b);
    ProductBound(Signed(a), Signed(b));
    SignedHalves(p);
    Halves(p % TWO64)
  }

  /** C's `/` on `int32_t`: the quotient truncated toward zero. */
  function TruncDiv(x: int, y: int): int
    requires y != 0
  {
    var q := Abs(x) / Abs(y);
    if (x < 0) == (y < 0) then q else -q
  }

  /** C's `%` on `int32_t`, fixed by `(x / y) * y + x % y == x`. */
  function TruncMod(x: int, y: int): int
    requires y != 0
  {
    x - TruncDiv(x, y) * y
  }

  /** Truncating division: the remainder is smaller than the divisor in
      magnitude and takes the dividend's sign, and the quotient is no
      larger than the dividend in magnitude. */
  lemma TruncDivMod(x: int, y: int)
    requires y != 0
    ensures TruncDiv(x, y) * y + TruncMod(x, y) == x
    ensures Abs(TruncMod(x, y)) < Abs(y)
    ensures TruncMod(x, y) == 0 || (TruncMod(x, y) < 0 <==> x < 0)
    ensures Abs(TruncDiv(x, y)) <= Abs(x)
  {
    var ax: int, ay: int := Abs(x), Abs(y);
    var q: int, r: int := ax / ay, ax % ay;
    DivParts(ax, ay);
    DivAtMost(ax, ay);
    SignedProduct(q, ay, (x < 0) == (y < 0), y < 0);
    assert TruncDiv(x, y) * y == if x < 0 then -(q * ay) else q * ay;
  }

  /** The product of a quotient and a divisor with their signs restored. */
  lemma SignedProduct(q: int, ay: int, sameSign: bool, yNeg: bool)
    ensures (if sameSign then q else -q) * (if yNeg then -ay else ay)
      == if sameSign != yNeg then q * ay else -(q * ay)
  {
    assert q * (-ay) == -(q * ay) && (-q) * ay == -(q * ay) && (-q) * (-ay) == q * ay by {
      Distrib(q, ay, -2 * ay);
      Distrib(-q, ay, -2 * ay);
    }
  }

  /** Away from INT_MIN / -1 the truncated quotient of two int32 values is
      an int32. */
  lemma QuotientRange(x: int, y: int)
    requires -0x8000_0000 <= x < 0x8000_0000 && -0x8000_0000 <= y < 0x8000_0000
    requires y != 0 && !(x == -0x8000_0000 && y == -1)
    ensures -0x8000_0000 <= TruncDiv(x, y) < 0x8000_0000
  {
    var ax: int, ay: int := Abs(x), Abs(y);
    var q: int := ax / ay;
    DivParts(ax, ay);
    DivAtMost(ax, ay);
    if ay >= 2 {
      MulMonotone(q, 2, ay);
      assert q <= 0x4000_0000;
    } else {
      assert q == ax;
    }
  }

  /** DIV: LO the truncated quotient and HI the remainder of the signed
      readings, or both 0 when the divisor is 0. INT_MIN / -1 wraps (C
      leaves it undefined). */
  function DivHiLo(a: Word, b: Word): (r: HiLo)
    ensures b == 0 ==> r == HiLo(0, 0)
  {
    if b == 0 then HiLo(0, 0)
    else HiLo(Wrap(TruncMod(Signed(a), Signed(b))), Wrap(TruncDiv(Signed(a), Signed(b))))
  }

  /** Outside INT_MIN / -1, DIV's LO and HI read as signed are the C
      quotient and remainder, so that LO * b + HI == a with a remainder
      smaller than the divisor and of the dividend's sign. */
  lemma DivCorrect(a: Word, b: Word)
    requires b != 0 && !(a == 0x8000_0000 && b == 0xFFFF_FFFF)
    ensures Signed(DivHiLo(a, b).lo) == TruncDiv(Signed(a), Signed(b))
    ensures Signed(DivHiLo(a, b).hi) == TruncMod(Signed(a), Signed(b))
    ensures Signed(DivHiLo(a, b).lo) * Signed(b) + Signed(DivHiLo(a, b).hi) == Signed(a)
    ensures Abs(Signed(DivHiLo(a, b).hi)) < Abs(Signed(b))
    ensures DivHiLo(a, b).hi == 0 || (Signed(DivHiLo(a, b).hi) < 0 <==> Signed(a) < 0)
  {
    var x, y := Signed(a), Signed(b);
    TruncDivMod(x, y);
    QuotientRange(x, y);
    SignedWrap(TruncDiv(x, y));
    SignedWrap(TruncMod(x, y));
  }

  /** DIVU: LO the quotient and HI the remainder of the unsigned words,
      or both 0 when the divisor is 0. */
  function DivuHiLo(a: Word, b: Word): (r: HiLo)
    ensures b != 0 ==> r.lo * b + r.hi == a && r.hi < b
    ensures b == 0 ==> r == HiLo(0, 0)
  {
    if b == 0 then HiLo(0, 0)
    else
      DivAtMost(a, b);
      HiLo(a % b, a / b)
  }

  // ---------------------------------------------------------------------
  // I-type results
  // ---------------------------------------------------------------------

  /** The value an I-type ALU instruction leaves in `reg_dst_value`, from
      the rs value a, the raw immediate and its sign extension, or None for
      any other opcode. */
  function ImmediateResult(opcode: int, a: Word, imm16: Word, se: Word): (r: Option<Word>)
    ensures r.Some? <==> opcode in {OP_ADDI, OP_ADDIU, OP_SLTI, OP_SLTIU, OP_ANDI, OP_ORI, OP_XORI, OP_LUI}
  {
    if opcode == OP_ADDI || opcode == OP_ADDIU then Some(Wrap(a + se))
    else if opcode == OP_SLTI then Some(if Signed(a) < Signed(se) then 1 else 0)
    else if opcode == OP_SLTIU then Some(if a < se then 1 else 0)
    else if opcode == OP_ANDI then Some(And32(a, imm16))
    else if opcode == OP_ORI then Some(Or32(a, imm16))
    else if opcode == OP_XORI then Some(Xor32(a, imm16))
    else if opcode == OP_LUI then Some(Shl32(imm16, 16))
    else None
  }

  /** ANDI, ORI and LUI on a 16-bit immediate: ANDI keeps only the low
      half of rs, ORI keeps rs's upper half and ORs into the lower, and LUI
      places the immediate in the upper half over sixteen zero bits. */
  lemma LogicalImmediates(a: Word, imm16: Word, se: Word)
    requires imm16 < 0x1_0000
    ensures ImmediateResult(OP_ANDI, a, imm16, se).value == And(a % 0x1_0000, imm16)
    ensures ImmediateResult(OP_ORI, a, imm16, se).value / 0x1_0000 == a / 0x1_0000
    ensures ImmediateResult(OP_ORI, a, imm16, se).value % 0x1_0000 == Or(a % 0x1_0000, imm16)
    ensures ImmediateResult(OP_LUI, a, imm16, se).value % 0x1_0000 == 0
    ensures ImmediateResult(OP_LUI, a, imm16, se).value / 0x1_0000 == imm16
  {
    Pow2Table();
    AndShift(a, imm16, 16);
    assert imm16 / 0x1_0000 == 0 && imm16 % 0x1_0000 == imm16;
    AndZero(a / 0x1_0000);
    AndBound(a % 0x1_0000, imm16, 16);
    AndNonneg(a, imm16);
    DivParts(And(a, imm16), 0x1_0000);
    OrShift(a, imm16, 16);
    OrZero(a / 0x1_0000);
    ShiftLeftFields(imm16, 16);
  }

  /** ADDI and ADDIU add the sign-extended immediate; without overflow the
      result read as signed is the signed sum. */
  lemma AddImmediateIsSigned(a: Word, imm16: Word, se: Word)
    ensures ImmediateResult(OP_ADDI, a, imm16, se) == ImmediateResult(OP_ADDIU, a, imm16, se)
    ensures -0x8000_0000 <= Signed(a) + Signed(se) < 0x8000_0000 ==>
      Signed(ImmediateResult(OP_ADDI, a, imm16, se).value) == Signed(a) + Signed(se)
  {
    if -0x8000_0000 <= Signed(a) + Signed(se) < 0x8000_0000 {
      SignedSum(a, se);
    }
  }

  // ---------------------------------------------------------------------
  // Branch conditions and addresses
  // ---------------------------------------------------------------------

  /** Whether execute takes a conditional branch, from the rs value a and
      the rt value b; for REGIMM the subop is the rt field. An unknown
      REGIMM code or any other opcode is not taken. */
  function BranchCondition(opcode: int, subop: int, a: Word, b: Word): bool
  {
    if opcode == OP_BRSPEC then
      if subop == BROP_BLTZ || subop == BROP_BLTZAL then Signed(a) < 0
      else if subop == BROP_BGEZ || subop == BROP_BGEZAL then Signed(a) >= 0
      else false
    else if opcode == OP_BEQ then a == b
    else if opcode == OP_BNE then a != b
    else if opcode == OP_BLEZ then Signed(a) <= 0
    else if opcode == OP_BGTZ then Signed(a) > 0
    else false
  }

  /** The branch pairs test complementary conditions, the linking forms
      test the same condition as their plain forms, and a sign test reads
      bit 31 of rs. */
  lemma BranchConditionsComplement(a: Word, b: Word)
    ensures BranchCondition(OP_BEQ, 0, a, b) == !BranchCondition(OP_BNE, 0, a, b)
    ensures BranchCondition(OP_BLEZ, 0, a, b) == !BranchCondition(OP_BGTZ, 0, a, b)
    ensures BranchCondition(OP_BRSPEC, BROP_BLTZ, a, b) == !BranchCondition(OP_BRSPEC, BROP_BGEZ, a, b)
    ensures BranchCondition(OP_BRSPEC, BROP_BLTZAL, a, b) == BranchCondition(OP_BRSPEC, BROP_BLTZ, a, b)
    ensures BranchCondition(OP_BRSPEC, BROP_BGEZAL, a, b) == BranchCondition(OP_BRSPEC, BROP_BGEZ, a, b)
    ensures BranchCondition(OP_BRSPEC, BROP_BLTZ, a, b) <==> a >= 0x8000_0000
  {
  }

  /** A load or store address: rs plus the sign-extended offset, in
      unsigned 32-bit arithmetic. */
  function EffectiveAddress(a: Word, se: Word): (r: Word)
    ensures r == Wrap(a + Signed(se))
  {
    WrapOfSigned(a, se);
    Wrap(a + se)
  }
}
