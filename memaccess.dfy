/** The memory stage's data path (`Pipeline::mem` in code/src/pipe.cpp):
    a load picks a byte or halfword out of the aligned word it reads, and
    a store merges a byte or halfword into that word before writing it
    back. Byte lanes are little-endian: lane 0 is the low byte. */
module MemAccess {
  import opened Bits
  import opened Isa
  import opened PipeOps

  /** `addr & ~3`: the aligned word that holds the byte at addr. */
  function WordAlign(addr: Word): (r: Word)
    ensures r % 4 == 0 && r <= addr < r + 4
  {
    addr - addr % 4
  }

  /** Clearing the low two bits is the mask `& 0xFFFFFFFC`. */
  lemma WordAlignIsMask(addr: Word)
    ensures WordAlign(addr) == And(addr, 0xFFFF_FFFC)
  {
    assert Pow2(2) == 4 && Pow2(30) == 0x4000_0000 by {
      Pow2Table();
      assert Pow2(31) == 2 * Pow2(30);
    }
    ClearLowBits(addr, 0xFFFF_FFFC, 2, 30);
  }

  /** The lane tests `addr & 3` and `addr & 2`. */
  lemma LaneIsMask(addr: Word)
    ensures And(addr, 3) == addr % 4
    ensures And(addr, 2) != 0 <==> (addr / 2) % 2 == 1
  {
    Pow2Table();
    AndLowMask(addr, 2);
    AndShift(addr, 2, 1);
    AndLowMask(addr / 2, 1);
    AndZero(addr % 2);
    AndNonneg(addr, 2);
    DivParts(And(addr, 2), 2);
  }

  // ---------------------------------------------------------------------
  // Loads
  // ---------------------------------------------------------------------

  /** `val | ((val & 0x80) ? 0xFFFFFF80 : 0)` on a byte: bits 8..31 copied
      from bit 7. */
  function SignExtend8(b: Byte): (r: Word)
    ensures r % 0x100 == b
    ensures Signed(r) == (if b < 0x80 then b else b - 0x100)
  {
    if b < 0x80 then b else b + 0xFFFF_FF00
  }

  /** OR with 0xFFFFFF80 of a byte whose bit 7 is set fills bits 8..31. */
  lemma SignFill8(b: Byte)
    requires b >= 0x80
    ensures Or(b, 0xFFFF_FF80) == b + 0xFFFF_FF00
  {
    Pow2Table();
    assert Pow2(7) == 0x80 by { assert Pow2(8) == 2 * Pow2(7); }
    var l := b % 0x80;
    assert b / 0x80 == 1;
    OrShift(b, 0xFFFF_FF80, 7);
    OrZero(l);
    OrOneOdd(0x1FF_FFFF);
    OrNonneg(b, 0xFFFF_FF80);
    DivParts(Or(b, 0xFFFF_FF80), 0x80);
  }

  /** The source's sign-extension expression for LB is SignExtend8. */
  lemma SignExtend8IsMask(b: Byte)
    ensures And(b, 0x80) != 0 <==> b >= 0x80
    ensures SignExtend8(b) == Or(b, if And(b, 0x80) != 0 then 0xFFFF_FF80 else 0)
  {
    Pow2Table();
    assert Pow2(7) == 0x80 by { assert Pow2(8) == 2 * Pow2(7); }
    AndShift(b, 0x80, 7);
    AndZero(b % 0x80);
    assert And(b / 0x80, 1) == b / 0x80 by {
      assert b / 0x80 == 0 || b / 0x80 == 1;
    }
    AndNonneg(b, 0x80);
    DivParts(And(b, 0x80), 0x80);
    if b >= 0x80 {
      SignFill8(b);
    } else {
      OrZero(b);
    }
  }

  /** The halfword a load selects: the upper one when bit 1 of the
      address is set. */
  function HalfOf(val: Word, addr: Word): (r: nat)
    ensures r < 0x1_0000
  {
    if (addr / 2) % 2 == 1 then val / 0x1_0000 else val % 0x1_0000
  }

  /** `(val >> 16) & 0xFFFF` and `val & 0xFFFF`, and `(val >> 8k) & 0xFF`,
      are the halves and bytes HalfOf and ByteOf take. */
  lemma LoadFieldsAreMasks(val: Word, k: nat)
    requires k < 4
    ensures And(Shr32(val, 16), 0xFFFF) == val / 0x1_0000
    ensures And(val, 0xFFFF) == val % 0x1_0000
    ensures And(Shr32(val, 8 * k), 0xFF) == ByteOf(val, k)
  {
    HalfMasks(val);
    ByteLane(val, k);
    LowByteMask(val / Pow2(8 * k));
  }

  lemma HalfMasks(val: Word)
    ensures And(Shr32(val, 16), 0xFFFF) == val / 0x1_0000
    ensures And(val, 0xFFFF) == val % 0x1_0000
  {
    assert Pow2(16) == 0x1_0000 by { Pow2Table(); }
    AndLowMask(val / 0x1_0000, 16);
    AndLowMask(val, 16);
    DivAtMost(val, 0x1_0000);
  }

  /** The value a load delivers to its destination register from the
      aligned word val it read: LW the word, LH/LHU the selected halfword
      and LB/LBU the byte at lane `addr % 4`; only LB and LH sign-extend. */
  function LoadResult(opcode: int, val: Word, addr: Word): (r: Word)
    requires IsLoad(opcode)
    ensures opcode == OP_LBU ==> r == ByteOf(val, addr % 4)
    ensures opcode == OP_LHU ==> r == HalfOf(val, addr)
    ensures opcode == OP_LB ==> r % 0x100 == ByteOf(val, addr % 4) && Signed(r) == (if ByteOf(val, addr % 4) < 0x80 then ByteOf(val, addr % 4) else ByteOf(val, addr % 4) - 0x100)
    ensures opcode == OP_LH ==> r % 0x1_0000 == HalfOf(val, addr) && Signed(r) == (if HalfOf(val, addr) < 0x8000 then HalfOf(val, addr) else HalfOf(val, addr) - 0x1_0000)
  {
    if opcode == OP_LW then val
    else if opcode == OP_LH then SignExtend16(HalfOf(val, addr))
    else if opcode == OP_LHU then HalfOf(val, addr)
    else if opcode == OP_LB then SignExtend8(ByteOf(val, addr % 4))
    else ByteOf(val, addr % 4)
  }

  // ---------------------------------------------------------------------
  // Stores
  // ---------------------------------------------------------------------

  /** The mask SB keeps: every byte of the word but `lane`. */
  function KeepMask(lane: nat): Word
    requires lane < 4
  {
    if lane == 0 then 0xFFFF_FF00
    else if lane == 1 then 0xFFFF_00FF
    else if lane == 2 then 0xFF00_FFFF
    else 0x00FF_FFFF
  }

  /** SB: `(val & keep) | ((v & 0xFF) << 8 * lane)`. */
  function StoreByte(val: Word, lane: nat, v: Word): Word
    requires lane < 4
  {
    Or32(And32(val, KeepMask(lane)), Shl32(And32(v, 0xFF), 8 * lane))
  }

  /** SH: `(val & 0x0000FFFF) | (v << 16)` for the upper halfword and
      `(val & 0xFFFF0000) | (v & 0xFFFF)` for the lower. */
  function StoreHalf(val: Word, upper: bool, v: Word): Word
  {
    if upper then Or32(And32(val, 0x0000_FFFF), Shl32(v, 16))
    else Or32(And32(val, 0xFFFF_0000), And32(v, 0xFFFF))
  }

  /** The word a store writes back to WordAlign(addr), given the word val
      read there and the rt value v: SB and SH merge, SW replaces. */
  function StoreResult(opcode: int, val: Word, addr: Word, v: Word): Word
    requires IsStore(opcode)
  {
    if opcode == OP_SB then StoreByte(val, addr % 4, v)
    else if opcode == OP_SH then StoreHalf(val, (addr / 2) % 2 == 1, v)
    else v
  }

  /** Byte i of a byte c placed at lane k. */
  lemma PlacedByte(c: Byte, k: nat, i: nat)
    requires k < 4 && i < 4
    ensures ByteOf(Shl32(c, 8 * k), i) == if i == k then c else 0
  {
    Pow2Table();
    if k == 0 {
      BytesWord(c, 0, 0, 0);
    } else if k == 1 {
      BytesWord(0, c, 0, 0);
    } else if k == 2 {
      BytesWord(0, 0, c, 0);
    } else {
      BytesWord(0, 0, 0, c);
    }
    var w := c * Pow2(8 * k);
    assert w < TWO32;
    DivModUnique(w, TWO32, 0, w);
  }

  /** Byte i of `x & m` where byte i of m is all ones or all zeros. */
  lemma MaskedByte(x: Word, m: Word, i: nat)
    requires i < 4 && (ByteOf(m, i) == 0xFF || ByteOf(m, i) == 0)
    ensures ByteOf(And32(x, m), i) == if ByteOf(m, i) == 0 then 0 else ByteOf(x, i)
  {
    ByteOfAnd(x, m, i);
    if ByteOf(m, i) == 0 {
      AndZero(ByteOf(x, i));
    } else {
      LowByteMask(ByteOf(x, i));
    }
  }

  /** `b & 0xFF` keeps a byte. */
  lemma LowByteMask(b: int)
    ensures And(b, 0xFF) == b % 0x100
  {
    assert Pow2(8) == 0x100 by { Pow2Table(); }
    AndLowMask(b, 8);
  }

  /** The bytes of SB's keep mask: all ones except lane. */
  lemma KeepMaskBytes(lane: nat, i: nat)
    requires lane < 4 && i < 4
    ensures ByteOf(KeepMask(lane), i) == if i == lane then 0 else 0xFF
  {
  }

  /** An OR of two bytes one of which is zero. */
  lemma OrWithZero(x: int, y: int)
    requires x == 0 || y == 0
    ensures Or(x, y) == x + y
  {
    OrZero(x);
    OrZero(y);
  }

  /** SB replaces byte `lane` with the low byte of v and keeps the other
      three. */
  lemma StoreByteLanes(val: Word, lane: nat, v: Word, i: nat)
    requires lane < 4 && i < 4
    ensures ByteOf(StoreByte(val, lane, v), i) == if i == lane then ByteOf(v, 0) else ByteOf(val, i)
  {
    var kept := And32(val, KeepMask(lane));
    LowByteMask(v);
    var c: Byte := And32(v, 0xFF);
    var placed := Shl32(c, 8 * lane);
    ByteOfOr(kept, placed, i);
    KeepMaskBytes(lane, i);
    MaskedByte(val, KeepMask(lane), i);
    PlacedByte(c, lane, i);
    OrWithZero(ByteOf(kept, i), ByteOf(placed, i));
  }

  /** `v << 16` keeps the low halfword of v, moved up. */
  lemma ScaleHalf(v: Word)
    ensures Shl32(v, 16) == (v % 0x1_0000) * 0x1_0000
  {
    assert Pow2(16) == 0x1_0000 by { Pow2Table(); }
    DivParts(v, 0x1_0000);
    DivModUnique(v * 0x1_0000, TWO32, v / 0x1_0000, (v % 0x1_0000) * 0x1_0000);
  }

  /** The low halfword of v is its two low bytes. */
  lemma LowHalfBytes(v: Word)
    ensures v % 0x1_0000 == ByteOf(v, 0) + ByteOf(v, 1) * 0x100
  {
    DivDiv(v, 0x100, 0x100);
  }

  /** Bytes of `v << 16`. */
  lemma ShiftedHalfBytes(v: Word, i: nat)
    requires i < 4
    ensures ByteOf(Shl32(v, 16), i) == if i >= 2 then ByteOf(v, i - 2) else 0
  {
    LowHalfBytes(v);
    ScaleHalf(v);
    BytesWord(0, 0, ByteOf(v, 0), ByteOf(v, 1));
  }

  /** Bytes of `v & 0xFFFF`. */
  lemma MaskedHalfBytes(v: Word, i: nat)
    requires i < 4
    ensures ByteOf(And32(v, 0xFFFF), i) == if i < 2 then ByteOf(v, i) else 0
  {
    LowHalfBytes(v);
    assert Pow2(16) == 0x1_0000 by { Pow2Table(); }
    AndLowMask(v, 16);
    BytesWord(ByteOf(v, 0), ByteOf(v, 1), 0, 0);
  }

  /** SH replaces the addressed halfword with the low halfword of v and
      keeps the other one. */
  lemma StoreHalfLanes(val: Word, upper: bool, v: Word, i: nat)
    requires i < 4
    ensures ByteOf(StoreHalf(val, upper, v), i) ==
      if upper then (if i >= 2 then ByteOf(v, i - 2) else ByteOf(val, i))
      else (if i < 2 then ByteOf(v, i) else ByteOf(val, i))
  {
    if upper {
      StoreUpperHalfLanes(val, v, i);
    } else {
      StoreLowerHalfLanes(val, v, i);
    }
  }

  /** The bytes of SH's keep masks. */
  lemma HalfMaskBytes(i: nat)
    requires i < 4
    ensures ByteOf(0x0000_FFFF, i) == if i < 2 then 0xFF else 0
    ensures ByteOf(0xFFFF_0000, i) == if i < 2 then 0 else 0xFF
  {
  }

  lemma StoreUpperHalfLanes(val: Word, v: Word, i: nat)
    requires i < 4
    ensures ByteOf(Or32(And32(val, 0x0000_FFFF), Shl32(v, 16)), i) ==
      if i >= 2 then ByteOf(v, i - 2) else ByteOf(val, i)
  {
    var kept, placed := And32(val, 0x0000_FFFF), Shl32(v, 16);
    HalfMaskBytes(i);
    ShiftedHalfBytes(v, i);
    MaskedByte(val, 0x0000_FFFF, i);
    ByteOfOr(kept, placed, i);
    OrWithZero(ByteOf(kept, i), ByteOf(placed, i));
  }

  lemma StoreLowerHalfLanes(val: Word, v: Word, i: nat)
    requires i < 4
    ensures ByteOf(Or32(And32(val, 0xFFFF_0000), And32(v, 0xFFFF)), i) ==
      if i < 2 then ByteOf(v, i) else ByteOf(val, i)
  {
    var kept, placed := And32(val, 0xFFFF_0000), And32(v, 0xFFFF);
    HalfMaskBytes(i);
    MaskedHalfBytes(v, i);
    MaskedByte(val, 0xFFFF_0000, i);
    ByteOfOr(kept, placed, i);
    OrWithZero(ByteOf(kept, i), ByteOf(placed, i));
  }

  /** The high halfword of w is its two high bytes. */
  lemma HighHalfBytes(w: Word)
    ensures w / 0x1_0000 == ByteOf(w, 2) + ByteOf(w, 3) * 0x100
  {
    DivDiv(w, 0x1_0000, 0x100);
    DivParts(w / 0x1_0000, 0x100);
  }

  /** A load of the byte a store just merged returns its low byte (LBU),
      and a load of the whole word a SW wrote returns the word. */
  lemma LoadAfterStoreByte(val: Word, addr: Word, v: Word)
    ensures LoadResult(OP_LBU, StoreResult(OP_SB, val, addr, v), addr) == v % 0x100
    ensures LoadResult(OP_LW, StoreResult(OP_SW, val, addr, v), addr) == v
  {
    StoreByteLanes(val, addr % 4, v, addr % 4);
  }

  /** A load of the halfword a store just merged returns its low halfword
      (LHU). */
  lemma LoadAfterStoreHalf(val: Word, addr: Word, v: Word)
    ensures LoadResult(OP_LHU, StoreResult(OP_SH, val, addr, v), addr) == v % 0x1_0000
  {
    var upper := (addr / 2) % 2 == 1;
    var w := StoreHalf(val, upper, v);
    LowHalfBytes(v);
    if upper {
      HighHalfBytes(w);
      StoreHalfLanes(val, upper, v, 2);
      StoreHalfLanes(val, upper, v, 3);
    } else {
      LowHalfBytes(w);
      StoreHalfLanes(val, upper, v, 0);
      StoreHalfLanes(val, upper, v, 1);
    }
  }
}
