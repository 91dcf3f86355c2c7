/** The two helpers of code/src/cache.c the caches rely on: an integer
    base-2 logarithm, used for the shift amounts of the address split, and
    a byte swap of a 32-bit word. */
module CacheMath {
  import opened Bits
  import MemAccess

  /** `__builtin_clz(u)`: the number of zero bits above the highest one bit
      of a nonzero word, counted by shifting left until the top bit is set. */
  function Clz(u: Word): nat
    requires u != 0
    decreases TWO32 - u
  {
    if u >= 0x8000_0000 then 0 else 1 + Clz(2 * u)
  }

  /** The highest one bit of u is bit 31 - Clz(u). */
  lemma {:induction false} ClzBounds(u: Word)
    requires u != 0
    decreases TWO32 - u
    ensures Clz(u) <= 31
    ensures Pow2(31 - Clz(u)) <= u < Pow2(32 - Clz(u))
  {
    Pow2Table();
    Pow2Top();
    if u < 0x8000_0000 {
      ClzBounds(2 * u);
      var z := Clz(2 * u);
      assert Pow2(32 - z) > 2;
      assert z != 31;
      assert Pow2(31 - z) == 2 * Pow2(30 - z);
      assert Pow2(32 - z) == 2 * Pow2(31 - z);
    }
  }

  /** `log2_32(n)`: -1 for 0, otherwise the index of the highest one bit of
      n read as unsigned (so 31 for a negative n). */
  function Log2_32(n: int): (r: int)
    requires -0x8000_0000 <= n < 0x8000_0000
    ensures -1 <= r <= 31
    ensures r == -1 <==> n == 0
    ensures n < 0 ==> r == 31
  {
    if n == 0 then -1
    else
      ClzBounds(Wrap(n));
      Pow2Table();
      assert n < 0 ==> Wrap(n) >= 0x8000_0000;
      31 - Clz(Wrap(n))
  }

  /** The powers of two at the top of a word. */
  lemma Pow2Top()
    ensures Pow2(30) == 0x4000_0000 && Pow2(31) == 0x8000_0000 && Pow2(32) == TWO32
  {
    Pow2Table();
    Pow2Add(15, 15);
    Pow2Add(16, 15);
    Pow2Add(16, 16);
  }

  /** For a positive n, 2^r <= n < 2^(r+1) where r is `log2_32(n)`. */
  lemma Log2Bounds(n: int)
    requires 0 < n < 0x8000_0000
    ensures var r := Log2_32(n); 0 <= r <= 30 && Pow2(r) <= n < Pow2(r + 1)
  {
    ClzBounds(Wrap(n));
    var r := Log2_32(n);
    Pow2Top();
  }

  /** A power of two's logarithm is its exponent, which makes `log2_32`
      the shift amount for a power-of-two block size or set count. */
  lemma Log2OfPow2(k: nat)
    requires k <= 30
    ensures Pow2(k) < 0x8000_0000 && Log2_32(Pow2(k)) == k
  {
    Pow2Monotone(k, 30);
    Pow2Top();
    Log2Bounds(Pow2(k));
    ExponentUnique(Log2_32(Pow2(k)), k);
  }

  /** The exponent of a power of two is determined by the power. */
  lemma ExponentUnique(r: nat, k: nat)
    requires Pow2(r) <= Pow2(k) < Pow2(r + 1)
    ensures r == k
  {
    if r < k {
      Pow2Monotone(r + 1, k);
    } else if r > k {
      Pow2Monotone(k + 1, r);
    }
  }

  /** The byte mask of lane k, as written in `undo_little_endian`. */
  function LaneMask(k: nat): Word
    requires k < 4
  {
    if k == 0 then 0x0000_00FF else if k == 1 then 0x0000_FF00 else if k == 2 then 0x00FF_0000 else 0xFF00_0000
  }

  /** `undo_little_endian(data)`, with the source's masks and shifts. */
  function UndoLittleEndian(data: Word): Word
  {
    Or32(Or32(Or32(Shr32(And32(data, LaneMask(3)), 24),
                   Shr32(And32(data, LaneMask(2)), 8)),
              Shl32(And32(data, LaneMask(1)), 8)),
         Shl32(And32(data, LaneMask(0)), 24))
  }

  /** Masking lane k keeps byte k in place and clears the others. */
  lemma MaskLane(d: Word, k: nat)
    requires k < 4
    ensures And32(d, LaneMask(k)) == ByteOf(d, k) * Pow2(8 * k)
  {
    Pow2Table();
    BytesWord(0xFF, 0, 0, 0);
    BytesWord(0, 0xFF, 0, 0);
    BytesWord(0, 0, 0xFF, 0);
    BytesWord(0, 0, 0, 0xFF);
    var x := And32(d, LaneMask(k));
    MemAccess.MaskedByte(d, LaneMask(k), 0);
    MemAccess.MaskedByte(d, LaneMask(k), 1);
    MemAccess.MaskedByte(d, LaneMask(k), 2);
    MemAccess.MaskedByte(d, LaneMask(k), 3);
    WordBytes(x);
  }

  /** The four terms of `undo_little_endian`: byte 3 - j of the input
      moved to lane j. */
  lemma SwapTerms(d: Word)
    ensures Shr32(And32(d, LaneMask(3)), 24) == ByteOf(d, 3)
    ensures Shr32(And32(d, LaneMask(2)), 8) == ByteOf(d, 2) * 0x100
    ensures Shl32(And32(d, LaneMask(1)), 8) == ByteOf(d, 1) * 0x1_0000
    ensures Shl32(And32(d, LaneMask(0)), 24) == ByteOf(d, 0) * 0x100_0000
  {
    Pow2Table();
    MaskLane(d, 0);
    MaskLane(d, 1);
    MaskLane(d, 2);
    MaskLane(d, 3);
    DivModUniqueQ(ByteOf(d, 3) * 0x100_0000, 0x100_0000, ByteOf(d, 3), 0);
    DivModUniqueQ(ByteOf(d, 2) * 0x1_0000, 0x100, ByteOf(d, 2) * 0x100, 0);
    DivModUnique(ByteOf(d, 1) * 0x1_0000, TWO32, 0, ByteOf(d, 1) * 0x1_0000);
    DivModUnique(ByteOf(d, 0) * 0x100_0000, TWO32, 0, ByteOf(d, 0) * 0x100_0000);
    assert ByteOf(d, 1) * 0x100 * 0x100 == ByteOf(d, 1) * 0x1_0000;
  }

  /** OR of a value below 2^k with a value whose low k bits are clear is a
      sum. */
  lemma OrDisjointLow(a: nat, b: nat, k: nat)
    requires a < Pow2(k) && b % Pow2(k) == 0
    ensures Or(a, b) == a + b
  {
    var p := Pow2(k);
    var h := b / p;
    assert b == h * p;
    ShlMul(h, k);
    ShlMul(0, k);
    OrSplit(k, a, 0, a, b, h, 0);
    ShlMul(Or(0, h), k);
    OrZero(h);
    OrZero(a);
  }

  /** The swap reverses the four bytes: it is the word whose bytes, from
      the least significant, are the input's from the most significant. */
  lemma UndoLittleEndianReverses(d: Word)
    ensures UndoLittleEndian(d) == ByteOf(d, 3) + ByteOf(d, 2) * 0x100 + ByteOf(d, 1) * 0x1_0000 + ByteOf(d, 0) * 0x100_0000
  {
    SwapTerms(d);
    assert Pow2(8) == 0x100 && Pow2(16) == 0x1_0000 && Pow2(24) == 0x100_0000 by {
      Pow2Table();
    }
    var b0: nat, b1: nat, b2: nat, b3: nat := ByteOf(d, 0), ByteOf(d, 1), ByteOf(d, 2), ByteOf(d, 3);
    DivModUniqueQ(b2 * 0x100, 0x100, b2, 0);
    DivModUniqueQ(b1 * 0x1_0000, 0x1_0000, b1, 0);
    DivModUniqueQ(b0 * 0x100_0000, 0x100_0000, b0, 0);
    OrDisjointLow(b3, b2 * 0x100, 8);
    OrDisjointLow(b3 + b2 * 0x100, b1 * 0x1_0000, 16);
    OrDisjointLow(b3 + b2 * 0x100 + b1 * 0x1_0000, b0 * 0x100_0000, 24);
  }

  /** Byte i of the swapped word is byte 3 - i of the input. */
  lemma UndoLittleEndianBytes(d: Word, i: nat)
    requires i < 4
    ensures ByteOf(UndoLittleEndian(d), i) == ByteOf(d, 3 - i)
  {
    UndoLittleEndianReverses(d);
    BytesWord(ByteOf(d, 3), ByteOf(d, 2), ByteOf(d, 1), ByteOf(d, 0));
  }

  /** Swapping twice gives the word back. */
  lemma UndoLittleEndianInvolution(d: Word)
    ensures UndoLittleEndian(UndoLittleEndian(d)) == d
  {
    var r := UndoLittleEndian(d);
    UndoLittleEndianReverses(r);
    UndoLittleEndianBytes(d, 0);
    UndoLittleEndianBytes(d, 1);
    UndoLittleEndianBytes(d, 2);
    UndoLittleEndianBytes(d, 3);
    WordBytes(d);
  }
}
