/** Bit-level arithmetic shared by the assembler, the pipeline and the caches.

    Values are mathematical integers. The bitwise operators `Or`, `And` and `Xor`
    are defined on all of `int` with two's-complement meaning, which is exactly
    Python's semantics for `|`, `&` and `^`; on values in 0 .. 2^32-1 they agree
    with C's operators on `uint32_t`. A left shift `x << k` is `x * Pow2(k)`, a
    right shift `x >> k` is `x / Pow2(k)` (Dafny's division by a positive number
    rounds down, like Python's `>>` and like C's `>>` on unsigned values). */
module Bits {

  /** A C `uint32_t`. */
  type Word = x: int | 0 <= x < 0x1_0000_0000

  /** A C `uint8_t`. */
  type Byte = x: int | 0 <= x < 0x100

  const TWO32: int := 0x1_0000_0000

  function Pow2(n: nat): (r: nat)
    ensures r >= 1
  {
    if n == 0 then 1 else 2 * Pow2(n - 1)
  }

  /** The powers of two that the instruction formats and the caches use. */
  lemma Pow2Table()
    ensures Pow2(0) == 1 && Pow2(1) == 2 && Pow2(2) == 4 && Pow2(5) == 32 && Pow2(6) == 64
    ensures Pow2(8) == 0x100 && Pow2(11) == 0x800 && Pow2(15) == 0x8000 && Pow2(16) == 0x1_0000
    ensures Pow2(21) == 0x20_0000 && Pow2(24) == 0x100_0000 && Pow2(26) == 0x400_0000
    ensures Pow2(28) == 0x1000_0000 && Pow2(31) == 0x8000_0000 && Pow2(32) == 0x1_0000_0000
  {
    assert Pow2(5) == 32;
    assert Pow2(8) == 0x100;
    assert Pow2(11) == 0x800;
    assert Pow2(15) == 0x8000;
    assert Pow2(16) == 0x1_0000;
    assert Pow2(21) == 0x20_0000;
    assert Pow2(24) == 0x100_0000;
    assert Pow2(26) == 0x400_0000;
    assert Pow2(28) == 0x1000_0000;
    assert Pow2(31) == 0x8000_0000;
  }

  lemma {:induction false} Pow2Add(a: nat, b: nat)
    ensures Pow2(a + b) == Pow2(a) * Pow2(b)
  {
    if a > 0 {
      Pow2Add(a - 1, b);
      assert Pow2(a + b) == 2 * Pow2(a - 1 + b);
    }
  }

  lemma {:induction false} Pow2Monotone(a: nat, b: nat)
    requires a <= b
    ensures Pow2(a) <= Pow2(b)
  {
    if a < b {
      Pow2Monotone(a, b - 1);
    }
  }

  lemma Double(x: int, p: int)
    ensures 2 * (x * p) == x * (2 * p)
  {}

  lemma MulNonneg(x: nat, y: nat)
    ensures x * y >= 0
  {}

  lemma DivAtMost(x: nat, d: int)
    requires d >= 1
    ensures 0 <= x / d <= x
  {
    DivModUnique(x, d, x / d, x % d);
    if x / d > x {
      MulAtLeast(x / d, d);
    }
  }

  lemma MulAtLeast(d: int, x: int)
    requires d > 0 && x >= 1
    ensures d * x >= d
  {}

  /** Euclidean division is determined by its defining equation. */
  lemma DivModUnique(a: int, d: int, q: int, r: int)
    requires d > 0 && a == d * q + r && 0 <= r < d
    ensures a / d == q && a % d == r
  {
    var q0, r0 := a / d, a % d;
    assert d * (q - q0) == r0 - r;
    if q - q0 >= 1 {
      MulAtLeast(d, q - q0);
    } else if q0 - q >= 1 {
      MulAtLeast(d, q0 - q);
    }
  }

  lemma Distrib(x: int, y: int, z: int)
    ensures x * (y + z) == x * y + x * z
  {}

  lemma Assoc(x: int, y: int, z: int)
    ensures x * (y * z) == (x * y) * z
  {}

  lemma MulMonotone(x: nat, y: int, z: int)
    requires y <= z
    ensures x * y <= x * z
  {
    Distrib(x, y, z - y);
    MulNonneg(x, z - y);
  }

  /** The Euclidean division identity, with the quotient written first. */
  lemma DivParts(a: int, d: int)
    requires d > 0
    ensures a == (a / d) * d + a % d && 0 <= a % d < d
  {}

  /** `DivModUnique` with the product written `q * d`. */
  lemma DivModUniqueQ(a: int, d: int, q: int, r: int)
    requires d > 0 && a == q * d + r && 0 <= r < d
    ensures a / d == q && a % d == r
  {
    assert q * d == d * q;
    DivModUnique(a, d, q, r);
  }

  /** Dividing by d1 then d2 is dividing by d1 * d2. */
  lemma DivDiv(a: int, d1: int, d2: int)
    requires d1 > 0 && d2 > 0
    ensures a / d1 / d2 == a / (d1 * d2)
    ensures a % (d1 * d2) == d1 * ((a / d1) % d2) + a % d1
  {
    var q1, r1 := a / d1, a % d1;
    var q2, r2 := q1 / d2, q1 % d2;
    assert a == d1 * q1 + r1;
    assert q1 == d2 * q2 + r2;
    assert a == (d1 * d2) * q2 + (d1 * r2 + r1) by {
      Distrib(d1, d2 * q2, r2);
      Assoc(d1, d2, q2);
    }
    assert 0 <= d1 * r2 + r1 < d1 * d2 by {
      MulNonneg(d1, r2);
      MulMonotone(d1, r2, d2 - 1);
      Distrib(d1, d2, -1);
    }
    DivModUnique(a, d1 * d2, q2, d1 * r2 + r1);
  }

  // ---------------------------------------------------------------------
  // Two's-complement bitwise operators on unbounded integers
  // ---------------------------------------------------------------------

  /** Distance from the fixed points 0 and -1 of `x >> 1`; the bitwise
      operators recurse on it. */
  function Mag(x: int): nat
  {
    if x >= 0 then x else -x - 1
  }

  lemma HalfMag(x: int)
    ensures Mag(x / 2) <= Mag(x)
    ensures x != 0 && x != -1 ==> Mag(x / 2) < Mag(x)
  {}

  /** Bit 0 of x (the same for negative x under two's complement). */
  function Low(x: int): int
  {
    x % 2
  }

  function Or(a: int, b: int): int
    decreases Mag(a) + Mag(b)
  {
    if (a == 0 || a == -1) && (b == 0 || b == -1) then
      (if a == -1 || b == -1 then -1 else 0)
    else
      HalfMag(a); HalfMag(b);
      2 * Or(a / 2, b / 2) + (if Low(a) == 1 || Low(b) == 1 then 1 else 0)
  }

  function And(a: int, b: int): int
    decreases Mag(a) + Mag(b)
  {
    if (a == 0 || a == -1) && (b == 0 || b == -1) then
      (if a == -1 && b == -1 then -1 else 0)
    else
      HalfMag(a); HalfMag(b);
      2 * And(a / 2, b / 2) + (if Low(a) == 1 && Low(b) == 1 then 1 else 0)
  }

  function Xor(a: int, b: int): int
    decreases Mag(a) + Mag(b)
  {
    if (a == 0 || a == -1) && (b == 0 || b == -1) then
      (if (a == -1) != (b == -1) then -1 else 0)
    else
      HalfMag(a); HalfMag(b);
      2 * Xor(a / 2, b / 2) + (if Low(a) != Low(b) then 1 else 0)
  }

  /** One step of the recursion of `Or` on non-negative arguments. */
  lemma OrStep(a: nat, b: nat)
    ensures Or(a, b) == 2 * Or(a / 2, b / 2) + (if Low(a) == 1 || Low(b) == 1 then 1 else 0)
  {}

  /** One step of the recursion of `And` on non-negative arguments. */
  lemma AndStep(a: nat, b: nat)
    ensures And(a, b) == 2 * And(a / 2, b / 2) + (if Low(a) == 1 && Low(b) == 1 then 1 else 0)
  {}

  /** Halving a number split at bit k splits the half at bit k-1. */
  lemma HalfSplit(k: nat, h: nat, l: nat, a: int)
    requires k > 0 && l < Pow2(k) && a == h * Pow2(k) + l
    ensures a / 2 == h * Pow2(k - 1) + l / 2
    ensures Low(a) == Low(l)
    ensures l / 2 < Pow2(k - 1)
    ensures a >= 0
  {
    var p := Pow2(k - 1);
    assert h * Pow2(k) == 2 * (h * p);
    DivModUnique(a, 2, h * p + l / 2, l % 2);
  }

  /** `h << k` written as repeated doubling, so that the split lemmas below
      stay within linear arithmetic. */
  function Shl(h: int, k: nat): int
  {
    if k == 0 then h else 2 * Shl(h, k - 1)
  }

  lemma {:induction false} ShlMul(h: int, k: nat)
    ensures Shl(h, k) == h * Pow2(k)
  {
    if k > 0 {
      ShlMul(h, k - 1);
      Double(h, Pow2(k - 1));
    }
  }

  /** Halving h << k plus a remainder below 2^k. */
  lemma HalfShl(k: nat, h: int, l: nat, a: int)
    requires k > 0 && l < Pow2(k) && a == Shl(h, k) + l
    ensures a / 2 == Shl(h, k - 1) + l / 2
    ensures Low(a) == Low(l)
    ensures l / 2 < Pow2(k - 1)
  {
    DivModUnique(a, 2, Shl(h, k - 1) + l / 2, l % 2);
  }

  /** The inductive step of OrSplit: from the split of the halves to the split of the whole. */
  lemma OrSplitStep(k: nat, a: nat, ah: nat, al: nat, b: nat, bh: nat, bl: nat)
    requires k > 0 && Low(a) == Low(al) && Low(b) == Low(bl)
    requires Or(a / 2, b / 2) == Shl(Or(ah, bh), k - 1) + Or(al / 2, bl / 2)
    ensures Or(a, b) == Shl(Or(ah, bh), k) + Or(al, bl)
  {
    OrStep(a, b);
    OrStep(al, bl);
  }

  /** Bitwise OR of two numbers split at bit k is the OR of the high parts
      above the OR of the low parts. */
  lemma {:induction false} OrSplit(k: nat, a: nat, ah: nat, al: nat, b: nat, bh: nat, bl: nat)
    requires al < Pow2(k) && bl < Pow2(k)
    requires a == Shl(ah, k) + al && b == Shl(bh, k) + bl
    ensures Or(a, b) == Shl(Or(ah, bh), k) + Or(al, bl)
  {
    if k == 0 {
      assert al == 0 && bl == 0;
    } else {
      HalfShl(k, ah, al, a);
      HalfShl(k, bh, bl, b);
      OrSplit(k - 1, a / 2, ah, al / 2, b / 2, bh, bl / 2);
      OrSplitStep(k, a, ah, al, b, bh, bl);
    }
  }

  /** The inductive step of AndSplit: from the split of the halves to the split of the whole. */
  lemma AndSplitStep(k: nat, a: nat, ah: nat, al: nat, b: nat, bh: nat, bl: nat)
    requires k > 0 && Low(a) == Low(al) && Low(b) == Low(bl)
    requires And(a / 2, b / 2) == Shl(And(ah, bh), k - 1) + And(al / 2, bl / 2)
    ensures And(a, b) == Shl(And(ah, bh), k) + And(al, bl)
  {
    AndStep(a, b);
    AndStep(al, bl);
  }

  /** Bitwise AND of two numbers split at bit k is the AND of the high parts
      above the AND of the low parts. */
  lemma {:induction false} AndSplit(k: nat, a: nat, ah: nat, al: nat, b: nat, bh: nat, bl: nat)
    requires al < Pow2(k) && bl < Pow2(k)
    requires a == Shl(ah, k) + al && b == Shl(bh, k) + bl
    ensures And(a, b) == Shl(And(ah, bh), k) + And(al, bl)
  {
    if k == 0 {
      assert al == 0 && bl == 0;
    } else {
      HalfShl(k, ah, al, a);
      HalfShl(k, bh, bl, b);
      AndSplit(k - 1, a / 2, ah, al / 2, b / 2, bh, bl / 2);
      AndSplitStep(k, a, ah, al, b, bh, bl);
    }
  }

  lemma {:induction false} OrZero(a: int)
    ensures Or(a, 0) == a && Or(0, a) == a
    decreases Mag(a)
  {
    if a != 0 && a != -1 {
      HalfMag(a);
      OrZero(a / 2);
    }
  }

  /** OR with a negative operand is negative. */
  lemma {:induction false} OrNegative(a: int, b: int)
    requires a < 0 || b < 0
    ensures Or(a, b) < 0
    decreases Mag(a) + Mag(b)
  {
    if !((a == 0 || a == -1) && (b == 0 || b == -1)) {
      HalfMag(a);
      HalfMag(b);
      OrNegative(a / 2, b / 2);
    }
  }

  lemma {:induction false} AndZero(a: int)
    ensures And(a, 0) == 0 && And(0, a) == 0
    decreases Mag(a)
  {
    if a != 0 && a != -1 {
      HalfMag(a);
      AndZero(a / 2);
    }
  }

  /** `a & (2^k - 1)` keeps the low k bits: it is `a % 2^k`, for every integer a. */
  lemma {:induction false} AndLowMask(a: int, k: nat)
    ensures And(a, Pow2(k) - 1) == a % Pow2(k)
    decreases k
  {
    if k == 0 {
      AndZero(a);
    } else {
      var m := Pow2(k) - 1;
      assert m / 2 == Pow2(k - 1) - 1 && Low(m) == 1;
      AndLowMask(a / 2, k - 1);
      DivDiv(a, 2, Pow2(k - 1));
    }
  }

  /** AND with a mask whose low k bits are clear and whose next n bits are
      set clears the low k bits of a value below 2^(k+n). */
  lemma ClearLowBits(a: nat, m: nat, k: nat, n: nat)
    requires m % Pow2(k) == 0 && m / Pow2(k) == Pow2(n) - 1 && a / Pow2(k) < Pow2(n)
    ensures And(a, m) == a - a % Pow2(k)
  {
    var p := Pow2(k);
    var r := And(a, m);
    var h := a / p;
    AndShift(a, m, k);
    assert r / p == And(h, Pow2(n) - 1);
    AndLowMask(h, n);
    DivAtMost(a, p);
    DivModUnique(h, Pow2(n), 0, h);
    assert r / p == h;
    AndZero(a % p);
    assert r % p == 0;
    AndNonneg(a, m);
    DivParts(r, p);
    DivParts(a, p);
  }

  /** OR of a value whose low k bits are clear with a value below 2^k is a sum. */
  lemma OrDisjoint(a: nat, b: nat, k: nat)
    requires a % Pow2(k) == 0 && b < Pow2(k)
    ensures Or(a, b) == a + b
  {
    var p := Pow2(k);
    var h := a / p;
    assert a == h * p;
    ShlMul(h, k);
    ShlMul(0, k);
    OrSplit(k, a, h, 0, b, 0, b);
    ShlMul(Or(h, 0), k);
    OrZero(h);
    OrZero(b);
    assert Or(a, b) == h * p + b;
  }

  lemma {:induction false} OrBound(a: nat, b: nat, k: nat)
    requires a < Pow2(k) && b < Pow2(k)
    ensures 0 <= Or(a, b) < Pow2(k)
  {
    if k > 0 && !(a == 0 && b == 0) {
      HalfSplit(k, 0, a, a);
      HalfSplit(k, 0, b, b);
      OrBound(a / 2, b / 2, k - 1);
    }
  }

  lemma {:induction false} AndBound(a: nat, b: nat, k: nat)
    requires a < Pow2(k) && b < Pow2(k)
    ensures 0 <= And(a, b) < Pow2(k)
  {
    if k > 0 && !(a == 0 && b == 0) {
      HalfSplit(k, 0, a, a);
      HalfSplit(k, 0, b, b);
      AndBound(a / 2, b / 2, k - 1);
    }
  }

  lemma {:induction false} XorBound(a: nat, b: nat, k: nat)
    requires a < Pow2(k) && b < Pow2(k)
    ensures 0 <= Xor(a, b) < Pow2(k)
  {
    if k > 0 && !(a == 0 && b == 0) {
      HalfSplit(k, 0, a, a);
      HalfSplit(k, 0, b, b);
      XorBound(a / 2, b / 2, k - 1);
    }
  }

  // ---------------------------------------------------------------------
  // C uint32_t / int32_t operations
  // ---------------------------------------------------------------------

  /** `a | b` on `uint32_t`. */
  function Or32(a: Word, b: Word): Word
  {
    Pow2Table();
    OrBound(a, b, 32);
    Or(a, b)
  }

  /** `a & b` on `uint32_t`. */
  function And32(a: Word, b: Word): Word
  {
    Pow2Table();
    AndBound(a, b, 32);
    And(a, b)
  }

  /** `a ^ b` on `uint32_t`. */
  function Xor32(a: Word, b: Word): Word
  {
    Pow2Table();
    XorBound(a, b, 32);
    Xor(a, b)
  }

  /** `~a` on `uint32_t`: every one of the 32 bits flipped. */
  function Not32(a: Word): Word
  {
    0xFFFF_FFFF - a
  }

  /** Reduction modulo 2^32: the value an unsigned C expression stores. */
  function Wrap(x: int): Word
  {
    x % TWO32
  }

  /** Adding a multiple of 2^32 leaves a value's residue unchanged. */
  lemma ModShift(x: int, q: int)
    ensures Wrap(x + q * TWO32) == Wrap(x)
  {
    DivParts(x, TWO32);
    DivModUnique(x + q * TWO32, TWO32, x / TWO32 + q, x % TWO32);
  }

  /** `(int32_t)x`: the two's-complement reading of a word. */
  function Signed(x: Word): (r: int)
    ensures -0x8000_0000 <= r < 0x8000_0000
    ensures Wrap(r) == x
  {
    if x < 0x8000_0000 then x else x - TWO32
  }

  /** `x << k` on `uint32_t` (k < 32). */
  function Shl32(x: Word, k: nat): Word
  {
    Wrap(x * Pow2(k))
  }

  /** `x >> k` on `uint32_t`. */
  function Shr32(x: Word, k: nat): Word
  {
    DivAtMost(x, Pow2(k));
    x / Pow2(k)
  }

  /** `(int32_t)x >> k`: an arithmetic shift, which rounds toward minus infinity. */
  function Sra32(x: Word, k: nat): Word
  {
    Wrap(Signed(x) / Pow2(k))
  }

  /** Byte i (0 = least significant) of a word. */
  function ByteOf(w: Word, i: nat): Byte
    requires i < 4
  {
    if i == 0 then w % 0x100
    else if i == 1 then (w / 0x100) % 0x100
    else if i == 2 then (w / 0x1_0000) % 0x100
    else w / 0x100_0000
  }

  /** A word is the little-endian sum of its four bytes. */
  lemma WordBytes(w: Word)
    ensures w == ByteOf(w, 0) + ByteOf(w, 1) * 0x100 + ByteOf(w, 2) * 0x1_0000 + ByteOf(w, 3) * 0x100_0000
  {
    var q1 := w / 0x100;
    var q2 := q1 / 0x100;
    DivDiv(w, 0x100, 0x100);
    DivDiv(w, 0x1_0000, 0x100);
    assert w == 0x100 * q1 + w % 0x100;
    assert q1 == 0x100 * q2 + q1 % 0x100;
    assert q2 == 0x100 * (q2 / 0x100) + q2 % 0x100;
  }

  /** Four bytes determine one word, and each byte of that word is the one given. */
  lemma BytesWord(b0: Byte, b1: Byte, b2: Byte, b3: Byte)
    ensures var w := b0 + b1 * 0x100 + b2 * 0x1_0000 + b3 * 0x100_0000;
      0 <= w < TWO32 &&
      ByteOf(w, 0) == b0 && ByteOf(w, 1) == b1 && ByteOf(w, 2) == b2 && ByteOf(w, 3) == b3
  {
    Pow2Table();
    var w := b0 + b1 * 0x100 + b2 * 0x1_0000 + b3 * 0x100_0000;
    DivModUnique(w, 0x100, b1 + b2 * 0x100 + b3 * 0x1_0000, b0);
    DivModUnique(w, 0x1_0000, b2 + b3 * 0x100, b0 + b1 * 0x100);
    DivModUnique(w, 0x100_0000, b3, b0 + b1 * 0x100 + b2 * 0x1_0000);
    DivModUnique(b1 + b2 * 0x100 + b3 * 0x1_0000, 0x100, b2 + b3 * 0x100, b1);
    DivModUnique(b2 + b3 * 0x100, 0x100, b3, b2);
  }

  lemma {:induction false} AndNonneg(a: nat, b: nat)
    ensures 0 <= And(a, b) <= a
    decreases a + b
  {
    if !(a == 0 && b == 0) {
      AndNonneg(a / 2, b / 2);
    }
  }

  lemma {:induction false} OrNonneg(a: nat, b: nat)
    ensures Or(a, b) >= 0
    decreases a + b
  {
    if !(a == 0 && b == 0) {
      OrNonneg(a / 2, b / 2);
    }
  }

  /** Bitwise AND commutes with splitting at bit k: the bits above and the bits below. */
  lemma AndShift(a: nat, b: nat, k: nat)
    ensures And(a, b) / Pow2(k) == And(a / Pow2(k), b / Pow2(k))
    ensures And(a, b) % Pow2(k) == And(a % Pow2(k), b % Pow2(k))
  {
    var p := Pow2(k);
    DivAtMost(a, p);
    DivAtMost(b, p);
    DivParts(a, p);
    DivParts(b, p);
    var ah, al, bh, bl := a / p, a % p, b / p, b % p;
    assert And(a, b) == And(ah, bh) * p + And(al, bl) by {
      ShlMul(ah, k);
      ShlMul(bh, k);
      AndSplit(k, a, ah, al, b, bh, bl);
      ShlMul(And(ah, bh), k);
    }
    AndBound(al, bl, k);
    AndNonneg(ah, bh);
    DivModUniqueQ(And(a, b), p, And(ah, bh), And(al, bl));
  }


  /** Bitwise OR commutes with splitting at bit k: the bits above and the bits below. */
  lemma OrShift(a: nat, b: nat, k: nat)
    ensures Or(a, b) / Pow2(k) == Or(a / Pow2(k), b / Pow2(k))
    ensures Or(a, b) % Pow2(k) == Or(a % Pow2(k), b % Pow2(k))
  {
    var p := Pow2(k);
    DivAtMost(a, p);
    DivAtMost(b, p);
    DivParts(a, p);
    DivParts(b, p);
    var ah, al, bh, bl := a / p, a % p, b / p, b % p;
    assert Or(a, b) == Or(ah, bh) * p + Or(al, bl) by {
      ShlMul(ah, k);
      ShlMul(bh, k);
      OrSplit(k, a, ah, al, b, bh, bl);
      ShlMul(Or(ah, bh), k);
    }
    OrBound(al, bl, k);
    OrNonneg(ah, bh);
    DivModUniqueQ(Or(a, b), p, Or(ah, bh), Or(al, bl));
  }


  /** Byte i of a word is the word shifted right by 8i, modulo 2^8. */
  lemma ByteLane(w: Word, i: nat)
    requires i < 4
    ensures ByteOf(w, i) == (w / Pow2(8 * i)) % Pow2(8)
  {
    Pow2Table();
  }

  /** Byte i of `a & b` is the AND of the two bytes i. */
  lemma ByteOfAnd(a: Word, b: Word, i: nat)
    requires i < 4
    ensures ByteOf(And32(a, b), i) == And(ByteOf(a, i), ByteOf(b, i))
  {
    var p := Pow2(8 * i);
    DivAtMost(a, p);
    DivAtMost(b, p);
    var ha, hb := a / p, b / p;
    ByteLane(a, i);
    ByteLane(b, i);
    ByteLane(And32(a, b), i);
    AndShift(a, b, 8 * i);
    AndShift(ha, hb, 8);
  }


  /** Byte i of `a | b` is the OR of the two bytes i. */
  lemma ByteOfOr(a: Word, b: Word, i: nat)
    requires i < 4
    ensures ByteOf(Or32(a, b), i) == Or(ByteOf(a, i), ByteOf(b, i))
  {
    var p := Pow2(8 * i);
    DivAtMost(a, p);
    DivAtMost(b, p);
    var ha, hb := a / p, b / p;
    ByteLane(a, i);
    ByteLane(b, i);
    ByteLane(Or32(a, b), i);
    OrShift(a, b, 8 * i);
    OrShift(ha, hb, 8);
  }


  lemma {:induction false} AndCommutes(a: int, b: int)
    ensures And(a, b) == And(b, a)
    decreases Mag(a) + Mag(b)
  {
    if !((a == 0 || a == -1) && (b == 0 || b == -1)) {
      HalfMag(a); HalfMag(b);
      AndCommutes(a / 2, b / 2);
    }
  }
}
