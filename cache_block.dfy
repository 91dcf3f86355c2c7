/** A cache block of code/src/cache.h: tag, MESI state, dirty bit, LRU
    counter and its data bytes, with little-endian word access. */
module CacheBlocks {
  import opened Bits
  import MemAccess
  import CacheMath

  /** MESI_State (INVALID = 0 ... MODIFIED = 3). */
  datatype Mesi = Invalid | Shared | Exclusive | Modified

  datatype Block = Block(tag: Word, state: Mesi, dirty: bool, lru: Word, data: seq<Byte>)

  /** `CacheBlock(size)`: tag 0, invalid, clean, counter 0, `size` zero bytes. */
  function FreshBlock(size: nat): Block
  {
    Block(0, Invalid, false, 0, seq(size, _ => 0))
  }

  /** The guard of `read_word`/`write_word` as written: `offset + 4` is
      computed on `uint32_t`, so it wraps for offsets from 2^32 - 4 up. */
  predicate GuardAsWritten(offset: Word, size: nat)
  {
    Wrap(offset + 4) > size
  }

  /** The four bytes at `offset` lie inside the data. */
  predicate Fits(offset: Word, size: nat)
  {
    offset + 4 <= size
  }

  /** The guard as written lets every offset from 2^32 - 4 up through on a
      block of at least 3 bytes (`offset + 4` wraps to 0..3), although the
      four bytes lie outside the data; on a 32-byte block 0xFFFFFFFC is one. */
  lemma GuardLetsWrappedOffsetThrough(offset: Word, size: nat)
    requires TWO32 - 4 <= offset && 3 <= size < TWO32
    ensures Wrap(offset + 4) == offset + 4 - TWO32
    ensures !GuardAsWritten(offset, size) && !Fits(offset, size)
  {
  }

  /** Below the wrap-around the guard as written is the bounds check. */
  lemma GuardAgreesBelowWrap(offset: Word, size: nat)
    requires offset + 4 < TWO32
    ensures GuardAsWritten(offset, size) <==> !Fits(offset, size)
  {
  }

  /** `read_word(offset)`: the little-endian word at `offset`, or 0 when
      its bytes do not fit. */
  function ReadWord(b: Block, offset: Word): Word
  {
    if !Fits(offset, |b.data|) then 0
    else
      var d := b.data;
      Or32(Or32(Or32(d[offset], Shl32(d[offset + 1], 8)), Shl32(d[offset + 2], 16)), Shl32(d[offset + 3], 24))
  }

  /** `x & 0xFF`. */
  function LowByte(x: Word): Byte
  {
    MemAccess.LowByteMask(x);
    And32(x, 0xFF)
  }

  /** `write_word(offset, val)`: the four bytes of `val`, low byte first,
      at `offset`; nothing when they do not fit. */
  function WriteWord(b: Block, offset: Word, val: Word): Block
  {
    if !Fits(offset, |b.data|) then b
    else
      b.(data := b.data[offset := LowByte(val)][offset + 1 := LowByte(Shr32(val, 8))]
                       [offset + 2 := LowByte(Shr32(val, 16))][offset + 3 := LowByte(Shr32(val, 24))])
  }

  /** The word read is the little-endian sum of the four bytes. */
  lemma ReadWordValue(b: Block, offset: Word)
    requires Fits(offset, |b.data|)
    ensures var d := b.data;
      ReadWord(b, offset) == d[offset] as int + d[offset + 1] as int * 0x100 + d[offset + 2] as int * 0x1_0000 + d[offset + 3] as int * 0x100_0000
  {
    var d := b.data;
    var b0: nat, b1: nat, b2: nat, b3: nat := d[offset], d[offset + 1], d[offset + 2], d[offset + 3];
    assert Pow2(8) == 0x100 && Pow2(16) == 0x1_0000 && Pow2(24) == 0x100_0000 by {
      Pow2Table();
    }
    DivModUnique(b1 * 0x100, TWO32, 0, b1 * 0x100);
    DivModUnique(b2 * 0x1_0000, TWO32, 0, b2 * 0x1_0000);
    DivModUnique(b3 * 0x100_0000, TWO32, 0, b3 * 0x100_0000);
    DivModUniqueQ(b1 * 0x100, 0x100, b1, 0);
    DivModUniqueQ(b2 * 0x1_0000, 0x1_0000, b2, 0);
    DivModUniqueQ(b3 * 0x100_0000, 0x100_0000, b3, 0);
    CacheMath.OrDisjointLow(b0, b1 * 0x100, 8);
    CacheMath.OrDisjointLow(b0 + b1 * 0x100, b2 * 0x1_0000, 16);
    CacheMath.OrDisjointLow(b0 + b1 * 0x100 + b2 * 0x1_0000, b3 * 0x100_0000, 24);
  }

  /** `write_word` is little-endian: byte i of the value lands at
      `offset + i`, and every other byte, the length and the other fields
      stay as they were. */
  lemma WriteWordLayout(b: Block, offset: Word, val: Word)
    requires Fits(offset, |b.data|)
    ensures var r := WriteWord(b, offset, val);
      |r.data| == |b.data| && r == b.(data := r.data) &&
      (forall i :: 0 <= i < 4 ==> r.data[offset + i] == ByteOf(val, i)) &&
      (forall j :: 0 <= j < |b.data| && !(offset <= j < offset + 4) ==> r.data[j] == b.data[j])
  {
    MemAccess.LoadFieldsAreMasks(val, 0);
    MemAccess.LoadFieldsAreMasks(val, 1);
    MemAccess.LoadFieldsAreMasks(val, 2);
    MemAccess.LoadFieldsAreMasks(val, 3);
    assert Shr32(val, 0) == val;
  }

  /** Reading back the word just written gives the value written. */
  lemma ReadAfterWrite(b: Block, offset: Word, val: Word)
    requires Fits(offset, |b.data|)
    ensures ReadWord(WriteWord(b, offset, val), offset) == val
  {
    WriteWordLayout(b, offset, val);
    ReadWordValue(WriteWord(b, offset, val), offset);
    WordBytes(val);
  }

  /** A write leaves a word elsewhere in the block as it reads. */
  lemma WriteLeavesOtherWords(b: Block, offset: Word, other: Word, val: Word)
    requires Fits(offset, |b.data|) && (other + 4 <= offset || offset + 4 <= other)
    ensures ReadWord(WriteWord(b, offset, val), other) == ReadWord(b, other)
  {
    WriteWordLayout(b, offset, val);
  }

  /** Out of range, `read_word` gives 0 and `write_word` changes nothing. */
  lemma OutOfRangeIsInert(b: Block, offset: Word, val: Word)
    requires !Fits(offset, |b.data|)
    ensures ReadWord(b, offset) == 0 && WriteWord(b, offset, val) == b
  {
  }

  /** A new block reads as zeros everywhere. */
  lemma FreshBlockReadsZero(size: nat, offset: Word)
    ensures ReadWord(FreshBlock(size), offset) == 0
  {
    if Fits(offset, size) {
      ReadWordValue(FreshBlock(size), offset);
    }
  }

  /** The `CacheSet` constructor: `ways` new blocks of `blockSize` bytes. */
  method NewSet(ways: nat, blockSize: nat) returns (blocks: seq<Block>)
    ensures |blocks| == ways && forall i :: 0 <= i < |blocks| ==> blocks[i] == FreshBlock(blockSize)
  {
    blocks := [];
    var i := 0;
    while i < ways
      invariant 0 <= i <= ways && |blocks| == i
      invariant forall j :: 0 <= j < i ==> blocks[j] == FreshBlock(blockSize)
    {
      blocks := blocks + [FreshBlock(blockSize)];
      i := i + 1;
    }
  }
}
