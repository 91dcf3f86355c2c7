/** The set-associative cache of code/src/cache.cpp: geometry, the address
    split into tag, set index and block offset, and the operations that
    look up, touch, evict and install blocks in place. Each operation is
    proved to leave the sets as the matching function of CacheSets says. */
module Caches {
  import opened Bits
  import opened CacheMath
  import opened CacheBlocks
  import opened CacheSets

  /** What `evict` reports: nothing, or the address and bytes of a valid
      dirty block that must be written back. */
  datatype Eviction = Clean | Dirty(addr: Word, data: seq<Byte>)

  /** The index and offset together stay below the tag's weight. */
  lemma LowPartBound(i: nat, o: nat, p: nat, n: nat)
    requires i < n && o < p
    ensures i * p + o < p * n
  {
    MulMonotone(p, i, n - 1);
    Distrib(p, n - 1, 1);
  }

  /** Shifting and masking an address built from three fields gives each
      field back. */
  lemma FieldDigits(t: nat, i: nat, o: nat, p: nat, n: nat)
    requires 0 < p && 0 < n && i < n && o < p
    ensures var a := t * (p * n) + i * p + o;
      a / (p * n) == t && (a / p) % n == i && a % p == o
  {
    LowPartBound(i, o, p, n);
    var a := t * (p * n) + i * p + o;
    DivModUniqueQ(a, p * n, t, i * p + o);
    assert t * (p * n) == (t * n) * p;
    DivModUniqueQ(a, p, t * n + i, o);
    DivModUniqueQ(t * n + i, n, t, i);
  }

  /** A left shift that loses no bits is a multiplication. */
  lemma ShlNoWrap(x: Word, k: nat)
    requires x * Pow2(k) < TWO32
    ensures Shl32(x, k) == x * Pow2(k)
  {
    MulNonneg(x, Pow2(k));
    DivModUnique(x * Pow2(k), TWO32, 0, x * Pow2(k));
  }

  /** The OR of the shifted fields is their sum. */
  lemma FieldsOr(t: Word, i: Word, o: Word, ob: nat, sb: nat)
    requires ob + sb < 32 && t < Pow2(32 - (ob + sb)) && i < Pow2(sb) && o < Pow2(ob)
    ensures var a := t * Pow2(ob + sb) + i * Pow2(ob) + o;
      0 <= a < TWO32 && Or32(Or32(Shl32(t, ob + sb), Shl32(i, ob)), o) == a
  {
    var p, n, q, m := Pow2(ob), Pow2(sb), Pow2(ob + sb), Pow2(32 - (ob + sb));
    assert q == p * n && TWO32 == q * m by {
      Pow2Add(ob, sb);
      Pow2Add(ob + sb, 32 - (ob + sb));
      Pow2Top();
    }
    LowPartBound(i, o, p, n);
    LowPartBound(t, q - 1, q, m);
    MulNonneg(i, p);
    MulNonneg(t, q);
    ShlNoWrap(t, ob + sb);
    ShlNoWrap(i, ob);
    DivModUniqueQ(t * q, q, t, 0);
    Regroup(t, n, i, p, q);
    MulNonneg(t, n);
    FieldsOrSum(t * q, i * p, o, t * n + i, ob, sb);
  }

  /** The tag and index weights regrouped around the offset weight. */
  lemma Regroup(t: int, n: int, i: int, p: int, q: int)
    requires q == p * n
    ensures (t * n + i) * p == t * q + i * p
  {
  }

  /** The two ORs of `FieldsOr` on the shifted values. */
  lemma FieldsOrSum(hi: nat, mid: nat, o: nat, h: nat, ob: nat, sb: nat)
    requires hi % Pow2(ob + sb) == 0 && mid < Pow2(ob + sb) && o < Pow2(ob)
    requires hi + mid == h * Pow2(ob)
    ensures Or(Or(hi, mid), o) == hi + mid + o
  {
    OrDisjoint(hi, mid, ob + sb);
    DivModUniqueQ(hi + mid, Pow2(ob), h, 0);
    OrDisjoint(hi + mid, o, ob);
  }

  /** An address built from a tag, a set index and an offset, the fields
      laid out from the top: the OR of the shifted fields is their sum, and
      shifting and masking gives each field back. */
  lemma JoinFields(t: Word, i: Word, o: Word, ob: nat, sb: nat)
    requires ob + sb < 32 && t < Pow2(32 - (ob + sb)) && i < Pow2(sb) && o < Pow2(ob)
    ensures var a := t * Pow2(ob + sb) + i * Pow2(ob) + o;
      0 <= a < TWO32 &&
      Or32(Or32(Shl32(t, ob + sb), Shl32(i, ob)), o) == a &&
      a / Pow2(ob + sb) == t && (a / Pow2(ob)) % Pow2(sb) == i && a % Pow2(ob) == o
  {
    FieldsOr(t, i, o, ob, sb);
    Pow2Add(ob, sb);
    FieldDigits(t, i, o, Pow2(ob), Pow2(sb));
  }

  /** Every address is its three fields put back together. */
  lemma SplitFields(a: Word, ob: nat, sb: nat)
    requires ob + sb < 32
    ensures var t, i, o := a / Pow2(ob + sb), (a / Pow2(ob)) % Pow2(sb), a % Pow2(ob);
      t < Pow2(32 - (ob + sb)) && a == t * Pow2(ob + sb) + i * Pow2(ob) + o
  {
    var p, n, q := Pow2(ob), Pow2(sb), Pow2(ob + sb);
    Pow2Add(ob, sb);
    Pow2Add(ob + sb, 32 - (ob + sb));
    Pow2Top();
    DivDiv(a, p, n);
    DivParts(a, q);
    DivAtMost(a, q);
    var t := a / q;
    if t >= Pow2(32 - (ob + sb)) {
      MulMonotone(q, Pow2(32 - (ob + sb)), t);
    }
  }

  /** `addr & ~31`: the address of its 32-byte block. */
  function ClearOffset(addr: Word): Word
  {
    And32(addr, Not32(31))
  }

  /** Clearing the offset bits rounds down to a multiple of 32. */
  lemma ClearOffsetValue(addr: Word)
    ensures ClearOffset(addr) == addr - addr % 32
  {
    Pow2Table();
    assert Pow2(27) == 0x800_0000 by {
      Pow2Add(26, 1);
    }
    ClearLowBits(addr, Not32(31), 5, 27);
  }

  /** Two addresses agree once their offsets are cleared exactly when they
      lie in the same 32-byte block. */
  lemma SameBlock(a: Word, b: Word)
    ensures ClearOffset(a) == ClearOffset(b) <==> a / 32 == b / 32
  {
    ClearOffsetValue(a);
    ClearOffsetValue(b);
  }

  class Cache {
    const numSets: nat
    const ways: nat
    const blockSize: nat
    const indexMask: Word
    const indexShift: nat
    const tagShift: nat
    var sets: seq<seq<Block>>

    /** The constructor's sizes and the shift amounts it derives from them
        with the integer logarithm; the tag shift stays below 32, so no
        shift of a 32-bit address is undefined. */
    predicate Geometry()
    {
      0 < numSets < 0x8000_0000 && 0 < blockSize < 0x8000_0000 && 0 < ways &&
      indexShift == Log2_32(blockSize) && tagShift == indexShift + Log2_32(numSets) && tagShift < 32 &&
      indexMask == numSets - 1
    }

    /** Block size and set count are powers of two. */
    predicate PowerOfTwo()
    {
      Geometry() && blockSize == Pow2(indexShift) && numSets == Pow2(tagShift - indexShift)
    }

    /** Tags have the 32 - tag_shift bits above the index. */
    function TagLimit(): nat
      requires Geometry()
    {
      Pow2(32 - tagShift)
    }

    /** A set of the cache: `ways` blocks whose tags fit. */
    predicate SetFits(blocks: seq<Block>)
      requires Geometry()
    {
      |blocks| == ways && forall j :: 0 <= j < |blocks| ==> blocks[j].tag < TagLimit()
    }

    predicate Valid()
      reads this
    {
      Geometry() && |sets| == numSets && forall i :: 0 <= i < |sets| ==> SetFits(sets[i])
    }

    /** `Cache(s, w, b)`: s sets of w new blocks of b bytes each. */
    constructor (s: nat, w: nat, b: nat)
      requires 0 < s < 0x8000_0000 && 0 < b < 0x8000_0000 && 0 < w
      requires Log2_32(b) + Log2_32(s) < 32
      ensures numSets == s && ways == w && blockSize == b && Valid()
      ensures forall i, j :: 0 <= i < s && 0 <= j < w ==> sets[i][j] == FreshBlock(b)
    {
      numSets, ways, blockSize := s, w, b;
      indexShift := Log2_32(b);
      indexMask := s - 1;
      tagShift := Log2_32(b) + Log2_32(s);
      var all: seq<seq<Block>> := [];
      var i := 0;
      while i < s
        invariant 0 <= i <= s && |all| == i
        invariant forall k :: 0 <= k < i ==> |all[k]| == w && forall j :: 0 <= j < w ==> all[k][j] == FreshBlock(b)
      {
        var blocks := NewSet(w, b);
        all := all + [blocks];
        i := i + 1;
      }
      sets := all;
    }

    /** `get_index`: the set index, below the number of sets. */
    function GetIndex(addr: Word): (r: Word)
      requires Geometry()
      ensures r < numSets
    {
      var x := Shr32(addr, indexShift);
      AndCommutes(x, indexMask);
      AndNonneg(indexMask, x);
      And32(x, indexMask)
    }

    /** `get_tag`: the bits above the index, below the tag limit. */
    function GetTag(addr: Word): (r: Word)
      requires Geometry()
      ensures r < TagLimit()
    {
      SplitFields(addr, indexShift, tagShift - indexShift);
      Shr32(addr, tagShift)
    }

    /** `get_block_offset`: the byte within the block, below the block size. */
    function GetBlockOffset(addr: Word): (r: Word)
      requires Geometry()
      ensures r < blockSize
    {
      AndCommutes(addr, blockSize - 1);
      AndNonneg(blockSize - 1, addr);
      And32(addr, blockSize - 1)
    }

    /** The block address `evict` rebuilds from a tag and a set index. */
    function BlockAddress(tag: Word, setIdx: Word): Word
      requires Geometry()
    {
      Or32(Shl32(tag, tagShift), Shl32(setIdx, indexShift))
    }

    /** With power-of-two sizes the fields are the address's digits. */
    lemma FieldsAreDigits(addr: Word)
      requires PowerOfTwo()
      ensures GetTag(addr) == addr / Pow2(tagShift)
      ensures GetIndex(addr) == (addr / Pow2(indexShift)) % numSets
      ensures GetBlockOffset(addr) == addr % Pow2(indexShift)
    {
      AndLowMask(Shr32(addr, indexShift), tagShift - indexShift);
      AndLowMask(addr, indexShift);
    }

    /** Tag, index and offset put back together give the address:
        `(tag << tag_shift) | (index << index_shift) | offset == addr`. */
    lemma AddressRecombines(addr: Word)
      requires PowerOfTwo()
      ensures Or32(BlockAddress(GetTag(addr), GetIndex(addr)), GetBlockOffset(addr)) == addr
    {
      FieldsAreDigits(addr);
      var ob, sb := indexShift, tagShift - indexShift;
      SplitFields(addr, ob, sb);
      Pow2Add(ob, sb);
      JoinFields(addr / Pow2(ob + sb), (addr / Pow2(ob)) % Pow2(sb), addr % Pow2(ob), ob, sb);
    }

    /** The address `evict` rebuilds splits back into the block's tag and
        set, at offset 0. */
    lemma BlockAddressRoundTrip(tag: Word, setIdx: Word)
      requires PowerOfTwo() && tag < TagLimit() && setIdx < numSets
      ensures var a := BlockAddress(tag, setIdx);
        GetTag(a) == tag && GetIndex(a) == setIdx && GetBlockOffset(a) == 0
    {
      var ob, sb := indexShift, tagShift - indexShift;
      JoinFields(tag, setIdx, 0, ob, sb);
      var a := BlockAddress(tag, setIdx);
      OrZero(a);
      FieldsAreDigits(a);
    }

    /** With power-of-two sizes the shift amounts are the exponents. */
    lemma PowerOfTwoShifts(ob: nat, sb: nat)
      requires Geometry() && blockSize == Pow2(ob) && numSets == Pow2(sb)
      ensures PowerOfTwo() && indexShift == ob && tagShift == ob + sb
    {
      Pow2Top();
      if ob > 30 {
        Pow2Monotone(31, ob);
      }
      if sb > 30 {
        Pow2Monotone(31, sb);
      }
      Log2OfPow2(ob);
      Log2OfPow2(sb);
    }

    /** Two addresses in the same 32-byte block of a cache with 32-byte
        blocks map to the same set and tag. */
    lemma SameBlockSameSlot(a: Word, b: Word)
      requires Geometry() && blockSize == 32 && a / 32 == b / 32
      ensures GetIndex(a) == GetIndex(b) && GetTag(a) == GetTag(b)
    {
      Pow2Table();
      Log2OfPow2(5);
      Pow2Add(5, tagShift - 5);
      DivDiv(a, 32, Pow2(tagShift - 5));
      DivDiv(b, 32, Pow2(tagShift - 5));
    }

    /** The sets after `install(addr)`: the victim way of the address's set
        takes its tag. */
    function InstallSets(sets: seq<seq<Block>>, addr: Word): seq<seq<Block>>
      requires Geometry() && |sets| == numSets && forall i :: 0 <= i < |sets| ==> |sets[i]| == ways
    {
      var idx := GetIndex(addr);
      sets[idx := Installed(sets[idx], GetTag(addr))]
    }

    /** The sets after a probe of `addr`. */
    function ProbeSets(sets: seq<seq<Block>>, addr: Word, write: bool): seq<seq<Block>>
      requires Geometry() && |sets| == numSets
    {
      var idx := GetIndex(addr);
      sets[idx := Probed(sets[idx], GetTag(addr), write)]
    }

    /** Whether the cache holds the block of `addr`. */
    predicate Present(addr: Word)
      requires Valid()
      reads this
    {
      FirstMatch(sets[GetIndex(addr)], GetTag(addr)) >= 0
    }

    /** `find_block`: the lowest valid way whose tag matches, or -1. */
    method FindBlock(setIdx: Word, tag: Word) returns (way: int)
      requires Valid() && setIdx < numSets
      ensures way == FirstMatch(sets[setIdx], tag)
    {
      var blocks := sets[setIdx];
      var i := 0;
      while i < ways
        invariant 0 <= i <= ways
        invariant forall j :: 0 <= j < i ==> !Matches(blocks[j], tag)
      {
        if blocks[i].tag == tag && blocks[i].state != Invalid {
          return i;
        }
        i := i + 1;
      }
      return -1;
    }

    /** `update_lru`: the way becomes the most recent; each other valid way
        more recent than it ages by one. */
    method UpdateLru(setIdx: Word, way: nat)
      requires Valid() && setIdx < numSets && way < ways
      modifies this
      ensures Valid() && sets == old(sets)[setIdx := AgeSet(old(sets[setIdx]), way)]
    {
      ghost var orig := sets[setIdx];
      var blocks := sets[setIdx];
      var currentLru := blocks[way].lru;
      var i := 0;
      while i < ways
        invariant 0 <= i <= ways && |blocks| == ways
        invariant forall j :: 0 <= j < ways ==>
          blocks[j] == if j < i && j != way then Aged(orig[j], currentLru) else orig[j]
      {
        if i != way && blocks[i].state != Invalid {
          if blocks[i].lru < currentLru {
            blocks := blocks[i := blocks[i].(lru := blocks[i].lru + 1)];
          }
        }
        i := i + 1;
      }
      blocks := blocks[way := blocks[way].(lru := 0)];
      assert blocks == AgeSet(orig, way);
      sets := sets[setIdx := blocks];
    }

    /** `find_victim`: the lowest INVALID way, otherwise the way with the
        largest counter, the highest on a tie. */
    method FindVictim(setIdx: Word) returns (way: int)
      requires Valid() && setIdx < numSets
      ensures way == Victim(sets[setIdx])
    {
      var blocks := sets[setIdx];
      var i := 0;
      while i < ways
        invariant 0 <= i <= ways
        invariant forall j :: 0 <= j < i ==> blocks[j].state != Invalid
      {
        if blocks[i].state == Invalid {
          return i;
        }
        i := i + 1;
      }
      var victim := -1;
      var maxLru := 0;
      i := 0;
      while i < ways
        invariant 0 <= i <= ways
        invariant i == 0 ==> victim == -1 && maxLru == 0
        invariant i > 0 ==> 0 <= victim < i && victim == LastMax(blocks[..i]) && maxLru == blocks[victim].lru
      {
        assert blocks[..i + 1][..i] == blocks[..i];
        if blocks[i].lru >= maxLru {
          maxLru := blocks[i].lru;
          victim := i;
        }
        i := i + 1;
      }
      assert blocks[..ways] == blocks;
      return victim;
    }

    /** `probe_read`: on a hit the way (the block the source points to) is
        touched; a miss (-1) changes nothing. */
    method ProbeRead(addr: Word) returns (way: int)
      requires Valid()
      modifies this
      ensures Valid()
      ensures var idx, tag := GetIndex(addr), GetTag(addr);
        way == FirstMatch(old(sets[idx]), tag) &&
        sets == old(sets)[idx := Probed(old(sets[idx]), tag, false)]
    {
      var setIdx := GetIndex(addr);
      var tag := GetTag(addr);
      way := FindBlock(setIdx, tag);
      if way != -1 {
        UpdateLru(setIdx, way);
      } else {
        assert sets == sets[setIdx := sets[setIdx]];
      }
    }

    /** `probe_write` without a data payload: on a hit the way is touched
        and marked dirty. */
    method ProbeWrite(addr: Word) returns (hit: bool)
      requires Valid()
      modifies this
      ensures Valid()
      ensures var idx, tag := GetIndex(addr), GetTag(addr);
        hit == (FirstMatch(old(sets[idx]), tag) >= 0) &&
        sets == old(sets)[idx := Probed(old(sets[idx]), tag, true)]
    {
      var setIdx := GetIndex(addr);
      var tag := GetTag(addr);
      var way := FindBlock(setIdx, tag);
      if way != -1 {
        UpdateLru(setIdx, way);
        var blocks := sets[setIdx];
        sets := sets[setIdx := blocks[way := blocks[way].(dirty := true)]];
        return true;
      }
      assert sets == sets[setIdx := sets[setIdx]];
      return false;
    }

    /** `evict`: the way turns INVALID and clean; a valid dirty block is
        reported with the address rebuilt from its tag and set. */
    method Evict(setIdx: Word, way: nat) returns (ev: Eviction)
      requires Valid() && setIdx < numSets && way < ways
      modifies this
      ensures Valid()
      ensures var b := old(sets[setIdx][way]);
        (ev.Dirty? <==> b.state != Invalid && b.dirty) &&
        (ev.Dirty? ==> ev.addr == BlockAddress(b.tag, setIdx) && ev.data == b.data) &&
        sets == old(sets)[setIdx := old(sets[setIdx])[way := b.(state := Invalid, dirty := false)]]
      ensures ev.Dirty? && PowerOfTwo() ==>
        GetTag(ev.addr) == old(sets[setIdx][way]).tag && GetIndex(ev.addr) == setIdx && GetBlockOffset(ev.addr) == 0
    {
      var blocks := sets[setIdx];
      var block := blocks[way];
      if block.state != Invalid && block.dirty {
        ev := Dirty(BlockAddress(block.tag, setIdx), block.data);
        if PowerOfTwo() {
          BlockAddressRoundTrip(block.tag, setIdx);
        }
      } else {
        ev := Clean;
      }
      sets := sets[setIdx := blocks[way := block.(state := Invalid, dirty := false)]];
    }

    /** `install` without a data payload: the victim is evicted and takes
        the block of `addr` as EXCLUSIVE, clean and most recent. Because
        the counter is zeroed before `update_lru`, no other way ages; the
        cache then holds the block. */
    method Install(addr: Word) returns (way: int, ev: Eviction)
      requires Valid()
      modifies this
      ensures Valid() && Present(addr)
      ensures var idx, tag := GetIndex(addr), GetTag(addr);
        var v := Victim(old(sets[idx]));
        var b := old(sets[idx][v]);
        way == v && sets == old(sets)[idx := Installed(old(sets[idx]), tag)] &&
        (ev.Dirty? <==> b.state != Invalid && b.dirty) &&
        (ev.Dirty? ==> ev.addr == BlockAddress(b.tag, idx) && ev.data == b.data)
    {
      var setIdx := GetIndex(addr);
      var tag := GetTag(addr);
      ghost var orig := sets[setIdx];
      way := FindVictim(setIdx);
      ev := Evict(setIdx, way);
      var blocks := sets[setIdx];
      blocks := blocks[way := blocks[way].(tag := tag, state := Exclusive, dirty := false, lru := 0)];
      assert blocks == Installed(orig, tag);
      sets := sets[setIdx := blocks];
      ZeroPivotAgesNothing(blocks, way);
      UpdateLru(setIdx, way);
      InstallHolds(orig, tag);
    }
  }
}
