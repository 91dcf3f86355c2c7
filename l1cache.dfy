/** A core's blocking L1 cache of code/src/cache.cpp: a cache of 32-byte
    blocks that, on a miss, asks the L2 and then stalls every access until
    the pending block has been filled. */
module L1Caches {
  import opened Bits
  import opened CacheBlocks
  import opened CacheSets
  import opened Caches
  import opened L2Caches
  import CacheMath

  class L1Cache {
    const id: int
    const l2: L2Cache
    const cache: Cache
    var pendingMiss: bool
    var pendingMissAddr: Word
    var pendingMissReadyCycle: nat

    predicate Valid()
      reads this, cache, l2, l2.cache, l2.mshrs
    {
      cache.Valid() && cache.blockSize == BLOCK_SIZE && l2.Valid() && cache != l2.cache
    }

    /** `L1Cache(core_id, l2, s, w)`: s sets of w new 32-byte blocks and
        no miss pending. */
    constructor (coreId: int, l2: L2Cache, s: nat, w: nat)
      requires l2.Valid()
      requires 0 < s < 0x8000_0000 && 0 < w && CacheMath.Log2_32(BLOCK_SIZE) + CacheMath.Log2_32(s) < 32
      ensures Valid() && fresh(cache) && id == coreId && this.l2 == l2
      ensures cache.numSets == s && cache.ways == w
      ensures !pendingMiss && pendingMissAddr == 0 && pendingMissReadyCycle == 0
    {
      id, this.l2 := coreId, l2;
      cache := new Cache(s, w, BLOCK_SIZE);
      pendingMiss, pendingMissAddr, pendingMissReadyCycle := false, 0, 0;
    }

    /** `fill(addr)`: when a miss is pending and addr lies in the pending
        block, the pending address is installed and the miss is over;
        otherwise nothing happens. */
    method Fill(addr: Word)
      requires Valid()
      modifies this, cache
      ensures Valid() && pendingMissAddr == old(pendingMissAddr) && pendingMissReadyCycle == old(pendingMissReadyCycle)
      ensures var act := old(pendingMiss) && addr / 32 == old(pendingMissAddr) / 32;
        (act ==> !pendingMiss && cache.sets == old(cache.InstallSets(cache.sets, pendingMissAddr)) && cache.Present(addr)) &&
        (!act ==> pendingMiss == old(pendingMiss) && cache.sets == old(cache.sets))
    {
      SameBlock(addr, pendingMissAddr);
      if pendingMiss && ClearOffset(addr) == ClearOffset(pendingMissAddr) {
        var way, ev := cache.Install(pendingMissAddr);
        cache.SameBlockSameSlot(addr, pendingMissAddr);
        pendingMiss := false;
      }
    }

    /** `access(addr, is_write, is_data_cache)` at cycle `statCycles`, with
        `l2HitLatency` cycles for an L2 hit and `l2ToDramDelay` cycles from
        the L2 to DRAM. While a miss is pending and not yet ready the access
        stalls and nothing changes. Otherwise a ready pending miss is filled
        first and the access then probes; it succeeds exactly on a hit. On
        a miss the L2 is asked: its hit makes the miss pending, ready after
        the hit latency; its miss makes it pending with the ready cycle left
        as it was; a busy L2 leaves the access to be retried. An access to
        the block of a pending miss that is ready succeeds. */
    method Access(addr: Word, isWrite: bool, isDataCache: bool, statCycles: nat, l2HitLatency: nat, l2ToDramDelay: nat)
      returns (ok: bool)
      requires Valid()
      modifies this, cache, l2, l2.cache, l2.mshrs
      ensures Valid()
      ensures old(pendingMiss) && statCycles < old(pendingMissReadyCycle) ==>
        !ok && pendingMiss && pendingMissAddr == old(pendingMissAddr) && pendingMissReadyCycle == old(pendingMissReadyCycle) &&
        cache.sets == old(cache.sets) && l2.cache.sets == old(l2.cache.sets) && l2.mshrs[..] == old(l2.mshrs[..]) &&
        l2.reqQueue == old(l2.reqQueue) && l2.retQueue == old(l2.retQueue)
      ensures !(old(pendingMiss) && statCycles < old(pendingMissReadyCycle)) ==>
        var filled := if old(pendingMiss) then old(cache.InstallSets(cache.sets, pendingMissAddr)) else old(cache.sets);
        var hit := FirstMatch(filled[cache.GetIndex(addr)], cache.GetTag(addr)) >= 0;
        var step := old(l2.AccessStep(l2.cache.sets, l2.mshrs[..], l2.reqQueue, addr, isWrite, id, statCycles, l2ToDramDelay));
        ok == hit && cache.sets == cache.ProbeSets(filled, addr, isWrite) && l2.retQueue == old(l2.retQueue) &&
        (hit ==> !pendingMiss && pendingMissAddr == old(pendingMissAddr) && pendingMissReadyCycle == old(pendingMissReadyCycle) &&
                 l2.cache.sets == old(l2.cache.sets) && l2.mshrs[..] == old(l2.mshrs[..]) && l2.reqQueue == old(l2.reqQueue)) &&
        (!hit ==> l2.cache.sets == step.sets && l2.mshrs[..] == step.mshrs && l2.reqQueue == step.reqQueue &&
                  pendingMiss == (step.status != Busy) &&
                  pendingMissAddr == (if step.status == Busy then old(pendingMissAddr) else addr) &&
                  pendingMissReadyCycle == (if step.status == Hit then statCycles + l2HitLatency else old(pendingMissReadyCycle)))
      ensures old(pendingMiss) && statCycles >= old(pendingMissReadyCycle) && addr / 32 == old(pendingMissAddr) / 32 ==> ok
    {
      if pendingMiss {
        if statCycles >= pendingMissReadyCycle {
          Fill(pendingMissAddr);
          if addr / 32 == pendingMissAddr / 32 {
            cache.SameBlockSameSlot(addr, pendingMissAddr);
          }
        } else {
          return false;
        }
      }
      if isWrite {
        var hit := cache.ProbeWrite(addr);
        if hit {
          return true;
        }
      } else {
        var way := cache.ProbeRead(addr);
        if way != -1 {
          return true;
        }
      }
      var status := l2.Access(addr, isWrite, id, statCycles, l2ToDramDelay);
      if status == Hit {
        pendingMiss := true;
        pendingMissAddr := addr;
        pendingMissReadyCycle := statCycles + l2HitLatency;
      } else if status == Miss {
        pendingMiss := true;
        pendingMissAddr := addr;
      }
      return false;
    }
  }
}
