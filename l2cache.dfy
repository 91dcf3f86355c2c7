/** The shared L2 cache of code/src/cache.cpp: a cache of 512 sets of 16
    ways of 32-byte blocks, a table of 16 miss status holding registers
    (MSHRs) that track the blocks requested from DRAM, and the two delay
    queues between the L2 and DRAM. What each operation does to this state
    is first written as a function on values, and each method is proved to
    do exactly that. */
module L2Caches {
  import opened Bits
  import opened CacheBlocks
  import opened CacheSets
  import opened Caches

  const MSHR_COUNT: nat := 16
  const L2_SETS: nat := 512
  const L2_ASSOC: nat := 16
  const BLOCK_SIZE: nat := 32

  /** L2_Access_Status. */
  datatype L2Status = Busy | Hit | Miss

  /** One MSHR: a block requested from DRAM and the core that asked. */
  datatype Mshr = Mshr(valid: bool, done: bool, address: Word, isWrite: bool, coreId: int, readyCycle: nat)

  /** An entry of the request queue (towards DRAM) or of the return queue
      (a block coming back from DRAM), with the cycle it becomes ready. */
  datatype QueueItem =
    | Req(isWrite: bool, addr: Word, coreId: int, readyCycle: nat)
    | Ret(addr: Word, readyCycle: nat)

  /** An MSHR in use for `blockAddr`. */
  predicate Holds(m: Mshr, blockAddr: Word)
  {
    m.valid && m.address == blockAddr
  }

  /** The lowest MSHR in use for `blockAddr`, or -1. */
  function FindMshr(ms: seq<Mshr>, blockAddr: Word): (r: int)
    ensures -1 <= r < |ms|
    ensures r == -1 <==> forall j :: 0 <= j < |ms| ==> !Holds(ms[j], blockAddr)
    ensures 0 <= r ==> Holds(ms[r], blockAddr) && forall j :: 0 <= j < r ==> !Holds(ms[j], blockAddr)
  {
    if |ms| == 0 then -1
    else if Holds(ms[0], blockAddr) then 0
    else
      var r := FindMshr(ms[1..], blockAddr);
      if r < 0 then -1 else r + 1
  }

  /** The lowest MSHR not in use, or -1 when all are. */
  function FirstFree(ms: seq<Mshr>): (r: int)
    ensures -1 <= r < |ms|
    ensures r == -1 <==> forall j :: 0 <= j < |ms| ==> ms[j].valid
    ensures 0 <= r ==> !ms[r].valid && forall j :: 0 <= j < r ==> ms[j].valid
  {
    if |ms| == 0 then -1
    else if !ms[0].valid then 0
    else
      var r := FirstFree(ms[1..]);
      if r < 0 then -1 else r + 1
  }

  /** No two MSHRs in use track the same block. */
  predicate DistinctMshrs(ms: seq<Mshr>)
  {
    forall i, j :: 0 <= i < j < |ms| && ms[i].valid && ms[j].valid ==> ms[i].address != ms[j].address
  }

  /** The number of MSHRs in use. */
  function InUse(ms: seq<Mshr>): (r: nat)
    ensures r <= |ms|
  {
    if |ms| == 0 then 0 else InUse(ms[..|ms| - 1]) + (if ms[|ms| - 1].valid then 1 else 0)
  }

  /** Taking a free MSHR puts one more in use. */
  lemma {:induction false} TakeFreeCounts(ms: seq<Mshr>, f: nat, m: Mshr)
    requires f < |ms| && !ms[f].valid && m.valid
    ensures InUse(ms[f := m]) == InUse(ms) + 1
    decreases |ms|
  {
    var n := |ms| - 1;
    if f < n {
      assert ms[f := m][..n] == ms[..n][f := m];
      TakeFreeCounts(ms[..n], f, m);
    } else {
      assert ms[f := m][..n] == ms[..n];
    }
  }

  /** Releasing an MSHR in use puts one fewer in use. */
  lemma {:induction false} ReleaseCounts(ms: seq<Mshr>, k: nat)
    requires k < |ms| && ms[k].valid
    ensures InUse(ms[k := ms[k].(valid := false)]) + 1 == InUse(ms)
    decreases |ms|
  {
    var n := |ms| - 1;
    var m := ms[k].(valid := false);
    if k < n {
      assert ms[k := m][..n] == ms[..n][k := m];
      ReleaseCounts(ms[..n], k);
    } else {
      assert ms[k := m][..n] == ms[..n];
    }
  }

  /** The entries of a queue not yet ready at `now`, in their order: what
      one `cycle` leaves in the queue. */
  function Waiting(q: seq<QueueItem>, now: nat): (r: seq<QueueItem>)
    ensures |r| <= |q|
  {
    if |q| == 0 then []
    else Waiting(q[..|q| - 1], now) + (if now >= q[|q| - 1].readyCycle then [] else [q[|q| - 1]])
  }

  /** The addresses of the entries ready at `now`, in their order: what one
      `cycle` takes out of the queue. */
  function ReadyAddrs(q: seq<QueueItem>, now: nat): (r: seq<Word>)
    ensures |r| <= |q|
  {
    if |q| == 0 then []
    else ReadyAddrs(q[..|q| - 1], now) + (if now >= q[|q| - 1].readyCycle then [q[|q| - 1].addr] else [])
  }

  /** One more entry of the original queue examined by the drain loop. */
  lemma QueueStep(q: seq<QueueItem>, c: nat, now: nat)
    requires c < |q|
    ensures Waiting(q[..c + 1], now) == Waiting(q[..c], now) + (if now >= q[c].readyCycle then [] else [q[c]])
    ensures ReadyAddrs(q[..c + 1], now) == ReadyAddrs(q[..c], now) + (if now >= q[c].readyCycle then [q[c].addr] else [])
    ensures q[c + 1..] == q[c..][1..]
  {
    assert q[..c + 1][..c] == q[..c];
  }

  /** Erasing entry j of a queue, as the drain loop does. */
  lemma EraseAt(q: seq<QueueItem>, j: nat)
    requires j < |q|
    ensures var r := q[..j] + q[j + 1..]; r[..j] == q[..j] && r[j..] == q[j + 1..] && |r| == |q| - 1
  {
  }

  /** Stepping over entry j of a queue. */
  lemma KeepAt(q: seq<QueueItem>, j: nat)
    requires j < |q|
    ensures q[..j + 1] == q[..j] + [q[j]] && q[j + 1..] == q[j..][1..]
  {
  }

  /** Draining keeps exactly the entries not yet ready, and every entry is
      either kept or taken out. */
  lemma {:induction false} WaitingIsFilter(q: seq<QueueItem>, now: nat)
    ensures forall x :: x in Waiting(q, now) <==> x in q && now < x.readyCycle
    ensures |Waiting(q, now)| + |ReadyAddrs(q, now)| == |q|
    decreases |q|
  {
    if |q| > 0 {
      var n := |q| - 1;
      WaitingIsFilter(q[..n], now);
      assert q == q[..n] + [q[n]];
      forall x
        ensures x in q <==> x in q[..n] || x == q[n]
      {
        if x in q {
          var i :| 0 <= i < |q| && q[i] == x;
          if i < n {
            assert q[..n][i] == x;
          }
        }
      }
    }
  }

  /** Draining twice at the same cycle takes nothing more out. */
  lemma {:induction false} WaitingIdempotent(q: seq<QueueItem>, now: nat)
    ensures Waiting(Waiting(q, now), now) == Waiting(q, now)
    ensures ReadyAddrs(Waiting(q, now), now) == []
    decreases |q|
  {
    if |q| > 0 {
      var n := |q| - 1;
      WaitingIdempotent(q[..n], now);
      var w := Waiting(q[..n], now);
      if now < q[n].readyCycle {
        assert Waiting(q, now) == w + [q[n]];
        Snoc(w, q[n], now);
      } else {
        assert Waiting(q, now) == w;
      }
    }
  }

  /** An entry appended at the back is kept or taken out on its own. */
  lemma Snoc(q: seq<QueueItem>, x: QueueItem, now: nat)
    ensures Waiting(q + [x], now) == Waiting(q, now) + (if now >= x.readyCycle then [] else [x])
    ensures ReadyAddrs(q + [x], now) == ReadyAddrs(q, now) + (if now >= x.readyCycle then [x.addr] else [])
  {
    assert (q + [x])[..|q|] == q;
  }

  /** The state of the L2 after one call: the status returned, the sets,
      the MSHR table and the request queue. */
  datatype L2Step = L2Step(status: L2Status, sets: seq<seq<Block>>, mshrs: seq<Mshr>, reqQueue: seq<QueueItem>)

  class L2Cache {
    const cache: Cache
    const mshrs: array<Mshr>
    var reqQueue: seq<QueueItem>
    var retQueue: seq<QueueItem>

    /** The sizes of the L2 and the shape of its sets. */
    predicate Shaped(sets: seq<seq<Block>>)
    {
      cache.Geometry() && cache.numSets == L2_SETS && cache.ways == L2_ASSOC && cache.blockSize == BLOCK_SIZE &&
      |sets| == cache.numSets && forall i :: 0 <= i < |sets| ==> |sets[i]| == cache.ways
    }

    predicate Valid()
      reads this, cache, mshrs
    {
      cache.Valid() && Shaped(cache.sets) && mshrs.Length == MSHR_COUNT && DistinctMshrs(mshrs[..])
    }

    /** `L2Cache(dram)`: `Cache(L2_SETS, L2_ASSOC, BLOCK_SIZE)` with every
        MSHR free and both queues empty. */
    constructor ()
      ensures Valid() && fresh(cache) && fresh(mshrs)
      ensures reqQueue == [] && retQueue == []
      ensures forall i :: 0 <= i < MSHR_COUNT ==> !mshrs[i].valid
      ensures forall i, j :: 0 <= i < L2_SETS && 0 <= j < L2_ASSOC ==> cache.sets[i][j] == FreshBlock(BLOCK_SIZE)
    {
      Pow2Table();
      CacheMath.Log2OfPow2(5);
      CacheMath.Log2OfPow2(9);
      assert Pow2(9) == 512 by {
        Pow2Add(5, 4);
      }
      cache := new Cache(L2_SETS, L2_ASSOC, BLOCK_SIZE);
      mshrs := new Mshr[MSHR_COUNT](_ => Mshr(false, false, 0, false, 0, 0));
      reqQueue, retQueue := [], [];
    }

    /** `addr & ~(block_size - 1)`, the address of the block holding addr. */
    function BlockAddr(addr: Word): Word
      requires cache.blockSize == BLOCK_SIZE
    {
      And32(addr, Not32(cache.blockSize - 1))
    }

    /** The block address is the address with its offset bits cleared, so
        two addresses share it exactly when they lie in the same block. */
    lemma BlockAddrValue(addr: Word, other: Word)
      requires cache.blockSize == BLOCK_SIZE
      ensures BlockAddr(addr) == addr - addr % 32 == ClearOffset(addr)
      ensures BlockAddr(addr) == BlockAddr(other) <==> addr / 32 == other / 32
    {
      ClearOffsetValue(addr);
      ClearOffsetValue(other);
      SameBlock(addr, other);
    }

    /** What `access(addr, is_write, core_id)` does, at cycle `now` with a
        delay of `delay` cycles towards DRAM: a hit probes the set; a miss on
        a block already requested merges; otherwise the lowest free MSHR
        takes the block and one request joins the queue; with every MSHR in
        use the L2 is busy. */
    function AccessStep(sets: seq<seq<Block>>, ms: seq<Mshr>, rq: seq<QueueItem>,
                        addr: Word, isWrite: bool, coreId: int, now: nat, delay: nat): L2Step
      requires Shaped(sets)
    {
      var idx, tag := cache.GetIndex(addr), cache.GetTag(addr);
      if FirstMatch(sets[idx], tag) >= 0 then
        L2Step(Hit, sets[idx := Probed(sets[idx], tag, isWrite)], ms, rq)
      else if FindMshr(ms, BlockAddr(addr)) >= 0 then
        L2Step(Miss, sets, ms, rq)
      else if FirstFree(ms) >= 0 then
        L2Step(Miss, sets, ms[FirstFree(ms) := Mshr(true, false, BlockAddr(addr), isWrite, coreId, 0)],
               rq + [Req(isWrite, addr, coreId, now + delay)])
      else
        L2Step(Busy, sets, ms, rq)
    }

    /** The outcomes of an access: HIT exactly when the set holds the block;
        BUSY exactly on a miss with no MSHR for the block and none free, and
        then nothing changes; only a miss that takes a new MSHR adds a
        request to the queue, and then the MSHR table tracks the block. */
    lemma AccessOutcomes(sets: seq<seq<Block>>, ms: seq<Mshr>, rq: seq<QueueItem>,
                         addr: Word, isWrite: bool, coreId: int, now: nat, delay: nat)
      requires Shaped(sets)
      ensures var s := AccessStep(sets, ms, rq, addr, isWrite, coreId, now, delay);
        var idx, tag, ba := cache.GetIndex(addr), cache.GetTag(addr), BlockAddr(addr);
        (s.status == Hit <==> FirstMatch(sets[idx], tag) >= 0) &&
        (s.status == Busy <==> FirstMatch(sets[idx], tag) < 0 && FindMshr(ms, ba) < 0 &&
                               forall j :: 0 <= j < |ms| ==> ms[j].valid) &&
        (s.status == Busy ==> s.sets == sets && s.mshrs == ms && s.reqQueue == rq) &&
        (s.status != Hit ==> s.sets == sets) &&
        (s.status == Miss ==> FindMshr(s.mshrs, ba) >= 0) &&
        (s.reqQueue == rq || s.reqQueue == rq + [Req(isWrite, addr, coreId, now + delay)]) &&
        (s.reqQueue != rq <==> s.status == Miss && FindMshr(ms, ba) < 0)
    {
      var s := AccessStep(sets, ms, rq, addr, isWrite, coreId, now, delay);
      var idx, tag, ba := cache.GetIndex(addr), cache.GetTag(addr), BlockAddr(addr);
      if FirstMatch(sets[idx], tag) < 0 && FindMshr(ms, ba) < 0 && FirstFree(ms) >= 0 {
        assert Holds(s.mshrs[FirstFree(ms)], ba);
        assert |s.reqQueue| == |rq| + 1;
      }
    }

    /** An access keeps the MSHRs distinct, and puts at most one more in use,
        exactly when it adds a request. */
    lemma AccessKeepsMshrs(sets: seq<seq<Block>>, ms: seq<Mshr>, rq: seq<QueueItem>,
                           addr: Word, isWrite: bool, coreId: int, now: nat, delay: nat)
      requires Shaped(sets) && DistinctMshrs(ms)
      ensures var s := AccessStep(sets, ms, rq, addr, isWrite, coreId, now, delay);
        DistinctMshrs(s.mshrs) && |s.mshrs| == |ms| &&
        InUse(s.mshrs) == InUse(ms) + |s.reqQueue| - |rq|
    {
      var s := AccessStep(sets, ms, rq, addr, isWrite, coreId, now, delay);
      var ba := BlockAddr(addr);
      if s.reqQueue != rq {
        var f := FirstFree(ms);
        var m := Mshr(true, false, ba, isWrite, coreId, 0);
        assert s.mshrs == ms[f := m];
        TakeFreeCounts(ms, f, m);
      }
    }

    /** Once an access has missed, the same request again is a merged miss
        that changes nothing. */
    lemma RepeatedMissMerges(sets: seq<seq<Block>>, ms: seq<Mshr>, rq: seq<QueueItem>,
                             addr: Word, isWrite: bool, coreId: int, now: nat, delay: nat)
      requires Shaped(sets)
      requires AccessStep(sets, ms, rq, addr, isWrite, coreId, now, delay).status == Miss
      ensures var s := AccessStep(sets, ms, rq, addr, isWrite, coreId, now, delay);
        AccessStep(s.sets, s.mshrs, s.reqQueue, addr, isWrite, coreId, now, delay) ==
          L2Step(Miss, s.sets, s.mshrs, s.reqQueue)
    {
      AccessOutcomes(sets, ms, rq, addr, isWrite, coreId, now, delay);
    }

    /** What `complete_mshr(addr)` does to the sets and the MSHR table when
        the MSHRs are distinct: the MSHR tracking the block is released and
        the block is installed; with no such MSHR nothing happens. */
    function CompleteStep(sets: seq<seq<Block>>, ms: seq<Mshr>, addr: Word): (r: (seq<seq<Block>>, seq<Mshr>))
      requires Shaped(sets)
      ensures Shaped(r.0) && |r.1| == |ms|
    {
      var k := FindMshr(ms, BlockAddr(addr));
      if k < 0 then (sets, ms)
      else
        var idx := cache.GetIndex(addr);
        (sets[idx := Installed(sets[idx], cache.GetTag(addr))], ms[k := ms[k].(valid := false)])
    }

    /** A completion releases the block's MSHR, keeps the MSHRs distinct and
        frees one slot; after it the L2 holds the block, so the block's
        next access hits. */
    lemma CompletionInstalls(sets: seq<seq<Block>>, ms: seq<Mshr>, addr: Word,
                             isWrite: bool, coreId: int, now: nat, delay: nat)
      requires Shaped(sets) && DistinctMshrs(ms) && FindMshr(ms, BlockAddr(addr)) >= 0
      ensures var r := CompleteStep(sets, ms, addr);
        FindMshr(r.1, BlockAddr(addr)) == -1 && DistinctMshrs(r.1) && InUse(r.1) + 1 == InUse(ms) &&
        FirstMatch(r.0[cache.GetIndex(addr)], cache.GetTag(addr)) >= 0 &&
        AccessStep(r.0, r.1, [], addr, isWrite, coreId, now, delay).status == Hit
    {
      var k := FindMshr(ms, BlockAddr(addr));
      var idx := cache.GetIndex(addr);
      InstallHolds(sets[idx], cache.GetTag(addr));
      ReleaseCounts(ms, k);
    }

    /** The completions of `addrs`, one after the other. */
    function Completions(sets: seq<seq<Block>>, ms: seq<Mshr>, addrs: seq<Word>): (r: (seq<seq<Block>>, seq<Mshr>))
      requires Shaped(sets)
      ensures Shaped(r.0) && |r.1| == |ms|
    {
      if |addrs| == 0 then (sets, ms)
      else
        var p := Completions(sets, ms, addrs[..|addrs| - 1]);
        CompleteStep(p.0, p.1, addrs[|addrs| - 1])
    }

    /** One more completion after `addrs`. */
    lemma CompletionsStep(sets: seq<seq<Block>>, ms: seq<Mshr>, addrs: seq<Word>, a: Word)
      requires Shaped(sets)
      ensures var p := Completions(sets, ms, addrs);
        Completions(sets, ms, addrs + [a]) == CompleteStep(p.0, p.1, a)
    {
      assert (addrs + [a])[..|addrs|] == addrs;
    }

    /** `check_mshr(addr)`: the lowest MSHR in use for the block, or -1. */
    method CheckMshr(addr: Word) returns (i: int)
      requires cache.blockSize == BLOCK_SIZE && mshrs.Length == MSHR_COUNT
      ensures i == FindMshr(mshrs[..], BlockAddr(addr))
    {
      var blockAddr := And32(addr, Not32(cache.blockSize - 1));
      i := 0;
      while i < MSHR_COUNT
        invariant 0 <= i <= MSHR_COUNT
        invariant forall j :: 0 <= j < i ==> !Holds(mshrs[..][j], blockAddr)
      {
        if mshrs[i].valid && mshrs[i].address == blockAddr {
          assert Holds(mshrs[..][i], blockAddr);
          return;
        }
        i := i + 1;
      }
      return -1;
    }

    /** `allocate_mshr(addr, is_write, core_id)`: the lowest free MSHR takes
        the block, not done and with ready cycle 0; -1 when all are in use. */
    method AllocateMshr(addr: Word, isWrite: bool, coreId: int) returns (i: int)
      requires cache.blockSize == BLOCK_SIZE && mshrs.Length == MSHR_COUNT
      modifies mshrs
      ensures i == FirstFree(old(mshrs[..]))
      ensures mshrs[..] == if i < 0 then old(mshrs[..])
                           else old(mshrs[..])[i := Mshr(true, false, BlockAddr(addr), isWrite, coreId, 0)]
    {
      var blockAddr := And32(addr, Not32(cache.blockSize - 1));
      i := 0;
      while i < MSHR_COUNT
        invariant 0 <= i <= MSHR_COUNT && mshrs[..] == old(mshrs[..])
        invariant forall j :: 0 <= j < i ==> mshrs[..][j].valid
      {
        if !mshrs[i].valid {
          mshrs[i] := Mshr(true, false, blockAddr, isWrite, coreId, 0);
          return;
        }
        i := i + 1;
      }
      return -1;
    }

    /** `access(addr, is_write, core_id)` at cycle `statCycles`, with
        `l2ToDramDelay` cycles towards DRAM. */
    method Access(addr: Word, isWrite: bool, coreId: int, statCycles: nat, l2ToDramDelay: nat)
      returns (status: L2Status)
      requires Valid()
      modifies this, cache, mshrs
      ensures Valid() && retQueue == old(retQueue)
      ensures L2Step(status, cache.sets, mshrs[..], reqQueue) ==
        old(AccessStep(cache.sets, mshrs[..], reqQueue, addr, isWrite, coreId, statCycles, l2ToDramDelay))
    {
      ghost var before := AccessStep(cache.sets, mshrs[..], reqQueue, addr, isWrite, coreId, statCycles, l2ToDramDelay);
      AccessKeepsMshrs(cache.sets, mshrs[..], reqQueue, addr, isWrite, coreId, statCycles, l2ToDramDelay);
      if isWrite {
        var hit := cache.ProbeWrite(addr);
        if hit {
          return Hit;
        }
      } else {
        var way := cache.ProbeRead(addr);
        if way != -1 {
          return Hit;
        }
      }
      assert cache.sets == before.sets;
      var merged := CheckMshr(addr);
      if merged != -1 {
        return Miss;
      }
      var slot := AllocateMshr(addr, isWrite, coreId);
      if slot != -1 {
        reqQueue := reqQueue + [Req(isWrite, addr, coreId, statCycles + l2ToDramDelay)];
        return Miss;
      }
      return Busy;
    }

    /** `complete_mshr(addr)` without the wake-up of the requesting core's
        L1 caches: every MSHR tracking the block is released and the block
        installed; with distinct MSHRs there is at most one. */
    method CompleteMshr(addr: Word)
      requires Valid()
      modifies cache, mshrs
      ensures Valid()
      ensures (cache.sets, mshrs[..]) == old(CompleteStep(cache.sets, mshrs[..], addr))
    {
      ghost var sets0, ms0 := cache.sets, mshrs[..];
      ghost var k := FindMshr(ms0, BlockAddr(addr));
      ghost var after := CompleteStep(sets0, ms0, addr);
      var blockAddr := And32(addr, Not32(cache.blockSize - 1));
      var i := 0;
      while i < MSHR_COUNT
        invariant 0 <= i <= MSHR_COUNT && cache.Valid() && Shaped(cache.sets) && mshrs.Length == MSHR_COUNT
        invariant 0 <= k < i ==> cache.sets == after.0 && mshrs[..] == after.1
        invariant !(0 <= k < i) ==> cache.sets == sets0 && mshrs[..] == ms0
      {
        if mshrs[i].valid && mshrs[i].address == blockAddr {
          assert i == k by {
            assert Holds(ms0[i], blockAddr);
          }
          mshrs[i] := mshrs[i].(valid := false);
          var way, ev := cache.Install(addr);
        }
        i := i + 1;
      }
      if k >= 0 {
        CompletionInstalls(sets0, ms0, addr, false, 0, 0, 0);
      }
    }

    /** The first half of `cycle(now)`: every request ready at `now`
        leaves the request queue (handing it to DRAM is not modelled); the
        others stay, in order. */
    method DrainRequests(now: nat)
      modifies this
      ensures reqQueue == Waiting(old(reqQueue), now) && retQueue == old(retQueue)
    {
      ghost var req0 := reqQueue;
      ghost var c := 0;
      var j := 0;
      while j < |reqQueue|
        invariant 0 <= j <= |reqQueue| && 0 <= c <= |req0| && retQueue == old(retQueue)
        invariant reqQueue[..j] == Waiting(req0[..c], now) && reqQueue[j..] == req0[c..]
        decreases |reqQueue| - j
      {
        var item := reqQueue[j];
        assert item == req0[c];
        QueueStep(req0, c, now);
        if now >= item.readyCycle {
          EraseAt(reqQueue, j);
          reqQueue := reqQueue[..j] + reqQueue[j + 1..];
        } else {
          KeepAt(reqQueue, j);
          j := j + 1;
        }
        c := c + 1;
      }
      assert |req0[c..]| == 0;
      assert req0[..c] == req0;
    }

    /** The body of the return-queue loop for a ready entry j: complete
        its MSHR and erase it. */
    method CompleteAndErase(j: nat)
      requires Valid() && j < |retQueue|
      modifies this, cache, mshrs
      ensures Valid() && reqQueue == old(reqQueue) && retQueue == old(retQueue[..j] + retQueue[j + 1..])
      ensures (cache.sets, mshrs[..]) == old(CompleteStep(cache.sets, mshrs[..], retQueue[j].addr))
    {
      CompleteMshr(retQueue[j].addr);
      retQueue := retQueue[..j] + retQueue[j + 1..];
    }

    /** The second half of `cycle(now)`: each return ready at `now`, in
        order, completes its MSHR and leaves the return queue; the others
        stay, in order. */
    method DrainReturns(now: nat)
      requires Valid()
      modifies this, cache, mshrs
      ensures Valid() && reqQueue == old(reqQueue) && retQueue == Waiting(old(retQueue), now)
      ensures (cache.sets, mshrs[..]) == old(Completions(cache.sets, mshrs[..], ReadyAddrs(retQueue, now)))
    {
      ghost var ret0 := retQueue;
      ghost var sets0, ms0 := cache.sets, mshrs[..];
      ghost var c := 0;
      var j := 0;
      while j < |retQueue|
        invariant 0 <= j <= |retQueue| && 0 <= c <= |ret0| && Valid() && reqQueue == old(reqQueue)
        invariant retQueue[..j] == Waiting(ret0[..c], now) && retQueue[j..] == ret0[c..]
        invariant (cache.sets, mshrs[..]) == Completions(sets0, ms0, ReadyAddrs(ret0[..c], now))
        decreases |retQueue| - j
      {
        var item := retQueue[j];
        assert item == ret0[c];
        QueueStep(ret0, c, now);
        if now >= item.readyCycle {
          CompletionsStep(sets0, ms0, ReadyAddrs(ret0[..c], now), item.addr);
          EraseAt(retQueue, j);
          ghost var before := (cache.sets, mshrs[..]);
          CompleteAndErase(j);
          assert (cache.sets, mshrs[..]) == CompleteStep(before.0, before.1, item.addr);
        } else {
          KeepAt(retQueue, j);
          assert ReadyAddrs(ret0[..c + 1], now) == ReadyAddrs(ret0[..c], now);
          j := j + 1;
        }
        c := c + 1;
      }
      assert |ret0[c..]| == 0;
      assert ret0[..c] == ret0;
    }

    /** `cycle(now)` on the queues: the request queue drains, then the
        return queue. */
    method Cycle(now: nat)
      requires Valid()
      modifies this, cache, mshrs
      ensures Valid()
      ensures reqQueue == Waiting(old(reqQueue), now) && retQueue == Waiting(old(retQueue), now)
      ensures (cache.sets, mshrs[..]) == old(Completions(cache.sets, mshrs[..], ReadyAddrs(retQueue, now)))
    {
      DrainRequests(now);
      DrainReturns(now);
    }
  }
}
