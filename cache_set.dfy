/** The ways of one cache set as a sequence of blocks, and what the set
    operations of code/src/cache.cpp compute on it: the way holding a tag,
    the replacement victim, the LRU update, a probe and an installation. */
module CacheSets {
  import opened Bits
  import opened CacheBlocks

  /** A way holds `tag` when its tag matches and it is not INVALID. */
  predicate Matches(b: Block, tag: Word)
  {
    b.tag == tag && b.state != Invalid
  }

  /** The lowest way holding `tag`, or -1 when none does. */
  function FirstMatch(blocks: seq<Block>, tag: Word): (r: int)
    ensures -1 <= r < |blocks|
    ensures r == -1 <==> forall j :: 0 <= j < |blocks| ==> !Matches(blocks[j], tag)
    ensures 0 <= r ==> Matches(blocks[r], tag) && forall j :: 0 <= j < r ==> !Matches(blocks[j], tag)
  {
    if |blocks| == 0 then -1
    else if Matches(blocks[0], tag) then 0
    else
      var r := FirstMatch(blocks[1..], tag);
      if r < 0 then -1 else r + 1
  }

  /** The lowest INVALID way, or -1 when every way is in use. */
  function FirstInvalid(blocks: seq<Block>): (r: int)
    ensures -1 <= r < |blocks|
    ensures r == -1 <==> forall j :: 0 <= j < |blocks| ==> blocks[j].state != Invalid
    ensures 0 <= r ==> blocks[r].state == Invalid && forall j :: 0 <= j < r ==> blocks[j].state != Invalid
  {
    if |blocks| == 0 then -1
    else if blocks[0].state == Invalid then 0
    else
      var r := FirstInvalid(blocks[1..]);
      if r < 0 then -1 else r + 1
  }

  /** The way with the largest counter, the highest one on a tie. */
  function LastMax(blocks: seq<Block>): (r: nat)
    requires |blocks| > 0
    ensures r < |blocks|
    ensures forall j :: 0 <= j < |blocks| ==> blocks[j].lru <= blocks[r].lru
    ensures forall j :: r < j < |blocks| ==> blocks[j].lru < blocks[r].lru
  {
    if |blocks| == 1 then 0
    else
      var r := LastMax(blocks[..|blocks| - 1]);
      if blocks[|blocks| - 1].lru >= blocks[r].lru then |blocks| - 1 else r
  }

  /** The replacement victim: the lowest INVALID way if there is one,
      otherwise the least recently used (largest counter, highest way on a
      tie). */
  function Victim(blocks: seq<Block>): (r: nat)
    requires |blocks| > 0
    ensures r < |blocks|
  {
    if FirstInvalid(blocks) >= 0 then FirstInvalid(blocks) else LastMax(blocks)
  }

  /** What the victim is, in its two cases. */
  lemma VictimChoice(blocks: seq<Block>)
    requires |blocks| > 0
    ensures var v := Victim(blocks);
      ((exists j :: 0 <= j < |blocks| && blocks[j].state == Invalid) ==>
         blocks[v].state == Invalid && forall j :: 0 <= j < v ==> blocks[j].state != Invalid) &&
      ((forall j :: 0 <= j < |blocks| ==> blocks[j].state != Invalid) ==>
         (forall j :: 0 <= j < |blocks| ==> blocks[j].lru <= blocks[v].lru) &&
         (forall j :: v < j < |blocks| ==> blocks[j].lru < blocks[v].lru))
  {
  }

  /** One other way under the LRU update with the touched way's old
      counter `pivot`: a valid way below the pivot ages by one. */
  function Aged(b: Block, pivot: Word): Block
  {
    if b.state != Invalid && b.lru < pivot then b.(lru := b.lru + 1) else b
  }

  /** `update_lru(way)` on the set. */
  function AgeSet(blocks: seq<Block>, way: nat): (r: seq<Block>)
    requires way < |blocks|
    ensures |r| == |blocks| && r[way].lru == 0
    ensures forall i :: 0 <= i < |r| ==> r[i].(lru := blocks[i].lru) == blocks[i]
  {
    seq(|blocks|, i requires 0 <= i < |blocks| =>
      if i == way then blocks[i].(lru := 0) else Aged(blocks[i], blocks[way].lru))
  }

  /** No two valid ways share a counter. */
  predicate DistinctCounters(blocks: seq<Block>)
  {
    forall i, j :: (0 <= i < |blocks| && 0 <= j < |blocks| && i != j &&
                    blocks[i].state != Invalid && blocks[j].state != Invalid) ==> blocks[i].lru != blocks[j].lru
  }

  /** Touching a valid way keeps the counters of valid ways distinct. */
  lemma AgingKeepsDistinct(blocks: seq<Block>, way: nat)
    requires way < |blocks| && blocks[way].state != Invalid && DistinctCounters(blocks)
    ensures DistinctCounters(AgeSet(blocks, way))
  {
    var r := AgeSet(blocks, way);
    forall i, j | 0 <= i < |r| && 0 <= j < |r| && i != j && r[i].state != Invalid && r[j].state != Invalid
      ensures r[i].lru != r[j].lru
    {
      assert r[i] == if i == way then blocks[i].(lru := 0) else Aged(blocks[i], blocks[way].lru);
      assert r[j] == if j == way then blocks[j].(lru := 0) else Aged(blocks[j], blocks[way].lru);
    }
  }

  /** Touching a way makes it the most recent and keeps the order of the
      other valid ways. */
  lemma AgingKeepsOrder(blocks: seq<Block>, way: nat, i: nat, j: nat)
    requires way < |blocks| && i < |blocks| && j < |blocks| && i != way && j != way
    requires blocks[way].state != Invalid && DistinctCounters(blocks)
    requires blocks[i].state != Invalid && blocks[j].state != Invalid
    ensures var r := AgeSet(blocks, way);
      r[way].lru <= r[i].lru &&
      (blocks[i].lru < blocks[j].lru ==> r[i].lru < r[j].lru)
  {
    var r := AgeSet(blocks, way);
    assert r[i] == Aged(blocks[i], blocks[way].lru);
    assert r[j] == Aged(blocks[j], blocks[way].lru);
  }

  /** With a zero counter on the touched way nothing ages: this is the
      case of `install`, which zeroes the counter before `update_lru`. */
  lemma ZeroPivotAgesNothing(blocks: seq<Block>, way: nat)
    requires way < |blocks| && blocks[way].lru == 0
    ensures AgeSet(blocks, way) == blocks
  {
    var r := AgeSet(blocks, way);
    forall i | 0 <= i < |blocks|
      ensures r[i] == blocks[i]
    {
      assert r[i] == if i == way then blocks[i].(lru := 0) else Aged(blocks[i], blocks[way].lru);
    }
  }

  /** `probe_read` (`write` false) and `probe_write` (`write` true) on the
      set holding the tag: a hit touches the way, and a write hit also
      marks it dirty; a miss changes nothing. */
  function Probed(blocks: seq<Block>, tag: Word, write: bool): seq<Block>
  {
    var w := FirstMatch(blocks, tag);
    if w < 0 then blocks
    else
      var a := AgeSet(blocks, w);
      if write then a[w := a[w].(dirty := true)] else a
  }

  /** A probe changes only counters and dirty bits, so every tag is held
      by the same way as before, and a write hit leaves the way dirty. */
  lemma ProbeKeepsTags(blocks: seq<Block>, tag: Word, write: bool, t: Word)
    ensures var r := Probed(blocks, tag, write);
      |r| == |blocks| && FirstMatch(r, t) == FirstMatch(blocks, t) &&
      (write && FirstMatch(blocks, tag) >= 0 ==> r[FirstMatch(blocks, tag)].dirty) &&
      (forall i :: 0 <= i < |r| ==> r[i].tag == blocks[i].tag && r[i].state == blocks[i].state)
  {
    var r := Probed(blocks, tag, write);
    var w := FirstMatch(blocks, tag);
    if w >= 0 {
      var a := AgeSet(blocks, w);
      assert forall i :: 0 <= i < |r| ==> r[i].tag == blocks[i].tag && r[i].state == blocks[i].state by {
        forall i | 0 <= i < |r|
          ensures r[i].tag == blocks[i].tag && r[i].state == blocks[i].state
        {
          assert a[i].(lru := blocks[i].lru) == blocks[i];
        }
      }
    }
    SameTagsSameMatch(r, blocks, t);
  }

  /** Two sets with the same tags and states hold each tag in the same way. */
  lemma {:induction false} SameTagsSameMatch(a: seq<Block>, b: seq<Block>, t: Word)
    requires |a| == |b| && forall i :: 0 <= i < |a| ==> a[i].tag == b[i].tag && a[i].state == b[i].state
    ensures FirstMatch(a, t) == FirstMatch(b, t)
  {
    if |a| > 0 {
      SameTagsSameMatch(a[1..], b[1..], t);
    }
  }

  /** `install` of a block with `tag`: the victim way takes the tag, turns
      EXCLUSIVE, clean, most recently used, and keeps its data bytes. */
  function Installed(blocks: seq<Block>, tag: Word): seq<Block>
    requires |blocks| > 0
  {
    var v := Victim(blocks);
    blocks[v := Block(tag, Exclusive, false, 0, blocks[v].data)]
  }

  /** After an installation the set holds the tag, in the victim way or in
      a lower way that already held it; no way other than the victim
      changes. */
  lemma InstallHolds(blocks: seq<Block>, tag: Word)
    requires |blocks| > 0
    ensures var r := Installed(blocks, tag);
      |r| == |blocks| && 0 <= FirstMatch(r, tag) <= Victim(blocks) &&
      forall i :: 0 <= i < |r| && i != Victim(blocks) ==> r[i] == blocks[i]
  {
    var r := Installed(blocks, tag);
    assert Matches(r[Victim(blocks)], tag);
  }
}
