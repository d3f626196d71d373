/** The audio block allocator and the streams' queues, as the library updates them in place:
  a bitmap with a hint, 8-bit reference counts in the blocks, arrays of queue slots. */
module AudioStreams {
  import opened Options
  import opened BitWords
  import opened BlockOwnership

  const AUDIO_BLOCK_SAMPLES: nat := 128
  const MAX_BLOCKS: nat := 229376 / AUDIO_BLOCK_SAMPLES / 2
  const NUM_MASKS: nat := (MAX_BLOCKS + 31) / 32

  type uint8 = n: int | 0 <= n < 256

  class AudioBlock {
    var refCount: uint8
    var memoryPoolIndex: nat
    const data: array<int>

    constructor ()
      ensures data.Length == AUDIO_BLOCK_SAMPLES && fresh(data)
    {
      refCount, memoryPoolIndex := 0, 0;
      data := new int[AUDIO_BLOCK_SAMPLES];
    }
  }

  class AudioStream {
    const inputQueue: array<AudioBlock?>

    constructor (inputs: nat)
      ensures fresh(inputQueue) && inputQueue.Length == inputs
      ensures forall i :: 0 <= i < inputs ==> inputQueue[i] == null
    {
      inputQueue := new AudioBlock?[inputs](i => null);
    }
  }

  /** A connection from one output of a stream to one input of another. */
  datatype Connection = Connection(srcIndex: nat, dst: nat, destIndex: nat)

  /** The slots fed by output `index`, in list order. */
  function Matching(list: seq<Connection>, index: nat): seq<Slot> {
    if list == [] then []
    else
      var c := list[|list| - 1];
      Matching(list[..|list| - 1], index) + if c.srcIndex == index then [Slot(c.dst, c.destIndex)] else []
  }

  /** Output `index` is connected to slot s. */
  ghost predicate Feeds(list: seq<Connection>, index: nat, s: Slot) {
    exists k :: 0 <= k < |list| && list[k].srcIndex == index && s == Slot(list[k].dst, list[k].destIndex)
  }

  lemma {:induction false} MatchingIsFed(list: seq<Connection>, index: nat, s: Slot)
    ensures s in Matching(list, index) <==> Feeds(list, index, s)
  {
    if list != [] {
      var n := |list| - 1;
      MatchingIsFed(list[..n], index, s);
      if k :| 0 <= k < |list| && list[k].srcIndex == index && s == Slot(list[k].dst, list[k].destIndex) {
        assert k < n ==> list[..n][k] == list[k];
      }
      if k :| 0 <= k < n && list[..n][k].srcIndex == index && s == Slot(list[..n][k].dst, list[..n][k].destIndex) {
        assert list[k] == list[..n][k];
      }
    }
  }

  /** The bits of the mask words are the free blocks. */
  ghost predicate BitsShow(mask: seq<bv32>, free: set<nat>) {
    |mask| == NUM_MASKS &&
    forall b :: 0 <= b < 32 * NUM_MASKS ==> (Has(mask[b / 32], b % 32) <==> b in free)
  }

  lemma ClearShows(mask: seq<bv32>, free: set<nat>, w: nat, i: nat)
    requires BitsShow(mask, free) && w < NUM_MASKS && i < 32
    ensures BitsShow(mask[w := Cleared(mask[w], Shl(1, i))], free - {32 * w + i})
  {
    hide Has, Cleared, Shl;
    var mask' := mask[w := Cleared(mask[w], Shl(1, i))];
    forall b | 0 <= b < 32 * NUM_MASKS
      ensures Has(mask'[b / 32], b % 32) <==> b in free - {32 * w + i}
    {
      if b / 32 == w { ClearBit(mask[w], i, b % 32); }
    }
  }

  lemma SetShows(mask: seq<bv32>, free: set<nat>, w: nat, i: nat)
    requires BitsShow(mask, free) && w < NUM_MASKS && i < 32
    ensures BitsShow(mask[w := Joined(mask[w], Shl(1, i))], free + {32 * w + i})
  {
    hide Has, Joined, Shl;
    var mask' := mask[w := Joined(mask[w], Shl(1, i))];
    forall b | 0 <= b < 32 * NUM_MASKS
      ensures Has(mask'[b / 32], b % 32) <==> b in free + {32 * w + i}
    {
      if b / 32 == w { SetBit(mask[w], i, b % 32); }
    }
  }

  /** All words zero: no block is free. */
  lemma NoBits(mask: seq<bv32>, free: set<nat>)
    requires BitsShow(mask, free) && (forall b :: b in free ==> b < 32 * NUM_MASKS)
    requires forall w :: 0 <= w < NUM_MASKS ==> mask[w] == 0
    ensures free == {}
  {
    forall b: nat
      ensures b !in free
    {
      if b < 32 * NUM_MASKS {
        ZeroHasNoBit(b % 32);
        assert !Has(mask[b / 32], b % 32);
      }
    }
  }

  ghost function SamplesOf(blocks: seq<AudioBlock>): (r: seq<seq<int>>)
    reads set b | b in blocks :: b.data
    ensures |r| == |blocks| && forall i :: 0 <= i < |r| ==> r[i] == blocks[i].data[..]
  {
    if blocks == [] then [] else [blocks[0].data[..]] + SamplesOf(blocks[1..])
  }

  class AudioPool {
    var memoryPool: seq<AudioBlock>
    const mask: array<bv32>
    var firstMask: nat
    var memoryUsed: int
    var memoryUsedMax: int
    const streams: seq<AudioStream>
    ghost var pool: Pool

    constructor (streams: seq<AudioStream>)
      requires forall i, j :: 0 <= i < j < |streams| ==> streams[i].inputQueue != streams[j].inputQueue
      requires forall i, j :: 0 <= i < |streams| && 0 <= j < streams[i].inputQueue.Length ==>
                 streams[i].inputQueue[j] == null
      ensures Valid() && pool == Fresh(0, []) && this.streams == streams && fresh(mask)
    {
      memoryPool := [];
      mask := new bv32[NUM_MASKS](i => 0);
      firstMask, memoryUsed, memoryUsedMax := 0, 0, 0;
      this.streams := streams;
      pool := Fresh(0, []);
      new;
      FreshInv(0, []);
      forall b | 0 <= b < 32 * NUM_MASKS
        ensures !Has(mask[b / 32], b % 32)
      {
        ZeroHasNoBit(b % 32);
      }
    }

    ghost function Queues(): set<object> {
      set s | s in streams :: s.inputQueue
    }

    /** The queues are arrays, so neither the pool object nor a block is one of them. */
    lemma QueuesAreArrays()
      ensures this as object !in Queues()
      ensures forall b :: b in memoryPool ==> b as object !in Queues()
    {}

    /** The bitmap and its hint. */
    ghost predicate MaskShows(free: set<nat>)
      reads this`firstMask, mask
    {
      && BitsShow(mask[..], free)
      && firstMask <= NUM_MASKS
      && forall w :: 0 <= w < firstMask ==> mask[w] == 0
    }

    /** The blocks and their counters. */
    ghost predicate BlocksShow(refs: seq<nat>)
      reads this`memoryPool, memoryPool
    {
      && |memoryPool| == |refs| <= MAX_BLOCKS
      && (forall i, j :: 0 <= i < j < |memoryPool| ==>
            memoryPool[i] != memoryPool[j] && memoryPool[i].data != memoryPool[j].data)
      && (forall i :: 0 <= i < |memoryPool| ==>
            && memoryPool[i].data.Length == AUDIO_BLOCK_SAMPLES
            && memoryPool[i].data as object != mask
            && memoryPool[i].memoryPoolIndex == i
            && memoryPool[i].refCount == refs[i])
    }

    /** The queue slots. */
    ghost predicate QueuesShow(slots: map<Slot, nat>)
      reads this`memoryPool, Queues()
    {
      && (forall i, j :: 0 <= i < j < |streams| ==> streams[i].inputQueue != streams[j].inputQueue)
      && (forall s :: s in slots ==> IsSlot(s) && slots[s] < |memoryPool|)
      && (forall i, j :: 0 <= i < |streams| && 0 <= j < streams[i].inputQueue.Length ==>
            streams[i].inputQueue[j] ==
            if Slot(i, j) in slots then memoryPool[slots[Slot(i, j)]] else null)
    }

    /** The queue slots, which share no storage with the bitmap. */
    ghost predicate Apart(slots: map<Slot, nat>)
      reads this`memoryPool, Queues()
    {
      mask as object !in Queues() && QueuesShow(slots)
    }

    predicate IsSlot(s: Slot) {
      s.stream < |streams| && s.input < streams[s.stream].inputQueue.Length
    }

    /** Bitmap, counters, slots and count are those of p. */
    ghost predicate Shows(p: Pool)
      reads this`firstMask, this`memoryUsed, this`memoryPool, mask, memoryPool, Queues()
    {
      && p.num == |p.refs|
      && memoryUsed == p.used
      && MaskShows(p.free)
      && BlocksShow(p.refs)
      && Apart(p.slots)
    }

    ghost predicate Valid()
      reads this, mask, memoryPool, Queues()
    {
      Shows(pool) && Inv(pool)
    }

    /** The block the allocator takes: of the lowest word that has any, the highest. */
    ghost predicate IsChoice(free: set<nat>, b: nat) {
      b in free && forall c :: c in free ==> c / 32 > b / 32 || (c / 32 == b / 32 && c <= b)
    }

    /** The first word at or behind the hint that has a bit; past the end if there is none. */
    method FirstWord(ghost free: set<nat>) returns (index: nat)
      requires MaskShows(free) && forall c :: c in free ==> c < 32 * NUM_MASKS
      ensures index <= NUM_MASKS && (forall w :: 0 <= w < index ==> mask[w] == 0)
      ensures index < NUM_MASKS ==> mask[index] != 0
      ensures index == NUM_MASKS ==> free == {}
    {
      index := firstMask;
      while index < NUM_MASKS && mask[index] == 0
        invariant index <= NUM_MASKS
        invariant forall w :: 0 <= w < index ==> mask[w] == 0
      {
        index := index + 1;
      }
      if index == NUM_MASKS {
        NoBits(mask[..], free);
      }
    }

    /** The scan and the bit arithmetic: finds no block exactly when none is free. */
    method TakeBit(ghost free: set<nat>) returns (found: bool, b: nat)
      requires MaskShows(free) && forall c :: c in free ==> c < 32 * NUM_MASKS
      modifies this`firstMask, mask
      ensures found <==> free != {}
      ensures !found ==> MaskShows(free)
      ensures found ==> IsChoice(free, b) && MaskShows(free - {b})
      ensures !found ==> firstMask == old(firstMask)
      ensures found ==> b / 32 < NUM_MASKS == mask.Length && firstMask == b / 32 + if mask[b / 32] == 0 then 1 else 0
    {
      assert mask.Length == NUM_MASKS;
      hide Has, Shr, Shl, BitsShow, Cleared, IsChoice, Clz;
      var index := FirstWord(free);
      if index >= NUM_MASKS {
        return false, 0;
      }
      var p := index;
      var n := Clz(mask[p]);
      FirstBit(mask[..], free, p, n);
      var avail := ClearInWord(p, n, free);
      if avail == 0 {
        index := index + 1;
      }
      firstMask := index;
      return true, 32 * p + (31 - n);
    }

    /** Clears the n-th bit from the top of word p. */
    method ClearInWord(p: nat, n: nat, ghost free: set<nat>) returns (avail: bv32)
      requires mask.Length == NUM_MASKS && BitsShow(mask[..], free) && p < NUM_MASKS && n < 32
      modifies mask
      ensures BitsShow(mask[..], free - {32 * p + (31 - n)})
      ensures mask[p] == avail && forall w :: 0 <= w < NUM_MASKS && w != p ==> mask[w] == old(mask[w])
    {
      hide Has, Shr, Shl, BitsShow, Cleared;
      ghost var was := mask[..];
      FromTop(n);
      ClearShows(was, free, p, 31 - n);
      avail := Cleared(mask[p], Shr(0x8000_0000, n));
      mask[p] := avail;
      assert mask[..] == was[p := avail];
    }

    lemma SameWord(c: nat, p: nat, k: nat)
      ensures c / 32 == p ==> (c > 32 * p + k <==> c % 32 > k)
    {}

    lemma FirstBit(was: seq<bv32>, free: set<nat>, p: nat, n: nat)
      requires BitsShow(was, free) && (forall c :: c in free ==> c < 32 * NUM_MASKS)
      requires p < NUM_MASKS && (forall w :: 0 <= w < p ==> was[w] == 0)
      requires was[p] != 0 && n == Clz(was[p])
      ensures IsChoice(free, 32 * p + (31 - n))
    {
      var b := 32 * p + (31 - n);
      assert b / 32 == p && b % 32 == 31 - n;
      assert Has(was[b / 32], b % 32);
      forall c | c in free
        ensures c / 32 > p || (c / 32 == p && c <= b)
      {
        assert Has(was[c / 32], c % 32);
        ZeroHasNoBit(c % 32);
        SameWord(c, p, 31 - n);
      }
    }

    /** What is known of the block at position b. */
    lemma BlockAt(refs: seq<nat>, b: nat)
      requires BlocksShow(refs) && b < |memoryPool|
      ensures |memoryPool| == |refs| <= MAX_BLOCKS
      ensures memoryPool[b].memoryPoolIndex == b && memoryPool[b].refCount == refs[b]
    {}

    /** A block of the pool stands at the position it says. */
    lemma Position(refs: seq<nat>, block: AudioBlock)
      requires BlocksShow(refs) && block in memoryPool
      ensures block.memoryPoolIndex < |memoryPool| && memoryPool[block.memoryPoolIndex] == block
    {}

    method SetCount(block: AudioBlock, count: uint8, ghost refs: seq<nat>)
      requires BlocksShow(refs) && block in memoryPool
      modifies block`refCount
      ensures block.memoryPoolIndex < |refs| && BlocksShow(refs[block.memoryPoolIndex := count])
    {
      Position(refs, block);
      block.refCount := count;
    }

    /** allocate, on the bitmap and the counters. */
    method AllocateBlock(ghost free: set<nat>, ghost refs: seq<nat>, ghost slots: map<Slot, nat>)
      returns (block: AudioBlock?)
      requires MaskShows(free) && BlocksShow(refs) && Apart(slots) && forall c :: c in free ==> c < |memoryPool|
      modifies this`firstMask, this`memoryUsed, this`memoryUsedMax, mask, memoryPool`refCount
      ensures Apart(slots) && (block == null <==> free == {})
      ensures block == null ==> MaskShows(free) && BlocksShow(refs) && memoryUsed == old(memoryUsed)
      ensures block != null ==>
                var b := block.memoryPoolIndex;
                && b < |memoryPool| == |refs| && block == memoryPool[b] && IsChoice(free, b)
                && MaskShows(free - {b}) && BlocksShow(refs[b := 1]) && memoryUsed == old(memoryUsed) + 1
      ensures Recorded(old(memoryUsed), old(memoryUsedMax))
    {
      PoolInRange(refs);
      MaskIsNoQueue(slots);
      QueuesAreArrays();
      hide MaskShows, BlocksShow, Apart, IsChoice;
      var found, b := TakeBit(free);
      if !found {
        return null;
      }
      ChoiceIsFree(free, b);
      block := ClaimBlock(b, refs);
    }

    /** The most blocks that were ever in use, given that `most` was before and `used` were in use then. */
    ghost predicate Recorded(used: int, most: int)
      reads this`memoryUsed, this`memoryUsedMax
    {
      memoryUsedMax == if memoryUsed > used && memoryUsed > most then memoryUsed else most
    }

    lemma ChoiceIsFree(free: set<nat>, b: nat)
      requires IsChoice(free, b)
      ensures b in free
    {}

    lemma MaskIsNoQueue(slots: map<Slot, nat>)
      requires Apart(slots)
      ensures mask as object !in Queues()
    {}

    /** Counts block b as used, with one owner. */
    method ClaimBlock(b: nat, ghost refs: seq<nat>) returns (block: AudioBlock)
      requires BlocksShow(refs) && b < |memoryPool|
      modifies this`memoryUsed, this`memoryUsedMax, memoryPool`refCount
      ensures b < |refs| && block == memoryPool[b] && block.memoryPoolIndex == b && BlocksShow(refs[b := 1])
      ensures memoryUsed == old(memoryUsed) + 1
      ensures memoryUsedMax == if memoryUsed > old(memoryUsedMax) then memoryUsed else old(memoryUsedMax)
    {
      hide BlocksShow;
      memoryUsed := memoryUsed + 1;
      BlockAt(refs, b);
      block := memoryPool[b];
      SetCount(block, 1, refs);
      if memoryUsed > memoryUsedMax {
        memoryUsedMax := memoryUsed;
      }
    }

    lemma PoolInRange(refs: seq<nat>)
      requires BlocksShow(refs)
      ensures |memoryPool| == |refs| <= MAX_BLOCKS <= 32 * NUM_MASKS
    {}

    lemma NoDataIsMask(p: Pool)
      requires Shows(p)
      ensures forall b :: b in memoryPool ==> b.data as object != mask
    {}

    method AllocateFrom(ghost p: Pool) returns (block: AudioBlock?)
      requires Shows(p) && forall c :: c in p.free ==> c < |memoryPool|
      modifies this`firstMask, this`memoryUsed, this`memoryUsedMax, mask, memoryPool`refCount
      ensures block == null <==> p.free == {}
      ensures block == null ==> Shows(p)
      ensures block != null ==>
                var b := block.memoryPoolIndex;
                && b < |memoryPool| == |p.refs| && block == memoryPool[b] && IsChoice(p.free, b) && b in p.free
                && Shows(BlockOwnership.Allocate(p, b))
      ensures Samples() == old(Samples())
      ensures Recorded(old(memoryUsed), old(memoryUsedMax))
    {
      NoDataIsMask(p);
      hide MaskShows, BlocksShow, Apart, IsChoice;
      block := AllocateBlock(p.free, p.refs, p.slots);
    }

    /** A new block, owned by the caller alone; null exactly when the pool is empty. */
    method Allocate() returns (block: AudioBlock?)
      requires Valid()
      modifies this`firstMask, this`memoryUsed, this`memoryUsedMax, this`pool, mask, memoryPool`refCount
      ensures Valid()
      ensures block == null <==> old(pool).free == {}
      ensures block == null ==> pool == old(pool)
      ensures block != null ==>
                var b := block.memoryPoolIndex;
                && b < |memoryPool| && block == memoryPool[b]
                && IsChoice(old(pool).free, b)
                && pool == BlockOwnership.Allocate(old(pool), b)
      ensures Recorded(old(memoryUsed), old(memoryUsedMax))
    {
      FreeInRange();
      QueuesAreArrays();
      hide Inv, Shows, Owners, IsChoice;
      block := AllocateFrom(pool);
      if block != null {
        AllocateKeepsInv(pool, block.memoryPoolIndex);
        pool := BlockOwnership.Allocate(pool, block.memoryPoolIndex);
      }
    }

    lemma FreeOfInv(p: Pool)
      requires Inv(p)
      ensures forall c :: c in p.free ==> c < p.num == |p.refs|
    {}

    lemma FreeInRange()
      requires Valid()
      ensures |memoryPool| == |pool.refs| && forall b :: b in pool.free ==> b < |memoryPool| <= MAX_BLOCKS
      ensures forall b :: b in pool.held ==> b < |memoryPool| && b !in pool.free && pool.refs[b] == Owners(pool, b) >= 1
    {
      forall b | b in pool.held
        ensures b < |memoryPool| && b !in pool.free && pool.refs[b] == Owners(pool, b) >= 1
      {
        HeldIsOwned(pool, b);
      }
    }

    /** Puts the bit of block b back, and the hint down to its word. */
    method PutBit(b: nat, ghost free: set<nat>)
      requires MaskShows(free) && b < 32 * NUM_MASKS
      modifies this`firstMask, mask
      ensures MaskShows(free + {b})
      ensures firstMask == if b / 32 < old(firstMask) then b / 32 else old(firstMask)
    {
      assert mask.Length == NUM_MASKS;
      hide Has, Shr, Shl, BitsShow, Joined;
      ghost var was := mask[..];
      FromTop(31 - b % 32);
      SetShows(was, free, b / 32, b % 32);
      var bit := Shr(0x8000_0000, 31 - b % 32);
      var index := b / 32;
      mask[index] := Joined(mask[index], bit);
      if index < firstMask {
        firstMask := index;
      }
      assert mask[..] == was[index := Joined(was[index], Shl(1, b % 32))];
      assert 32 * (b / 32) + b % 32 == b;
    }

    /** release, on the bitmap and the counters. */
    method ReleaseBlock(block: AudioBlock, ghost free: set<nat>, ghost refs: seq<nat>, ghost slots: map<Slot, nat>)
      requires MaskShows(free) && BlocksShow(refs) && Apart(slots) && block in memoryPool
      modifies this`firstMask, this`memoryUsed, mask, memoryPool`refCount
      ensures Apart(slots) && block.memoryPoolIndex < |memoryPool| == |refs|
      ensures var b := block.memoryPoolIndex;
              if refs[b] > 1 then
                MaskShows(free) && BlocksShow(refs[b := refs[b] - 1]) && memoryUsed == old(memoryUsed)
              else
                MaskShows(free + {b}) && BlocksShow(refs) && memoryUsed == old(memoryUsed) - 1
    {
      PoolInRange(refs);
      Position(refs, block);
      BlockAt(refs, block.memoryPoolIndex);
      hide MaskShows, BlocksShow, QueuesShow;
      if block.refCount > 1 {
        SetCount(block, block.refCount - 1, refs);
      } else {
        PutBit(block.memoryPoolIndex, free);
        memoryUsed := memoryUsed - 1;
      }
    }

    method ReleaseFrom(block: AudioBlock, ghost p: Pool)
      requires Shows(p) && block in memoryPool
      modifies this`firstMask, this`memoryUsed, mask, memoryPool`refCount
      ensures block.memoryPoolIndex < |p.refs| && Shows(BlockOwnership.Release(p, block.memoryPoolIndex))
    {
      Position(p.refs, block);
      PoolInRange(p.refs);
      ReleaseFields(p, block.memoryPoolIndex);
      hide MaskShows, BlocksShow, Apart, BlockOwnership.Release;
      ReleaseBlock(block, p.free, p.refs, p.slots);
    }

    /** Gives up one ownership; the block goes back to the pool when it was the last. */
    method Release(block: AudioBlock)
      requires Valid() && block in memoryPool
      modifies this`firstMask, this`memoryUsed, this`pool, mask, memoryPool`refCount
      ensures block.memoryPoolIndex < |old(pool).refs|
      ensures Shows(pool) && pool == BlockOwnership.Release(old(pool), block.memoryPoolIndex)
      ensures Valid() <==> ReleaseIsSafe(old(pool), block.memoryPoolIndex)
    {
      Position(pool.refs, block);
      FreeInRange();
      QueuesAreArrays();
      hide Inv, Shows, Owners, BlockOwnership.Release;
      ReleaseKeepsInv(pool, block.memoryPoolIndex);
      ReleaseFrom(block, pool);
      pool := BlockOwnership.Release(pool, block.memoryPoolIndex);
    }

    // ----- Queue slots

    method PutSlot(s: Slot, block: AudioBlock, ghost slots: map<Slot, nat>, ghost b: nat)
      requires Apart(slots) && IsSlot(s) && s !in slots
      requires b < |memoryPool| && memoryPool[b] == block
      modifies streams[s.stream].inputQueue
      ensures Apart(slots[s := b])
    {
      streams[s.stream].inputQueue[s.input] := block;
    }

    method TakeSlot(s: Slot, ghost slots: map<Slot, nat>) returns (block: AudioBlock?)
      requires Apart(slots) && IsSlot(s)
      modifies streams[s.stream].inputQueue
      ensures Apart(slots - {s})
      ensures block == null <==> s !in slots
      ensures block != null ==> slots[s] < |memoryPool| && block == memoryPool[slots[s]]
    {
      block := streams[s.stream].inputQueue[s.input];
      streams[s.stream].inputQueue[s.input] := null;
    }

    /** One connection of transmit: a free slot gets the block, and the counter goes up, modulo 256. */
    method OfferTo(s: Slot, block: AudioBlock, ghost p: Pool)
      requires Shows(p) && block in memoryPool && IsSlot(s)
      modifies streams[s.stream].inputQueue, block`refCount
      ensures block.memoryPoolIndex < |p.refs| && Shows(Offer(p, block.memoryPoolIndex, s))
    {
      Position(p.refs, block);
      PoolInRange(p.refs);
      BlockAt(p.refs, block.memoryPoolIndex);
      if streams[s.stream].inputQueue[s.input] == null {
        assert s !in p.slots by { SlotIsNull(s, p.slots); }
        StoreAndCount(s, block, p);
      } else {
        assert s in p.slots;
      }
    }

    lemma SlotIsNull(s: Slot, slots: map<Slot, nat>)
      requires Apart(slots) && IsSlot(s)
      ensures streams[s.stream].inputQueue[s.input] == null <==> s !in slots
    {
      assert s == Slot(s.stream, s.input);
    }

    method StoreAndCount(s: Slot, block: AudioBlock, ghost p: Pool)
      requires Shows(p) && block in memoryPool && IsSlot(s) && s !in p.slots
      modifies streams[s.stream].inputQueue, block`refCount
      ensures block.memoryPoolIndex < |p.refs| && Shows(Offer(p, block.memoryPoolIndex, s))
    {
      Position(p.refs, block);
      PoolInRange(p.refs);
      BlockAt(p.refs, block.memoryPoolIndex);
      QueuesAreArrays();
      MaskIsApart(s, p.slots);
      hide MaskShows, BlocksShow, Apart;
      PutSlot(s, block, p.slots, block.memoryPoolIndex);
      SetCount(block, (block.refCount + 1) % 256, p.refs);
    }

    lemma MaskIsApart(s: Slot, slots: map<Slot, nat>)
      requires Apart(slots) && IsSlot(s)
      ensures mask as object != streams[s.stream].inputQueue
      ensures forall b :: b in memoryPool ==> b as object != streams[s.stream].inputQueue
    {
      assert streams[s.stream].inputQueue as object in Queues();
    }

    lemma MatchingNext(list: seq<Connection>, index: nat, k: nat)
      requires k < |list|
      ensures Matching(list[..k + 1], index) ==
              Matching(list[..k], index) +
              if list[k].srcIndex == index then [Slot(list[k].dst, list[k].destIndex)] else []
    {
      assert list[..k + 1][..k] == list[..k];
    }

    /** Offers the block to every slot that output `index` is connected to. The counters stay right
      if and only if the block ends up with fewer than 256 owners. */
    method Transmit(list: seq<Connection>, block: AudioBlock, index: nat)
      requires Valid()
      requires forall k :: 0 <= k < |list| ==> IsSlot(Slot(list[k].dst, list[k].destIndex))
      requires block in memoryPool
      modifies this`pool, Queues(), block`refCount
      ensures block.memoryPoolIndex < |old(pool).refs|
      ensures Shows(pool) && pool == BlockOwnership.Transmit(old(pool), block.memoryPoolIndex, Matching(list, index))
      ensures Valid() <==> TransmitIsSafe(old(pool), block.memoryPoolIndex, Matching(list, index))
      ensures forall s :: s in pool.slots <==> s in old(pool).slots || Feeds(list, index, s)
      ensures forall s :: s in pool.slots ==>
                pool.slots[s] == if s in old(pool).slots then old(pool).slots[s] else block.memoryPoolIndex
    {
      Position(pool.refs, block);
      FreeInRange();
      QueuesAreArrays();
      ghost var p, b := pool, block.memoryPoolIndex;
      TransmitKeepsInv(p, b, Matching(list, index));
      hide Inv, Shows, Owners, BlockOwnership.Transmit, Filled;
      OfferAll(list, block, index, p, b);
      pool := BlockOwnership.Transmit(p, b, Matching(list, index));
      TransmitSlots(p, b, Matching(list, index));
      forall s
        ensures s in Matching(list, index) <==> Feeds(list, index, s)
      {
        MatchingIsFed(list, index, s);
      }
    }

    /** The walk along the connection list. */
    method OfferAll(list: seq<Connection>, block: AudioBlock, index: nat, ghost p: Pool, ghost b: nat)
      requires Shows(p) && block in memoryPool && block.memoryPoolIndex == b < |p.refs|
      requires forall k :: 0 <= k < |list| ==> IsSlot(Slot(list[k].dst, list[k].destIndex))
      modifies Queues(), block`refCount
      ensures Shows(BlockOwnership.Transmit(p, b, Matching(list, index)))
    {
      hide Shows, BlockOwnership.Transmit, Offer, Matching;
      NothingOffered(list, index, p, b);
      var k := 0;
      while k < |list|
        invariant k <= |list| && block.memoryPoolIndex == b
        invariant Shows(BlockOwnership.Transmit(p, b, Matching(list[..k], index)))
      {
        ghost var dests := Matching(list[..k], index);
        OfferedNext(p, b, dests, Slot(list[k].dst, list[k].destIndex));
        MatchingNext(list, index, k);
        assert dests + [] == dests;
        OfferAlong(list[k], block, index, BlockOwnership.Transmit(p, b, dests));
        k := k + 1;
      }
      assert list[..k] == list;
    }

    method OfferAlong(c: Connection, block: AudioBlock, index: nat, ghost p: Pool)
      requires Shows(p) && block in memoryPool && IsSlot(Slot(c.dst, c.destIndex))
      modifies Queues(), block`refCount
      ensures block.memoryPoolIndex < |p.refs|
      ensures Shows(if c.srcIndex == index then Offer(p, block.memoryPoolIndex, Slot(c.dst, c.destIndex)) else p)
    {
      Position(p.refs, block);
      PoolInRange(p.refs);
      hide Shows, Offer;
      if c.srcIndex == index {
        OfferTo(Slot(c.dst, c.destIndex), block, p);
      }
    }

    lemma NothingOffered(list: seq<Connection>, index: nat, p: Pool, b: nat)
      requires b < |p.refs|
      ensures BlockOwnership.Transmit(p, b, Matching(list[..0], index)) == p
    {}

    lemma OfferedNext(p: Pool, b: nat, dests: seq<Slot>, s: Slot)
      requires b < |p.refs|
      ensures BlockOwnership.Transmit(p, b, dests + [s]) == Offer(BlockOwnership.Transmit(p, b, dests), b, s)
    {
      assert (dests + [s])[..|dests|] == dests;
    }

    // ----- Receive

    /** Empties a slot, without saying who has the block now. */
    method TakeFrom(s: Slot, ghost p: Pool) returns (block: AudioBlock?)
      requires Shows(p) && IsSlot(s)
      modifies Queues()
      ensures Shows(p.(slots := p.slots - {s}))
      ensures block == null <==> s !in p.slots
      ensures block != null ==> p.slots[s] < |memoryPool| && block == memoryPool[p.slots[s]]
      ensures Samples() == old(Samples())
    {
      QueuesAreArrays();
      MaskIsApart(s, p.slots);
      hide MaskShows, BlocksShow, Apart;
      block := TakeSlot(s, p.slots);
    }

    lemma HeldDoesNotShow(p: Pool, held: multiset<nat>)
      requires Shows(p)
      ensures Shows(p.(held := held))
    {}

    /** The queued block becomes the caller's; null for an empty or missing input. */
    method ReceiveReadOnly(stream: nat, index: nat) returns (block: AudioBlock?)
      requires Valid() && stream < |streams|
      modifies this`pool, Queues()
      ensures Valid() && pool == Receive(old(pool), Slot(stream, index))
      ensures block == null <==> Slot(stream, index) !in old(pool).slots
      ensures block != null ==>
                old(pool).slots[Slot(stream, index)] < |memoryPool| &&
                block == memoryPool[old(pool).slots[Slot(stream, index)]]
    {
      hide Inv, Shows, Receive, Handed, Samples;
      ghost var s := Slot(stream, index);
      ReceiveKeepsInv(pool, s);
      QueuesAreArrays();
      SlotState(stream, index);
      if index >= streams[stream].inputQueue.Length {
        NothingReceived(pool, s);
        return null;
      }
      block := TakeFrom(Slot(stream, index), pool);
      ReceiveShows(pool, s);
      pool := Receive(pool, s);
    }

    lemma NothingReceived(p: Pool, s: Slot)
      requires s !in p.slots
      ensures Receive(p, s) == p
    {}

    lemma ReceiveShows(p: Pool, s: Slot)
      requires Shows(p.(slots := p.slots - {s}))
      ensures Shows(Receive(p, s))
    {
      if s in p.slots {
        HeldDoesNotShow(p.(slots := p.slots - {s}), p.held + multiset{p.slots[s]});
      } else {
        assert p.slots - {s} == p.slots;
      }
    }

    method CopySamples(from: AudioBlock, to: AudioBlock)
      requires from.data != to.data && from.data.Length == to.data.Length == AUDIO_BLOCK_SAMPLES
      modifies to.data
      ensures to.data[..] == from.data[..]
    {
      var i := 0;
      while i < AUDIO_BLOCK_SAMPLES
        invariant i <= AUDIO_BLOCK_SAMPLES
        invariant to.data[..i] == from.data[..i]
      {
        to.data[i] := from.data[i];
        i := i + 1;
      }
      assert to.data[..i] == to.data[..] && from.data[..i] == from.data[..];
    }

    /** The samples of all blocks of the pool. */
    ghost function Samples(): (r: seq<seq<int>>)
      reads this`memoryPool, set b | b in memoryPool :: b.data
      ensures |r| == |memoryPool| && forall i :: 0 <= i < |r| ==> r[i] == memoryPool[i].data[..]
    {
      SamplesOf(memoryPool)
    }

    /** The samples lie apart from each other and from all bookkeeping. */
    lemma SamplesApart(p: Pool, a: AudioBlock, b: AudioBlock)
      requires Shows(p) && a in memoryPool && b in memoryPool && a != b
      ensures a.data != b.data && a.data.Length == b.data.Length == AUDIO_BLOCK_SAMPLES
    {}

    lemma DataApart(p: Pool, x: AudioBlock)
      requires Shows(p) && x in memoryPool
      ensures x.data as object !in Queues() && x.data as object != mask && x.data as object != this
      ensures forall b :: b in memoryPool ==> b as object != x.data
    {}

    method LoseOwner(block: AudioBlock, ghost p: Pool)
      requires Shows(p) && block in memoryPool
      requires block.memoryPoolIndex < |p.refs| && p.refs[block.memoryPoolIndex] > 0
      modifies block`refCount
      ensures block.memoryPoolIndex < |p.refs|
      ensures var b := block.memoryPoolIndex; Shows(p.(refs := p.refs[b := p.refs[b] - 1]))
    {
      Position(p.refs, block);
      BlockAt(p.refs, block.memoryPoolIndex);
      QueuesAreArrays();
      hide MaskShows, BlocksShow, Apart;
      SetCount(block, block.refCount - 1, p.refs);
    }

    /** The pool once `copy` has been taken from it, null standing for nothing. */
    ghost function Taken(q: Pool, copy: AudioBlock?): Pool
      requires copy != null ==> copy.memoryPoolIndex < |q.refs|
      reads copy
    {
      if copy == null then q else BlockOwnership.Allocate(q, copy.memoryPoolIndex)
    }

    /** `copy` is the block the allocator takes from the pool, or null when that is empty. */
    ghost predicate IsTaken(q: Pool, copy: AudioBlock?)
      reads this`memoryPool, copy
    {
      && (copy == null <==> q.free == {})
      && (copy != null ==>
            var c := copy.memoryPoolIndex;
            c < |memoryPool| == |q.refs| && copy == memoryPool[c] && IsChoice(q.free, c))
    }

    /** A new block with the samples of `block`, if there is one. */
    method AllocateCopy(block: AudioBlock, ghost q: Pool, ghost b: nat) returns (copy: AudioBlock?)
      requires Shows(q) && b < |memoryPool| && block == memoryPool[b] && b !in q.free
      requires forall c :: c in q.free ==> c < |memoryPool|
      modifies this`firstMask, this`memoryUsed, this`memoryUsedMax, mask, memoryPool`refCount
      modifies set b | b in memoryPool :: b.data
      ensures IsTaken(q, copy) && Shows(Taken(q, copy))
      ensures SamplesAfter(old(Samples()), copy, b)
    {
      hide Shows, IsChoice, Samples;
      BlockShown(q, b);
      copy := AllocateFrom(q);
      if copy != null {
        ghost var p := BlockOwnership.Allocate(q, copy.memoryPoolIndex);
        SamplesApart(p, block, copy);
        DataApart(p, copy);
        DataDistinct(p, copy);
        ghost var before := Samples();
        CopySamples(block, copy);
        assert Samples() == before[copy.memoryPoolIndex := before[b]];
      }
    }

    /** All samples are as before, but for a copy, which has those of block b. */
    ghost predicate SamplesAfter(before: seq<seq<int>>, copy: AudioBlock?, b: nat)
      reads this`memoryPool, copy, set b | b in memoryPool :: b.data
    {
      Samples() ==
      if copy != null && copy.memoryPoolIndex < |before| && b < |before| then before[copy.memoryPoolIndex := before[b]]
      else before
    }

    lemma BlockShown(p: Pool, b: nat)
      requires Shows(p)
      ensures |memoryPool| == |p.refs|
      ensures b < |memoryPool| ==> memoryPool[b].memoryPoolIndex == b && memoryPool[b].refCount == p.refs[b]
    {}

    lemma DataDistinct(p: Pool, copy: AudioBlock)
      requires Shows(p) && copy in memoryPool
      ensures forall i :: 0 <= i < |memoryPool| && i != copy.memoryPoolIndex ==> memoryPool[i].data != copy.data
    {}

    lemma WritableFields(p: Pool, s: Slot, copy: AudioBlock?)
      requires Inv(p) && s in p.slots && p.refs[p.slots[s]] > 1
      requires IsTaken(p.(slots := p.slots - {s}), copy)
      ensures var b, q := p.slots[s], Taken(p.(slots := p.slots - {s}), copy);
              && b < |q.refs| && q.refs[b] > 0
              && (copy != null ==> copy.memoryPoolIndex in p.free)
              && BlockOwnership.ReceiveWritable(p, s, CopyOf(copy)) == q.(refs := q.refs[b := q.refs[b] - 1])
    {
      QueuedIsOwned(p, s);
    }

    ghost function CopyOf(copy: AudioBlock?): Option<nat>
      reads copy
    {
      if copy == null then None else Some(copy.memoryPoolIndex)
    }

    /** receiveWritable, for a block that has other owners: the samples go into a new block, if there is one,
      and the queued block loses one owner in any case. */
    method CopyShared(block: AudioBlock, ghost s: Slot, ghost p: Pool) returns (copy: AudioBlock?)
      requires Inv(p) && s in p.slots && p.refs[p.slots[s]] > 1
      requires Shows(p.(slots := p.slots - {s}))
      requires p.slots[s] < |memoryPool| && block == memoryPool[p.slots[s]]
      modifies this`firstMask, this`memoryUsed, this`memoryUsedMax, mask, memoryPool`refCount
      modifies set b | b in memoryPool :: b.data
      ensures IsTaken(p.(slots := p.slots - {s}), copy) && (copy != null ==> copy.memoryPoolIndex in p.free)
      ensures Shows(BlockOwnership.ReceiveWritable(p, s, CopyOf(copy)))
      ensures SamplesAfter(old(Samples()), copy, p.slots[s])
    {
      hide Shows, Inv, IsTaken, Taken, CopyOf, SamplesAfter, Samples, Owners, BlockOwnership.ReceiveWritable;
      ghost var q, b := p.(slots := p.slots - {s}), p.slots[s];
      QueuedIsOwned(p, s);
      BlockShown(q, b);
      FreeOfInv(p);
      copy := AllocateCopy(block, q, b);
      WritableFields(p, s, copy);
      LoseOwner(block, Taken(q, copy));
    }

    /** The block that was taken from the pool to be handed over, if the queued one had other owners. */
    ghost function CopyFor(p: Pool, s: Slot, block: AudioBlock?): AudioBlock?
      requires s in p.slots && p.slots[s] < |p.refs|
    {
      if p.refs[p.slots[s]] <= 1 then null else block
    }

    /** How receiveWritable takes the pool from p to p' and the samples on from `before`: nothing from an empty
      slot; else the queued block if it has no other owner, or a copy of it in a block that was free, or nothing
      when none is. What it hands over has one owner, and no other block's samples change. */
    ghost predicate Handed(p: Pool, p': Pool, s: Slot, block: AudioBlock?, before: seq<seq<int>>)
      reads this`memoryPool, block, set b | b in memoryPool :: b.data
    {
      if s !in p.slots then block == null && p' == p && Samples() == before
      else
        var b := p.slots[s];
        && b < |p.refs| == |memoryPool| && Inv(p)
        && (if p.refs[b] <= 1 then block == memoryPool[b] else IsTaken(p.(slots := p.slots - {s}), block))
        && (p.refs[b] > 1 && block != null ==> block.memoryPoolIndex in p.free)
        && p' == BlockOwnership.ReceiveWritable(p, s, CopyOf(CopyFor(p, s, block)))
        && (block != null ==> Owners(p', block.memoryPoolIndex) == 1 && block.memoryPoolIndex in p'.held)
        && SamplesAfter(before, CopyFor(p, s, block), b)
    }

    /** receiveWritable on an occupied slot, on the bitmap, counters, slots and samples. */
    method TakeWritable(s: Slot, ghost p: Pool) returns (block: AudioBlock?, ghost p': Pool)
      requires Inv(p) && Shows(p) && IsSlot(s) && s in p.slots
      modifies this`firstMask, this`memoryUsed, this`memoryUsedMax, mask, memoryPool`refCount, Queues()
      modifies set b | b in memoryPool :: b.data
      ensures Shows(p') && Inv(p') && Handed(p, p', s, block, old(Samples()))
    {
      hide Shows, Inv, IsTaken, BlockOwnership.ReceiveWritable, Receive, Samples, Owners;
      BlockShown(p, p.slots[s]);
      InvIsShaped(p);
      QueuedIsOwned(p, s);
      block := TakeFrom(s, p);
      BlockShown(p.(slots := p.slots - {s}), p.slots[s]);
      if block.refCount > 1 {
        block := CopyShared(block, s, p);
        p' := BlockOwnership.ReceiveWritable(p, s, CopyOf(block));
        CopyHanded(p, s, block);
      } else {
        SoleOwner(p, s);
        ReceiveShows(p, s);
        p' := Receive(p, s);
      }
    }

    lemma SoleOwner(p: Pool, s: Slot)
      requires Inv(p) && s in p.slots && p.refs[p.slots[s]] <= 1
      ensures var b, p' := p.slots[s], Receive(p, s);
              && BlockOwnership.ReceiveWritable(p, s, None) == p' && Inv(p')
              && Owners(p', b) == 1 && b in p'.held
    {
      QueuedIsOwned(p, s);
      ReceiveKeepsInv(p, s);
    }

    lemma CopyHanded(p: Pool, s: Slot, copy: AudioBlock?)
      requires Inv(p) && s in p.slots && p.refs[p.slots[s]] > 1
      requires IsTaken(p.(slots := p.slots - {s}), copy) && (copy != null ==> copy.memoryPoolIndex in p.free)
      ensures var p' := BlockOwnership.ReceiveWritable(p, s, CopyOf(copy));
              Inv(p') && (copy != null ==> Owners(p', copy.memoryPoolIndex) == 1 && copy.memoryPoolIndex in p'.held)
    {
      ReceiveWritableKeepsInv(p, s, CopyOf(copy));
    }

    /** receiveWritable: the caller gets nothing, or a block that no one else owns with the samples of the queued
      block; no other block's samples change. */
    method ReceiveWritable(stream: nat, index: nat) returns (block: AudioBlock?)
      requires Valid() && stream < |streams|
      modifies this`firstMask, this`memoryUsed, this`memoryUsedMax, this`pool, mask, memoryPool`refCount, Queues()
      modifies set b | b in memoryPool :: b.data
      ensures Valid()
      ensures Handed(old(pool), pool, Slot(stream, index), block, old(Samples()))
    {
      hide Inv, Shows, Handed, Samples;
      QueuesAreArrays();
      SlotState(stream, index);
      if index >= streams[stream].inputQueue.Length || streams[stream].inputQueue[index] == null {
        return null;
      }
      ghost var p';
      block, p' := TakeWritable(Slot(stream, index), pool);
      pool := p';
    }

    lemma SlotState(stream: nat, index: nat)
      requires Valid() && stream < |streams|
      ensures var empty := index >= streams[stream].inputQueue.Length || streams[stream].inputQueue[index] == null;
              && (empty <==> Slot(stream, index) !in pool.slots)
              && (empty ==> Handed(pool, pool, Slot(stream, index), null, Samples()))
    {
      if index < streams[stream].inputQueue.Length { SlotIsNull(Slot(stream, index), pool.slots); }
    }

    // ----- Setting the pool up

    method ClearMask()
      requires mask.Length == NUM_MASKS
      modifies mask
      ensures BitsShow(mask[..], {})
    {
      hide Has;
      var i := 0;
      while i < NUM_MASKS
        invariant i <= NUM_MASKS && forall w :: 0 <= w < i ==> mask[w] == 0
      {
        mask[i] := 0;
        i := i + 1;
      }
      forall b | 0 <= b < 32 * NUM_MASKS
        ensures !Has(mask[..][b / 32], b % 32)
      {
        ZeroHasNoBit(b % 32);
      }
    }

    method FillMask(num: nat)
      requires num <= MAX_BLOCKS && mask.Length == NUM_MASKS && BitsShow(mask[..], {})
      modifies mask
      ensures BitsShow(mask[..], Below(num))
    {
      hide Has, Shl, Joined, BitsShow;
      var i := 0;
      while i < num
        invariant i <= num && mask.Length == NUM_MASKS && BitsShow(mask[..], Below(i))
      {
        ghost var was := mask[..];
        SetShows(was, Below(i), i / 32, i % 32);
        mask[i / 32] := Joined(mask[i / 32], Shl(1, i % 32));
        assert mask[..] == was[i / 32 := Joined(was[i / 32], Shl(1, i % 32))];
        assert 32 * (i / 32) + i % 32 == i;
        i := i + 1;
      }
    }

    ghost predicate Storage(data: seq<AudioBlock>) {
      && (forall i, j :: 0 <= i < j < |data| ==> data[i] != data[j] && data[i].data != data[j].data)
      && (forall i :: 0 <= i < |data| ==> data[i].data.Length == AUDIO_BLOCK_SAMPLES && data[i].data as object != mask)
    }

    method NumberBlocks(data: seq<AudioBlock>, num: nat, ghost refs: seq<nat>)
      requires Storage(data) && num == |data| <= MAX_BLOCKS && refs == Counters(data)
      modifies this`memoryPool, data`memoryPoolIndex
      ensures memoryPool == data && BlocksShow(refs)
    {
      memoryPool := data;
      var i := 0;
      while i < num
        invariant i <= num
        invariant memoryPool == data && forall j :: 0 <= j < num ==> data[j].refCount == refs[j]
        invariant forall j :: 0 <= j < i ==> data[j].memoryPoolIndex == j
      {
        data[i].memoryPoolIndex := i;
        i := i + 1;
      }
    }

    /** What the counters of some blocks happen to say. */
    ghost function Counters(data: seq<AudioBlock>): (r: seq<nat>)
      reads (set b | b in data)`refCount
      ensures |r| == |data| && forall i :: 0 <= i < |r| ==> r[i] == data[i].refCount < 256
    {
      if data == [] then []
      else
        var count: nat := data[0].refCount;
        [count] + Counters(data[1..])
    }

    /** Makes every block of `data` free. What is queued or held stays so, and so does the count of used blocks:
      the pool is sound afterwards if and only if that count was zero. */
    method InitializeMemory(data: seq<AudioBlock>)
      requires Valid() && Storage(data)
      modifies this`memoryPool, this`firstMask, this`pool, mask, data`memoryPoolIndex
      ensures var num := if |data| > MAX_BLOCKS then MAX_BLOCKS else |data|;
              && memoryPool == data[..num]
              && pool == Initialize(old(pool), old(Counters(data[..num])))
      ensures MaskShows(pool.free) && BlocksShow(pool.refs)
      ensures Valid() <==> old(memoryUsed) == 0
    {
      var num := |data|;
      if num > MAX_BLOCKS {
        num := MAX_BLOCKS;
      }
      PrefixIsStorage(data, num);
      InitializeBlocks(data[..num]);
    }

    method InitializeBlocks(data: seq<AudioBlock>)
      requires Valid() && Storage(data) && |data| <= MAX_BLOCKS
      modifies this`memoryPool, this`firstMask, this`pool, mask, data`memoryPoolIndex
      ensures memoryPool == data && pool == Initialize(old(pool), old(Counters(data)))
      ensures MaskShows(pool.free) && BlocksShow(pool.refs)
      ensures Valid() <==> old(memoryUsed) == 0
    {
      hide Inv, Storage, MaskShows, BlocksShow, Apart, Counters, Below;
      QueuesAreArrays();
      UsedCountsOwned(pool);
      ghost var refs := Counters(data);
      InitializeKeepsInv(pool, refs);
      SetUp(data, |data|, refs);
      pool := Initialize(pool, refs);
    }

    lemma PrefixIsStorage(data: seq<AudioBlock>, num: nat)
      requires Storage(data) && num <= |data|
      ensures Storage(data[..num])
    {}

    method SetUp(data: seq<AudioBlock>, num: nat, ghost refs: seq<nat>)
      requires Shows(pool) && Storage(data) && num == |data| <= MAX_BLOCKS
      requires refs == Counters(data)
      modifies this`memoryPool, this`firstMask, mask, data`memoryPoolIndex
      ensures memoryPool == data && MaskShows(Below(num)) && BlocksShow(refs)
      ensures pool.slots == map[] ==> Apart(map[])
    {
      hide Shows, MaskShows, BlocksShow, Apart, QueuesEmpty, Storage, Counters;
      QueuesAreArrays();
      EmptyQueues();
      DataIsApart(data);
      MaskIsWhole(pool);
      NumberBlocks(data, num, refs);
      SetUpMask(num);
      EmptyQueues();
    }

    lemma MaskIsWhole(p: Pool)
      requires Shows(p)
      ensures mask.Length == NUM_MASKS && Apart(p.slots)
    {}

    method SetUpMask(num: nat)
      requires num <= MAX_BLOCKS && mask.Length == NUM_MASKS
      modifies this`firstMask, mask
      ensures MaskShows(Below(num))
    {
      hide BitsShow;
      firstMask := 0;
      ClearMask();
      FillMask(num);
    }

    ghost predicate QueuesEmpty()
      reads Queues()
    {
      && mask as object !in Queues()
      && (forall i, j :: 0 <= i < j < |streams| ==> streams[i].inputQueue != streams[j].inputQueue)
      && (forall i, j :: 0 <= i < |streams| && 0 <= j < streams[i].inputQueue.Length ==>
            streams[i].inputQueue[j] == null)
    }

    lemma EmptyQueues()
      ensures Apart(map[]) <==> QueuesEmpty()
      ensures QueuesEmpty() ==> mask as object !in Queues()
    {}

    lemma DataIsApart(data: seq<AudioBlock>)
      ensures forall b :: b in data ==> b as object !in Queues() && b as object != this && b as object != mask
    {}
  }
}
