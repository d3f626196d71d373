/** Who owns the audio blocks, on values: the pool, the reference counts, the input
  queue slots and the handles that callers hold. */
module BlockOwnership {
  import opened Options

  datatype Slot = Slot(stream: nat, input: nat)

  /** `refs` are the 8-bit counters in the blocks; `slots` are the queue slots that hold a block;
    `held` are the blocks that callers have been given and not released. */
  datatype Pool = Pool(num: nat, free: set<nat>, refs: seq<nat>, slots: map<Slot, nat>, held: multiset<nat>, used: int)

  function Holders(slots: map<Slot, nat>, b: nat): set<Slot> {
    set s | s in slots && slots[s] == b
  }

  function Owners(p: Pool, b: nat): nat {
    |Holders(p.slots, b)| + p.held[b]
  }

  predicate Shaped(p: Pool) {
    && |p.refs| == p.num
    && (forall b :: 0 <= b < p.num ==> p.refs[b] < 256)
    && (forall b :: b in p.free ==> b < p.num)
    && (forall s :: s in p.slots ==> p.slots[s] < p.num)
    && (forall b :: b in p.held ==> b < p.num)
    && p.used + |p.free| == p.num
  }

  /** The counter of block b is right: it is in the pool without owners, or out of it with as many
    owners as its counter says. */
  predicate Right(p: Pool, b: nat)
    requires b < |p.refs|
  {
    if b in p.free then Owners(p, b) == 0 else p.refs[b] == Owners(p, b) > 0
  }

  predicate Inv(p: Pool) {
    Shaped(p) && forall b :: 0 <= b < p.num ==> Right(p, b)
  }

  // ----- The operations

  /** allocate, when block b is the one taken. */
  function Allocate(p: Pool, b: nat): Pool
    requires b < |p.refs|
  {
    p.(free := p.free - {b}, refs := p.refs[b := 1], held := p.held + multiset{b}, used := p.used + 1)
  }

  function Release(p: Pool, b: nat): Pool
    requires b < |p.refs|
  {
    var p := p.(held := p.held - multiset{b});
    if p.refs[b] > 1 then p.(refs := p.refs[b := p.refs[b] - 1])
    else p.(free := p.free + {b}, used := p.used - 1)
  }

  /** What an 8-bit counter keeps of a number. */
  function Byte(n: nat): nat {
    n % 256
  }

  /** One connection of transmit: an occupied slot is left alone. The counter is 8 bits wide. */
  function Offer(p: Pool, b: nat, s: Slot): Pool
    requires b < |p.refs|
  {
    if s in p.slots then p
    else p.(slots := p.slots[s := b], refs := p.refs[b := Byte(p.refs[b] + 1)])
  }

  function Transmit(p: Pool, b: nat, dests: seq<Slot>): (p': Pool)
    requires b < |p.refs|
    ensures |p'.refs| == |p.refs|
  {
    if dests == [] then p
    else Offer(Transmit(p, b, dests[..|dests| - 1]), b, dests[|dests| - 1])
  }

  /** receiveReadOnly: what stands in the slot goes to the caller. */
  function Receive(p: Pool, s: Slot): Pool {
    if s in p.slots then p.(slots := p.slots - {s}, held := p.held + multiset{p.slots[s]}) else p
  }

  /** receiveWritable, when `copy` is the block taken for the copy, or None because the pool is empty. */
  function ReceiveWritable(p: Pool, s: Slot, copy: Option<nat>): Pool
    requires Shaped(p) && (copy.Some? ==> copy.value in p.free)
  {
    if s in p.slots && p.refs[p.slots[s]] > 1 then
      var b := p.slots[s];
      var q := p.(slots := p.slots - {s});
      var q := if copy.Some? then Allocate(q, copy.value) else q;
      q.(refs := q.refs[b := if q.refs[b] > 0 then q.refs[b] - 1 else 255])
    else Receive(p, s)
  }

  // ----- Counting owners

  lemma HoldersAdd(slots: map<Slot, nat>, s: Slot, b: nat, x: nat)
    requires s !in slots
    ensures |Holders(slots[s := b], x)| == |Holders(slots, x)| + if x == b then 1 else 0
  {
    if x == b {
      assert Holders(slots[s := b], x) == Holders(slots, x) + {s};
    } else {
      assert Holders(slots[s := b], x) == Holders(slots, x);
    }
  }

  lemma HoldersRemove(slots: map<Slot, nat>, s: Slot, x: nat)
    requires s in slots
    ensures |Holders(slots - {s}, x)| == |Holders(slots, x)| - if x == slots[s] then 1 else 0
  {
    if x == slots[s] {
      assert Holders(slots - {s}, x) == Holders(slots, x) - {s};
    } else {
      assert Holders(slots - {s}, x) == Holders(slots, x);
    }
  }

  lemma HeldIsOwned(p: Pool, b: nat)
    requires Inv(p) && b in p.held
    ensures b < p.num && b !in p.free && p.refs[b] == Owners(p, b) >= 1
  {
    assert Right(p, b);
  }

  lemma QueuedIsOwned(p: Pool, s: Slot)
    requires Inv(p) && s in p.slots
    ensures var b := p.slots[s]; b < p.num && b !in p.free && p.refs[b] == Owners(p, b) >= 1
  {
    var b := p.slots[s];
    assert s in Holders(p.slots, b);
    assert Right(p, b);
  }

  // ----- Every operation keeps the counters right

  lemma InvIsShaped(p: Pool)
    requires Inv(p)
    ensures Shaped(p)
  {}

  lemma AllocateKeepsInv(p: Pool, b: nat)
    requires Inv(p) && b in p.free
    ensures Inv(Allocate(p, b)) && Owners(p, b) == 0 && Owners(Allocate(p, b), b) == 1
  {
    var p' := Allocate(p, b);
    assert Right(p, b);
    forall x | 0 <= x < p.num
      ensures Right(p', x)
    {
      assert Right(p, x);
    }
  }

  lemma ReleaseFields(p: Pool, b: nat)
    requires b < |p.refs|
    ensures var q := Release(p, b);
            && q.num == p.num && q.slots == p.slots && q.held == p.held - multiset{b}
            && if p.refs[b] > 1 then
                 q.refs == p.refs[b := p.refs[b] - 1] && q.free == p.free && q.used == p.used
               else
                 q.refs == p.refs && q.free == p.free + {b} && q.used == p.used - 1
  {}

  /** A caller holds the block; or it is free already, with a counter left above 1, which is then lowered. */
  predicate ReleaseIsSafe(p: Pool, b: nat)
    requires b < |p.refs|
  {
    b in p.held || (b in p.free && p.refs[b] > 1)
  }

  /** Releasing keeps every counter right if and only if that is so. A release by an owner puts the block back in
    the pool exactly when that owner was the last. */
  lemma ReleaseKeepsInv(p: Pool, b: nat)
    requires Inv(p) && b < p.num
    ensures Inv(Release(p, b)) <==> ReleaseIsSafe(p, b)
    ensures b in p.held ==> (b in Release(p, b).free <==> Owners(p, b) == 1)
    ensures forall x :: x != b ==> (x in Release(p, b).free <==> x in p.free)
  {
    var p' := Release(p, b);
    ReleaseFields(p, b);
    assert Right(p, b);
    if ReleaseIsSafe(p, b) {
      forall x | 0 <= x < p.num
        ensures Right(p', x)
      {
        assert Right(p, x);
      }
    } else {
      assert p'.held == p.held;
      if b in p.free { assert p'.free == p.free; }
      assert b !in p.free ==> !Right(p', b);
    }
  }

  lemma ReceiveKeepsInv(p: Pool, s: Slot)
    requires Inv(p)
    ensures Inv(Receive(p, s))
    ensures forall b :: Owners(Receive(p, s), b) == Owners(p, b)
  {
    var p' := Receive(p, s);
    if s in p.slots {
      QueuedIsOwned(p, s);
      forall x
        ensures Owners(p', x) == Owners(p, x)
      {
        HoldersRemove(p.slots, s, x);
      }
      forall x | 0 <= x < p.num
        ensures Right(p', x)
      {
        assert Right(p, x);
      }
    }
  }

  /** The caller gets a block nobody else owns, or nothing; the queued block loses exactly one owner either way,
    unless it had no other and is handed over itself. */
  lemma ReceiveWritableKeepsInv(p: Pool, s: Slot, copy: Option<nat>)
    requires Inv(p) && s in p.slots
    requires copy.Some? ==> copy.value in p.free
    ensures var b, p' := p.slots[s], ReceiveWritable(p, s, copy);
            && Inv(p') && s !in p'.slots
            && if p.refs[b] == 1 then
                 Owners(p', b) == 1 && b in p'.held && p'.free == p.free
               else
                 && Owners(p', b) == Owners(p, b) - 1 && p'.held[b] == p.held[b]
                 && (copy.Some? ==> Owners(p', copy.value) == 1 && copy.value in p'.held)
                 && (copy.None? ==> p'.held == p.held)
  {
    var b, p' := p.slots[s], ReceiveWritable(p, s, copy);
    QueuedIsOwned(p, s);
    if p.refs[b] == 1 {
      ReceiveKeepsInv(p, s);
    } else {
      if copy.Some? { assert Right(p, copy.value); }
      forall x | 0 <= x < p.num
        ensures Right(p', x)
      {
        HoldersRemove(p.slots, s, x);
        assert Right(p, x);
      }
      HoldersRemove(p.slots, s, b);
      if copy.Some? { HoldersRemove(p.slots, s, copy.value); }
    }
  }

  // ----- Transmit and the width of the counter

  /** The slots that a transmit fills. */
  function Filled(p: Pool, dests: seq<Slot>): set<Slot> {
    set s | s in dests && s !in p.slots
  }

  /** p' is p after block b has been put into the slots of `fill`, all empty before. */
  ghost predicate Grown(p: Pool, p': Pool, b: nat, fill: set<Slot>)
    requires b < p.num
  {
    && Shaped(p') && p'.num == p.num && p'.free == p.free && p'.held == p.held && p'.used == p.used
    && (forall s :: s in p'.slots <==> s in p.slots || s in fill)
    && (forall s :: s in fill ==> s !in p.slots)
    && |p.refs| == p.num
    && (forall x :: 0 <= x < p.num && x != b ==> p'.refs[x] == p.refs[x] && Owners(p', x) == Owners(p, x))
    && Owners(p', b) == Owners(p, b) + |fill|
    && p'.refs[b] == Byte(p.refs[b] + |fill|)
  }

  lemma {:induction false} TransmitEffect(p: Pool, b: nat, dests: seq<Slot>)
    requires Shaped(p) && b < p.num == |p.refs|
    ensures Grown(p, Transmit(p, b, dests), b, Filled(p, dests))
    decreases |dests|
  {
    if dests == [] {
      assert Filled(p, dests) == {};
      WrapIsRight(p.refs[b]);
    } else {
      hide Grown, Shaped, Offer, Filled;
      var init, s := dests[..|dests| - 1], dests[|dests| - 1];
      assert dests == init + [s];
      TransmitEffect(p, b, init);
      OneMore(p, Transmit(p, b, init), b, init, s);
    }
  }

  /** Afterwards the given slots are occupied too: those that were empty, by the block. */
  lemma {:induction false} TransmitSlots(p: Pool, b: nat, dests: seq<Slot>)
    requires b < |p.refs|
    ensures var p' := Transmit(p, b, dests);
            && (forall s :: s in p'.slots <==> s in p.slots || s in dests)
            && forall s :: s in p'.slots ==> p'.slots[s] == if s in p.slots then p.slots[s] else b
    decreases |dests|
  {
    if dests != [] {
      var n := |dests| - 1;
      TransmitSlots(p, b, dests[..n]);
      assert dests == dests[..n] + [dests[n]];
    }
  }

  lemma OneMore(p: Pool, q: Pool, b: nat, init: seq<Slot>, s: Slot)
    requires b < p.num && b < |q.refs| && Grown(p, q, b, Filled(p, init))
    ensures Grown(p, Offer(q, b, s), b, Filled(p, init + [s]))
  {
    FilledNext(p, init, s);
    OccupiedSlots(p, q, b, Filled(p, init), s);
    hide Grown, Filled;
    if s !in q.slots {
      GrowOnce(p, q, b, Filled(p, init), s);
    } else {
      OfferOccupied(q, b, s);
    }
  }

  lemma FilledNext(p: Pool, init: seq<Slot>, s: Slot)
    ensures Filled(p, init + [s]) ==
            if s in p.slots || s in Filled(p, init) then Filled(p, init) else Filled(p, init) + {s}
  {}

  lemma OccupiedSlots(p: Pool, q: Pool, b: nat, fill: set<Slot>, s: Slot)
    requires b < p.num && Grown(p, q, b, fill)
    ensures s in q.slots <==> s in p.slots || s in fill
  {}

  lemma OfferOccupied(q: Pool, b: nat, s: Slot)
    requires b < |q.refs| && s in q.slots
    ensures Offer(q, b, s) == q
  {}

  lemma GrowOnce(p: Pool, q: Pool, b: nat, fill: set<Slot>, s: Slot)
    requires b < p.num && b < |q.refs| && Grown(p, q, b, fill)
    requires s !in q.slots && s !in p.slots && s !in fill
    ensures Grown(p, Offer(q, b, s), b, fill + {s})
  {
    hide Owners, Offer, Shaped, Byte;
    var q' := Offer(q, b, s);
    OfferEffect(q, b, s);
    WrapAdds(p.refs[b] + |fill|);
    assert |fill + {s}| == |fill| + 1;
  }

  lemma WrapAdds(n: nat)
    ensures Byte(Byte(n) + 1) == Byte(n + 1)
  {}

  lemma OfferEffect(p: Pool, b: nat, s: Slot)
    requires Shaped(p) && b < p.num
    ensures var p' := Offer(p, b, s);
            && Shaped(p') && p'.num == p.num && p'.free == p.free && p'.held == p.held && p'.used == p.used
            && (forall x :: x in p'.slots <==> x in p.slots || x == s)
            && (forall x :: Owners(p', x) == Owners(p, x) + if x == b && s !in p.slots then 1 else 0)
            && (forall x :: 0 <= x < p.num && x != b ==> p'.refs[x] == p.refs[x])
            && p'.refs[b] == (if s in p.slots then p.refs[b] else Byte(p.refs[b] + 1))
  {
    if s !in p.slots {
      forall x
        ensures Owners(Offer(p, b, s), x) == Owners(p, x) + if x == b then 1 else 0
      {
        HoldersAdd(p.slots, s, b, x);
      }
    }
  }

  lemma WrapIsRight(n: nat)
    ensures Byte(n) == n <==> n < 256
  {}

  /** The block ends up with fewer than 256 owners, and gets none if it is free. */
  predicate TransmitIsSafe(p: Pool, b: nat, dests: seq<Slot>) {
    if b in p.free then Filled(p, dests) == {} else Owners(p, b) + |Filled(p, dests)| < 256
  }

  /** Transmitting keeps every counter right if and only if that is so. */
  lemma TransmitKeepsInv(p: Pool, b: nat, dests: seq<Slot>)
    requires Inv(p) && b < p.num
    ensures Inv(Transmit(p, b, dests)) <==> TransmitIsSafe(p, b, dests)
  {
    hide Transmit, Owners;
    assert Right(p, b);
    TransmitEffect(p, b, dests);
    var p' := Transmit(p, b, dests);
    forall x | 0 <= x < p.num && x != b
      ensures Right(p', x)
    {
      assert Right(p, x);
    }
    WrapIsRight(Owners(p, b) + |Filled(p, dests)|);
    assert Right(p', b) <==> TransmitIsSafe(p, b, dests);
  }

  // ----- Whole runs

  datatype Op =
    | OpAllocate(b: nat)
    | OpRelease(b: nat)
    | OpTransmit(b: nat, dests: seq<Slot>)
    | OpReceive(s: Slot)
    | OpReceiveWritable(s: Slot, copy: Option<nat>)

  /** What can happen: the allocator hands out a free block whenever there is one. */
  predicate Enabled(p: Pool, op: Op)
    requires Inv(p)
  {
    match op
    case OpAllocate(b) => b in p.free
    case OpRelease(b) => b < p.num
    case OpTransmit(b, dests) => b < p.num
    case OpReceive(s) => true
    case OpReceiveWritable(s, copy) =>
      if copy.Some? then copy.value in p.free
      else s !in p.slots || p.refs[p.slots[s]] == 1 || p.free == {}
  }

  /** What keeps the counters right. */
  predicate Safe(p: Pool, op: Op)
    requires Inv(p) && Enabled(p, op)
  {
    match op
    case OpRelease(b) => ReleaseIsSafe(p, b)
    case OpTransmit(b, dests) => TransmitIsSafe(p, b, dests)
    case _ => true
  }

  function Step(p: Pool, op: Op): Pool
    requires Inv(p) && Enabled(p, op)
  {
    match op
    case OpAllocate(b) => Allocate(p, b)
    case OpRelease(b) => Release(p, b)
    case OpTransmit(b, dests) => Transmit(p, b, dests)
    case OpReceive(s) => Receive(p, s)
    case OpReceiveWritable(s, copy) => ReceiveWritable(p, s, copy)
  }

  lemma StepKeepsInv(p: Pool, op: Op)
    requires Inv(p) && Enabled(p, op)
    ensures Inv(Step(p, op)) <==> Safe(p, op)
  {
    match op
    case OpAllocate(b) => AllocateKeepsInv(p, b);
    case OpRelease(b) => ReleaseKeepsInv(p, b);
    case OpTransmit(b, dests) => TransmitKeepsInv(p, b, dests);
    case OpReceive(s) => ReceiveKeepsInv(p, s);
    case OpReceiveWritable(s, copy) =>
      if s in p.slots { ReceiveWritableKeepsInv(p, s, copy); }
  }

  lemma StepKeepsSize(p: Pool, op: Op)
    requires Inv(p) && Enabled(p, op)
    ensures Step(p, op).num == p.num
  {
    if op.OpTransmit? { TransmitEffect(p, op.b, op.dests); }
  }

  /** Every step can happen and is safe, which by StepKeepsInv are exactly the runs along which every counter is
    right throughout. */
  predicate Legal(p: Pool, ops: seq<Op>)
    requires Inv(p)
    decreases |ops|
  {
    ops == [] ||
    (Enabled(p, ops[0]) && Safe(p, ops[0]) && (StepKeepsInv(p, ops[0]); Legal(Step(p, ops[0]), ops[1..])))
  }

  function Run(p: Pool, ops: seq<Op>): (p': Pool)
    requires Inv(p) && Legal(p, ops)
    ensures Inv(p') && p'.num == p.num
    decreases |ops|
  {
    if ops == [] then p
    else
      StepKeepsInv(p, ops[0]);
      StepKeepsSize(p, ops[0]);
      Run(Step(p, ops[0]), ops[1..])
  }

  function Below(n: nat): (r: set<nat>)
    ensures |r| == n
    ensures forall b: nat :: b in r <==> b < n
  {
    if n == 0 then {}
    else
      var below := Below(n - 1);
      assert n - 1 !in below;
      below + {n - 1}
  }

  function Fresh(num: nat, refs: seq<nat>): Pool {
    Pool(num, Below(num), refs, map[], multiset{}, 0)
  }

  lemma FreshInv(num: nat, refs: seq<nat>)
    requires |refs| == num && forall b :: 0 <= b < num ==> refs[b] < 256
    ensures Inv(Fresh(num, refs))
  {
    forall b | 0 <= b < num
      ensures Right(Fresh(num, refs), b)
    {
      assert Holders(map[], b) == {};
    }
  }

  /** In every run from a fresh pool: the blocks in use and the free blocks add up to the pool, a free block has
    no owner, and every other block's counter is the number of queue slots and callers that have it. */
  lemma RunConservesBlocks(num: nat, refs: seq<nat>, ops: seq<Op>)
    requires |refs| == num && Inv(Fresh(num, refs)) && Legal(Fresh(num, refs), ops)
    ensures var p := Run(Fresh(num, refs), ops);
            && |p.refs| == num && p.used + |p.free| == num
            && forall b :: 0 <= b < num ==>
                 && (b in p.free <==> Owners(p, b) == 0)
                 && (b !in p.free ==> p.refs[b] == |Holders(p.slots, b)| + p.held[b])
  {
    var p := Run(Fresh(num, refs), ops);
    forall b | 0 <= b < num
      ensures b in p.free <==> Owners(p, b) == 0
      ensures b !in p.free ==> p.refs[b] == |Holders(p.slots, b)| + p.held[b]
    {
      assert Right(p, b);
    }
  }

  // ----- Setting the memory up

  /** initialize_memory: every block is free, whatever is queued or held, and the count of used blocks stays. */
  function Initialize(p: Pool, refs: seq<nat>): Pool {
    Fresh(|refs|, refs).(slots := p.slots, held := p.held, used := p.used)
  }

  /** No block is in use exactly when none is queued or held. */
  lemma UsedCountsOwned(p: Pool)
    requires Inv(p)
    ensures p.used == 0 <==> p.slots == map[] && p.held == multiset{}
  {
    if p.used == 0 {
      FullSubset(p.free, Below(p.num));
      if s :| s in p.slots {
        QueuedIsOwned(p, s);
      }
      if b :| b in p.held {
        HeldIsOwned(p, b);
      }
    }
    if p.slots == map[] && p.held == multiset{} {
      forall b | 0 <= b < p.num
        ensures b in p.free
      {
        assert Right(p, b);
        assert Holders(p.slots, b) == {};
      }
      assert p.free == Below(p.num);
    }
  }

  lemma {:induction false} FullSubset(a: set<nat>, b: set<nat>)
    requires a <= b && |a| == |b|
    ensures a == b
  {
    if x :| x in b && x !in a {
      Smaller(a, b - {x});
    }
  }

  lemma {:induction false} Smaller(a: set<nat>, b: set<nat>)
    requires a <= b
    ensures |a| <= |b|
  {
    if x :| x in a {
      Smaller(a - {x}, b - {x});
    }
  }

  /** Setting the memory up, for the first time or again, leaves the counters right if and only if no block is in
    use. */
  lemma InitializeKeepsInv(p: Pool, refs: seq<nat>)
    requires Inv(p) && forall b :: 0 <= b < |refs| ==> refs[b] < 256
    ensures Inv(Initialize(p, refs)) <==> p.used == 0
  {
    if p.used == 0 {
      UsedCountsOwned(p);
      FreshInv(|refs|, refs);
      assert Initialize(p, refs) == Fresh(|refs|, refs);
    }
  }

  // ----- Inputs on which things go wrong

  /** Setting the memory up again while a caller has the only block: the block is free and still held. */
  lemma InitializeTwice()
    ensures var start := Fresh(1, [0]);
            && Inv(start) && Legal(start, [OpAllocate(0)])
            && var p := Initialize(Run(start, [OpAllocate(0)]), [1]);
               0 in p.free && 0 in p.held && p.used == 1 && !Inv(p)
  {
    var start := Fresh(1, [0]);
    FreshInv(1, [0]);
    var p := RunOf(start, OpAllocate(0));
    InitializeKeepsInv(p, [1]);
  }

  /** A run of one step. */
  lemma RunOf(p: Pool, op: Op) returns (p': Pool)
    requires Inv(p) && Enabled(p, op) && Safe(p, op)
    ensures Legal(p, [op]) && p' == Run(p, [op]) == Step(p, op) && Inv(p')
  {
    hide Inv, Enabled, Safe, Step;
    StepKeepsInv(p, op);
    assert [op][1..] == [];
    p' := Step(p, op);
  }

  lemma RunOfTwo(p: Pool, op: Op, next: Op) returns (p': Pool)
    requires Inv(p) && Enabled(p, op) && Safe(p, op)
    requires Inv(Step(p, op)) && Enabled(Step(p, op), next) && Safe(Step(p, op), next)
    ensures Legal(p, [op, next]) && p' == Run(p, [op, next]) == Step(Step(p, op), next) && Inv(p')
  {
    hide Inv, Enabled, Safe, Step;
    p' := RunOf(Step(p, op), next);
    assert [op, next][1..] == [next];
  }

  /** Allocating the only block and releasing it twice: it is counted as given back once more than it was taken. */
  lemma ReleaseTwice()
    ensures var start := Fresh(1, [0]);
            && Inv(start) && Legal(start, [OpAllocate(0), OpRelease(0)])
            && var p := Run(start, [OpAllocate(0), OpRelease(0)]);
               && |p.refs| == 1 && !ReleaseIsSafe(p, 0)
               && Release(p, 0).used == -1 && !Inv(Release(p, 0))
  {
    var start := Fresh(1, [0]);
    FreshInv(1, [0]);
    AllocateKeepsInv(start, 0);
    var p := RunOfTwo(start, OpAllocate(0), OpRelease(0));
    ReleaseKeepsInv(p, 0);
  }

  /** The first n inputs of stream 0. */
  function Fan(n: nat): (dests: seq<Slot>)
    ensures |dests| == n && forall i :: 0 <= i < n ==> dests[i] == Slot(0, i)
  {
    seq(n, i requires 0 <= i < n => Slot(0, i))
  }

  lemma {:induction false} FanFills(p: Pool, n: nat)
    requires p.slots == map[]
    ensures |Filled(p, Fan(n))| == n && forall s :: s in Filled(p, Fan(n)) ==> s.input < n
  {
    if n == 0 {
      assert Filled(p, Fan(0)) == {};
    } else {
      FanFills(p, n - 1);
      assert Fan(n) == Fan(n - 1) + [Slot(0, n - 1)];
      FilledNext(p, Fan(n - 1), Slot(0, n - 1));
    }
  }

  /** Allocate a block and transmit it to 254 inputs: one more makes 256 owners, and the counter says 0. */
  lemma TransmitCanWrap()
    ensures var start := Fresh(1, [0]);
            && Inv(start) && Legal(start, [OpAllocate(0), OpTransmit(0, Fan(254))])
            && var p := Run(start, [OpAllocate(0), OpTransmit(0, Fan(254))]);
               && p.refs[0] == Owners(p, 0) == 255
               && var q := Transmit(p, 0, [Slot(0, 254)]);
                  |q.refs| == 1 && q.refs[0] == 0 && Owners(q, 0) == 256 && !Inv(q)
  {
    var start := Fresh(1, [0]);
    var taken, dests := Allocate(start, 0), Fan(254);
    FreshInv(1, [0]);
    AllocateKeepsInv(start, 0);
    FanFills(taken, 254);
    TransmitEffect(taken, 0, dests);
    hide Inv;
    var p := RunOfTwo(start, OpAllocate(0), OpTransmit(0, dests));
    HeldIsOwned(p, 0);
    LastOwner(p, 0, Slot(0, 254));
  }

  lemma LastOwner(p: Pool, b: nat, s: Slot)
    requires Inv(p) && b < p.num && p.refs[b] == Owners(p, b) == 255 && b !in p.free && s !in p.slots
    ensures var q := Transmit(p, b, [s]);
            |q.refs| == p.num && q.refs[b] == 0 && Owners(q, b) == 256 && !Inv(q)
  {
    TransmitEffect(p, b, [s]);
    TransmitKeepsInv(p, b, [s]);
    assert Filled(p, [s]) == {s};
  }
}
