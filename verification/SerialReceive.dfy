/** The receive side of the serial driver on values: the UART's FIFO, the interrupt
  handler that empties it into the ring, and a reader that takes several steps. */
module SerialReceive {
  import opened Histories
  import opened Uarts

  /** Where a call of read, or of peek, has got to.
    Checking: it saw an empty ring and will look again with interrupts off.
    Going: it saw words in the ring. Loaded: read has fetched a word and will now advance the tail. */
  datatype Reader = Idle | Checking(peek: bool) | Going(peek: bool) | Loaded(c: word)

  /** `width` is the number of values a ring element can hold; `arrived` are the words that entered the FIFO,
    `dropped` the positions of those the handler discarded, `returned` the words that read gave out. */
  datatype Rx = Rx(ring: seq<word>, cap: nat, width: nat, fifo: seq<word>, reader: Reader,
                   arrived: seq<word>, dropped: set<nat>, returned: seq<word>)

  /** What a ring element keeps of a word. */
  function Narrow(width: nat, c: word): word
    requires width > 0
  {
    c % width
  }

  function NarrowAll(width: nat, s: seq<word>): (r: seq<word>)
    requires width > 0
    ensures |r| == |s| && forall i :: 0 <= i < |s| ==> r[i] == Narrow(width, s[i])
  {
    if s == [] then [] else [Narrow(width, s[0])] + NarrowAll(width, s[1..])
  }

  datatype Op =
    | Arrive(w: word)             // a word comes in from the line
    | Irq(idle: bool)             // the receive part of the handler, with or without the idle flag
    | Sample(peek: bool)          // read or peek compares head and tail
    | Check                       // it looks again with interrupts off
    | Load                        // it fetches the word behind the tail
    | Store                       // read advances the tail

  predicate Enabled(t: Rx, op: Op) {
    match op
    case Arrive(_) => |t.fifo| < FIFO_DEPTH
    case Irq(_) => true
    case Sample(_) => t.reader.Idle?
    case Check => t.reader.Checking?
    case Load => t.reader.Going? && t.ring != []
    case Store => t.reader.Loaded? && t.ring != []
  }

  /** The handler empties the FIFO; what does not fit into the ring is lost. */
  function AfterIrq(t: Rx, idle: bool): Rx
    requires t.width > 0 && |t.ring| <= t.cap && |t.fifo| <= |t.arrived|
  {
    if |t.fifo| > RX_WATER || idle then
      var n := Min(|t.fifo|, t.cap - |t.ring|);
      t.(ring := t.ring + NarrowAll(t.width, t.fifo[..n]), fifo := [],
         dropped := t.dropped + Positions(|t.arrived| - |t.fifo| + n, |t.arrived|))
    else t
  }

  function AfterCheck(t: Rx): Rx
    requires t.width > 0 && t.reader.Checking?
  {
    if t.ring != [] then t.(reader := Going(t.reader.peek))
    else if t.fifo == [] then t.(reader := Idle)
    else if t.reader.peek then t.(reader := Idle, ring := [Narrow(t.width, t.fifo[0])], fifo := t.fifo[1..])
    else t.(reader := Idle, returned := t.returned + [t.fifo[0]], fifo := t.fifo[1..])
  }

  function Step(t: Rx, op: Op): Rx
    requires Inv(t) && Enabled(t, op)
  {
    match op
    case Arrive(w) => t.(fifo := t.fifo + [w], arrived := t.arrived + [w])
    case Irq(idle) => AfterIrq(t, idle)
    case Sample(peek) => t.(reader := if t.ring == [] then Checking(peek) else Going(peek))
    case Check => AfterCheck(t)
    case Load => t.(reader := if t.reader.peek then Idle else Loaded(t.ring[0]))
    case Store => t.(reader := Idle, ring := t.ring[1..], returned := t.returned + [t.reader.c])
  }

  /** What a step hands to the caller of read or peek: nothing yet, -1, or a word. */
  datatype Answer = Pending | Nothing | Word(c: word)

  function Result(t: Rx, op: Op): Answer
    requires Enabled(t, op)
  {
    match op
    case Check => if t.ring != [] then Pending else if t.fifo == [] then Nothing else Word(t.fifo[0])
    case Load => if t.reader.peek then Word(t.ring[0]) else Pending
    case Store => Word(t.reader.c)
    case _ => Pending
  }

  // ----- What every step keeps

  /** The words that have left the FIFO. */
  function Older(t: Rx): seq<word>
    requires |t.fifo| <= |t.arrived|
  {
    t.arrived[..|t.arrived| - |t.fifo|]
  }

  /** Every word that arrived fits into a ring element, as bytes do. */
  predicate AllFit(t: Rx) {
    forall i :: 0 <= i < |t.arrived| ==> t.arrived[i] < t.width
  }

  predicate Inv(t: Rx) {
    && t.width > 0 && 1 <= t.cap && |t.ring| <= t.cap && |t.fifo| <= FIFO_DEPTH
    && |t.fifo| <= |t.arrived| && t.arrived == Older(t) + t.fifo
    && (forall k :: k in t.dropped ==> k < |Older(t)|)
    && NarrowAll(t.width, t.returned + t.ring) == NarrowAll(t.width, Keep(Older(t), t.dropped))
    && (AllFit(t) ==> t.returned + t.ring == Keep(Older(t), t.dropped))
    && (t.reader.Going? || t.reader.Loaded? ==> t.ring != [])
    && (t.reader.Loaded? ==> t.reader.c == t.ring[0])
  }

  lemma InvFacts(t: Rx)
    requires Inv(t)
    ensures t.width > 0 && |t.ring| <= t.cap && |t.fifo| <= |t.arrived|
    ensures t.reader.Going? || t.reader.Loaded? ==> t.ring != []
  {}

  lemma {:induction false} NarrowConcat(width: nat, a: seq<word>, b: seq<word>)
    requires width > 0
    ensures NarrowAll(width, a + b) == NarrowAll(width, a) + NarrowAll(width, b)
  {}

  lemma NarrowSmall(width: nat, c: word)
    requires c < width
    ensures Narrow(width, c) == c
  {}

  lemma {:induction false} NarrowTwice(width: nat, s: seq<word>)
    requires width > 0
    ensures NarrowAll(width, NarrowAll(width, s)) == NarrowAll(width, s)
  {
    if s != [] {
      NarrowSmall(width, Narrow(width, s[0]));
      NarrowTwice(width, s[1..]);
    }
  }

  /** Words moved out of the FIFO behind what was taken before. */
  lemma Moved(t: Rx, n: nat, moved: seq<word>)
    requires Inv(t) && n <= |t.fifo| && NarrowAll(t.width, moved) == NarrowAll(t.width, t.fifo[..n])
    requires AllFit(t) ==> moved == t.fifo[..n]
    ensures var taken, kept := t.returned + t.ring + moved, Keep(Older(t) + t.fifo[..n], t.dropped);
            NarrowAll(t.width, taken) == NarrowAll(t.width, kept) && (AllFit(t) ==> taken == kept)
  {
    NarrowConcat(t.width, t.returned + t.ring, moved);
    KeepWhole(Older(t), t.fifo[..n], t.dropped);
    NarrowConcat(t.width, Keep(Older(t), t.dropped), t.fifo[..n]);
  }

  lemma FifoFits(t: Rx, n: nat)
    requires Inv(t) && n <= |t.fifo| && AllFit(t)
    ensures NarrowAll(t.width, t.fifo[..n]) == t.fifo[..n]
  {
    forall i | 0 <= i < n
      ensures t.fifo[..n][i] < t.width
    {
      assert t.fifo[i] == t.arrived[|t.arrived| - |t.fifo| + i];
    }
    NarrowFits(t.width, t.fifo[..n]);
  }

  lemma IrqKeepsInv(t: Rx, idle: bool)
    requires Inv(t)
    ensures Inv(AfterIrq(t, idle))
  {
    hide Keep, NarrowAll, Positions, Older;
    if |t.fifo| > RX_WATER || idle {
      var n := Min(|t.fifo|, t.cap - |t.ring|);
      var kept := t.fifo[..n];
      NarrowTwice(t.width, kept);
      if AllFit(t) { FifoFits(t, n); }
      Moved(t, n, NarrowAll(t.width, kept));
      LastDropped(t, n);
      Emptied(t, AfterIrq(t, idle), NarrowAll(t.width, kept));
    }
  }

  lemma LastDropped(t: Rx, n: nat)
    requires Inv(t) && n <= |t.fifo|
    ensures var more := Positions(|t.arrived| - |t.fifo| + n, |t.arrived|);
            && Keep(t.arrived, t.dropped + more) == Keep(Older(t) + t.fifo[..n], t.dropped)
            && forall k :: k in t.dropped + more ==> k < |t.arrived|
  {
    hide Keep, NarrowAll;
    var kept, lost := t.fifo[..n], t.fifo[n..];
    assert t.fifo == kept + lost;
    assert t.arrived == Older(t) + kept + lost;
    KeepNone(Older(t) + kept, lost, t.dropped, Positions(|t.arrived| - |t.fifo| + n, |t.arrived|));
  }

  lemma Emptied(t: Rx, s: Rx, moved: seq<word>)
    requires Inv(t) && s.fifo == [] && s.arrived == t.arrived && s.width == t.width && s.cap == t.cap
    requires s.returned == t.returned && s.ring == t.ring + moved && |s.ring| <= s.cap && s.reader == t.reader
    requires forall k :: k in s.dropped ==> k < |s.arrived|
    requires var taken, kept := t.returned + t.ring + moved, Keep(t.arrived, s.dropped);
             NarrowAll(t.width, taken) == NarrowAll(t.width, kept) && (AllFit(t) ==> taken == kept)
    ensures Inv(s)
  {
    hide Keep, NarrowAll;
    assert Older(s) == t.arrived;
    assert s.returned + s.ring == t.returned + t.ring + moved;
  }

  lemma NarrowOne(width: nat, c: word)
    requires width > 0
    ensures NarrowAll(width, [c]) == [Narrow(width, c)]
    ensures NarrowAll(width, [Narrow(width, c)]) == [Narrow(width, c)]
  {
    NarrowTwice(width, [c]);
  }

  lemma CheckKeepsInv(t: Rx)
    requires Inv(t) && t.reader.Checking?
    ensures Inv(AfterCheck(t))
  {
    hide Keep, NarrowAll, Narrow;
    if t.ring == [] && t.fifo != [] {
      var s, c := AfterCheck(t), t.fifo[0];
      var moved := if t.reader.peek then [Narrow(t.width, c)] else [c];
      assert t.fifo[..1] == [c];
      NarrowOne(t.width, c);
      if AllFit(t) { FifoFits(t, 1); }
      Moved(t, 1, moved);
      assert Older(s) == Older(t) + [c];
      assert s.returned + s.ring == t.returned + t.ring + moved;
    }
  }

  lemma StepKeepsInv(t: Rx, op: Op)
    requires Inv(t) && Enabled(t, op)
    ensures Inv(Step(t, op))
  {
    hide Keep, NarrowAll, Narrow, AfterIrq, AfterCheck;
    match op
    case Arrive(w) =>
      var s := Step(t, op);
      assert Older(s) == Older(t);
    case Irq(idle) => IrqKeepsInv(t, idle);
    case Sample(_) => assert Older(Step(t, op)) == Older(t);
    case Check => CheckKeepsInv(t);
    case Load => assert Older(Step(t, op)) == Older(t);
    case Store =>
      var s := Step(t, op);
      assert Older(s) == Older(t);
      assert s.returned + s.ring == t.returned + t.ring;
  }

  predicate Legal(t: Rx, ops: seq<Op>)
    requires Inv(t)
    decreases |ops|
  {
    ops == [] || (Enabled(t, ops[0]) && (StepKeepsInv(t, ops[0]); Legal(Step(t, ops[0]), ops[1..])))
  }

  function Run(t: Rx, ops: seq<Op>): (t': Rx)
    requires Inv(t) && Legal(t, ops)
    ensures Inv(t')
    decreases |ops|
  {
    if ops == [] then t
    else
      StepKeepsInv(t, ops[0]);
      Run(Step(t, ops[0]), ops[1..])
  }

  /** What read gives its caller in a step. */
  function Given(t: Rx, op: Op): seq<word>
    requires Enabled(t, op)
  {
    var peeking := match t.reader case Checking(peek) => peek case Going(peek) => peek case _ => false;
    match Result(t, op)
    case Word(c) => if peeking then [] else [c]
    case _ => []
  }

  /** The words that read returns along the way. */
  function Reads(t: Rx, ops: seq<Op>): seq<word>
    requires Inv(t) && Legal(t, ops)
    decreases |ops|
  {
    if ops == [] then []
    else
      StepKeepsInv(t, ops[0]);
      Given(t, ops[0]) + Reads(Step(t, ops[0]), ops[1..])
  }

  lemma StepReturns(t: Rx, op: Op)
    requires Inv(t) && Enabled(t, op)
    ensures Step(t, op).returned == t.returned + Given(t, op) && Step(t, op).width == t.width
  {}

  function Start(cap: nat, width: nat): Rx {
    Rx([], cap, width, [], Idle, [], {}, [])
  }

  lemma StartInv(cap: nat, width: nat)
    requires cap >= 1 && width > 0
    ensures Inv(Start(cap, width))
  {}

  /** In every interleaving of arrivals, interrupts, reads and peeks: the words given out by read, then those in
    the ring, then those in the FIFO, are what arrived, in order, less what the handler dropped, as far as a ring
    element can hold them; exactly so when every word that arrived fits. */
  lemma {:induction false} RunReceivesInOrder(cap: nat, width: nat, ops: seq<Op>)
    requires cap >= 1 && width > 0 && Inv(Start(cap, width)) && Legal(Start(cap, width), ops)
    ensures var t := Run(Start(cap, width), ops);
            && t.width == width
            && t.returned == Reads(Start(cap, width), ops)
            && NarrowAll(width, t.returned + t.ring + t.fifo) == NarrowAll(width, Keep(t.arrived, t.dropped))
            && (AllFit(t) ==> t.returned + t.ring + t.fifo == Keep(t.arrived, t.dropped))
  {
    var s := Start(cap, width);
    RunKeepsInv(s, ops);
    RunReturns(s, ops);
    var t := Run(s, ops);
    assert s.returned + Reads(s, ops) == Reads(s, ops);
    AllWords(t);
  }

  lemma AllWords(t: Rx)
    requires Inv(t)
    ensures NarrowAll(t.width, t.returned + t.ring + t.fifo) == NarrowAll(t.width, Keep(t.arrived, t.dropped))
    ensures AllFit(t) ==> t.returned + t.ring + t.fifo == Keep(t.arrived, t.dropped)
  {
    Moved(t, |t.fifo|, t.fifo);
    assert t.fifo[..|t.fifo|] == t.fifo;
  }

  lemma {:induction false} RunKeepsInv(t: Rx, ops: seq<Op>)
    requires Inv(t) && Legal(t, ops)
    ensures Inv(Run(t, ops)) && Run(t, ops).width == t.width
    decreases |ops|
  {
    if ops != [] {
      hide Inv, Step, Enabled;
      StepKeepsInv(t, ops[0]);
      StepReturns(t, ops[0]);
      RunKeepsInv(Step(t, ops[0]), ops[1..]);
    }
  }

  lemma {:induction false} RunReturns(t: Rx, ops: seq<Op>)
    requires Inv(t) && Legal(t, ops)
    ensures Run(t, ops).returned == t.returned + Reads(t, ops)
    decreases |ops|
  {
    hide Inv, Step, Enabled, Given;
    if ops != [] {
      StepKeepsInv(t, ops[0]);
      StepReturns(t, ops[0]);
      RunReturns(Step(t, ops[0]), ops[1..]);
      assert t.returned + Given(t, ops[0]) + Reads(Step(t, ops[0]), ops[1..]) == t.returned + Reads(t, ops);
    }
  }

  lemma {:induction false} NarrowFits(width: nat, s: seq<word>)
    requires width > 0 && forall i :: 0 <= i < |s| ==> s[i] < width
    ensures NarrowAll(width, s) == s
  {
    if s != [] {
      NarrowSmall(width, s[0]);
      NarrowFits(width, s[1..]);
    }
  }

  /** The handler drops words only when the ring is full, and then only those that do not fit. */
  lemma DropsOnlyWhenFull(t: Rx, idle: bool)
    requires Inv(t)
    ensures var s := AfterIrq(t, idle);
            && (s.dropped != t.dropped ==> |s.ring| == s.cap)
            && |Keep(s.arrived, s.dropped)| == |t.returned| + |s.ring| + |s.fifo|
  {
    IrqKeepsInv(t, idle);
    var s := AfterIrq(t, idle);
    AllWords(s);
    assert |NarrowAll(s.width, s.returned + s.ring + s.fifo)| == |NarrowAll(s.width, Keep(s.arrived, s.dropped))|;
    var n := Min(|t.fifo|, t.cap - |t.ring|);
    if n == |t.fifo| {
      assert Positions(|t.arrived| - |t.fifo| + n, |t.arrived|) == {};
      assert t.dropped + {} == t.dropped;
    }
  }

  // ----- What one run of the handler, one read and one peek do

  /** What a handler run does to ring and FIFO. A request empties the FIFO: its first words that fit go into the
    ring, in order, each cut to an element. Without a request nothing moves. */
  predicate Handled(request: bool, cap: nat, width: nat, ring: seq<word>, fifo: seq<word>,
                    ring': seq<word>, fifo': seq<word>)
    requires width > 0
  {
    if request then
      && fifo' == [] && ring <= ring'
      && |ring'| == (if |ring| + |fifo| <= cap then |ring| + |fifo| else cap) <= |ring| + |fifo|
      && forall i :: |ring| <= i < |ring'| ==> ring'[i] == fifo[i - |ring|] % width
    else ring' == ring && fifo' == fifo
  }

  /** The request is made by the FIFO above its watermark, or by the idle flag. */
  lemma IrqReceives(t: Rx, idle: bool)
    requires Inv(t)
    ensures var s := AfterIrq(t, idle);
            Handled(|t.fifo| > RX_WATER || idle, t.cap, t.width, t.ring, t.fifo, s.ring, s.fifo)
  {}

  /** Whenever a word arrives above the watermark, the handler runs next. */
  predicate Attended(t: Rx, ops: seq<Op>)
    requires Inv(t) && Legal(t, ops)
    decreases |ops|
  {
    ops == [] ||
    (StepKeepsInv(t, ops[0]);
     var s := Step(t, ops[0]);
     && (ops[0].Arrive? && |s.fifo| > RX_WATER && |ops| > 1 ==> ops[1].Irq?)
     && Attended(s, ops[1..]))
  }

  /** Then the FIFO never fills, whether the handler runs with the idle flag or without it: no word is ever lost
    before the handler sees it. */
  lemma {:induction false} FifoNeverFills(t: Rx, ops: seq<Op>)
    requires Inv(t) && Legal(t, ops) && Attended(t, ops)
    requires |t.fifo| <= RX_WATER || (|t.fifo| <= RX_WATER + 1 && (ops == [] || ops[0].Irq?))
    ensures |Run(t, ops).fifo| <= RX_WATER + 1 < FIFO_DEPTH
    decreases |ops|
  {
    if ops != [] {
      StepKeepsInv(t, ops[0]);
      StepKeepsRoom(t, ops[0]);
      hide Inv, Step;
      FifoNeverFills(Step(t, ops[0]), ops[1..]);
    }
  }

  lemma StepKeepsRoom(t: Rx, op: Op)
    requires Inv(t) && Enabled(t, op) && (|t.fifo| <= RX_WATER || (|t.fifo| <= RX_WATER + 1 && op.Irq?))
    ensures |Step(t, op).fifo| <= RX_WATER + if op.Arrive? then 1 else 0
  {}

  /** read takes the first word, from the ring or else straight from the FIFO, and says -1 exactly if there is
    none. */
  lemma ReadTakesFirst(t: Rx, op: Op)
    requires Inv(t) && Enabled(t, op) && (op == Store || (op == Check && t.reader == Checking(false)))
    ensures var s, held := Step(t, op), t.ring + t.fifo;
            match Result(t, op)
            case Nothing => held == [] && s.ring + s.fifo == []
            case Word(c) => held != [] && c == held[0] && s.ring + s.fifo == held[1..]
            case Pending => t.ring != [] && s.ring == t.ring && s.fifo == t.fifo && s.reader == Going(false)
  {
    var held := t.ring + t.fifo;
    if t.ring != [] {
      assert held[1..] == t.ring[1..] + t.fifo;
    } else {
      assert held == t.fifo;
    }
  }

  /** peek takes nothing: what is held stays the same, as far as a ring element can hold it, and the word it
    shows is the one at the front. */
  lemma PeekTakesNothing(t: Rx, op: Op)
    requires Inv(t) && Enabled(t, op)
    requires (op.Check? || op.Load?) && (t.reader == Checking(true) || t.reader == Going(true))
    ensures var s := Step(t, op);
            && s.returned == t.returned && s.dropped == t.dropped && s.arrived == t.arrived
            && NarrowAll(t.width, s.ring + s.fifo) == NarrowAll(t.width, t.ring + t.fifo)
            && (Result(t, op).Word? ==>
                  && t.ring + t.fifo != [] && Result(t, op).c == (t.ring + t.fifo)[0]
                  && s.ring != []
                  && s.ring[0] == if t.ring != [] then Result(t, op).c else Narrow(t.width, Result(t, op).c))
            && (Result(t, op).Nothing? <==> t.ring + t.fifo == [])
            && (Result(t, op).Pending? ==> t.reader == Checking(true) && s.reader == Going(true) && s.ring == t.ring)
  {
    if op.Check? && t.ring == [] && t.fifo != [] {
      assert t.ring + t.fifo == [t.fifo[0]] + t.fifo[1..];
      NarrowConcat(t.width, [t.fifo[0]], t.fifo[1..]);
      NarrowConcat(t.width, [Narrow(t.width, t.fifo[0])], t.fifo[1..]);
      NarrowTwice(t.width, [t.fifo[0]]);
    }
  }

  // ----- read and peek answer

  /** How many steps a call of read or peek may still need. */
  function StepsLeft(r: Reader): nat {
    match r
    case Idle => 0
    case Checking(_) => 3
    case Going(_) => 2
    case Loaded(_) => 1
  }

  predicate ReaderStep(op: Op) {
    op.Check? || op.Load? || op.Store?
  }

  /** A call under way always has a step to take, which answers or brings it nearer to its answer; arrivals and the
    handler leave it where it is. */
  lemma ReaderAdvances(t: Rx, op: Op)
    requires Inv(t) && !t.reader.Idle? && Enabled(t, op)
    ensures Enabled(t, Check) || Enabled(t, Load) || Enabled(t, Store)
    ensures var r := Step(t, op).reader;
            if !ReaderStep(op) then r == t.reader && Result(t, op).Pending?
            else if Result(t, op).Pending? then 1 <= StepsLeft(r) < StepsLeft(t.reader)
            else r == Idle
  {}

  /** No step answers. */
  predicate Unanswered(t: Rx, ops: seq<Op>)
    requires Inv(t) && Legal(t, ops)
    decreases |ops|
  {
    ops == [] ||
    (Result(t, ops[0]).Pending? && (StepKeepsInv(t, ops[0]); Unanswered(Step(t, ops[0]), ops[1..])))
  }

  function ReaderSteps(ops: seq<Op>): nat {
    if ops == [] then 0 else (if ReaderStep(ops[0]) then 1 else 0) + ReaderSteps(ops[1..])
  }

  /** read and peek answer after at most three steps of their own, whatever arrives and however often the handler
    runs in between. */
  lemma {:induction false} ReadAnswers(t: Rx, ops: seq<Op>)
    requires Inv(t) && !t.reader.Idle? && Legal(t, ops) && Unanswered(t, ops)
    ensures var s := Run(t, ops);
            && (Enabled(s, Check) || Enabled(s, Load) || Enabled(s, Store))
            && ReaderSteps(ops) + 1 <= ReaderSteps(ops) + StepsLeft(s.reader) <= StepsLeft(t.reader) <= 3
    decreases |ops|
  {
    if ops == [] {
      ReaderAdvances(t, Irq(false));
    } else {
      StepKeepsInv(t, ops[0]);
      ReaderAdvances(t, ops[0]);
      hide Inv, Step, Enabled, Result;
      ReadAnswers(Step(t, ops[0]), ops[1..]);
    }
  }

  // ----- Words that a ring element cannot hold

  /** What read gave out, the ring and the FIFO are exactly what arrived less what was dropped. */
  predicate Exact(t: Rx) {
    t.returned + t.ring + t.fifo == Keep(t.arrived, t.dropped)
  }

  /** For given arriving words, the driver is exact in every interleaving if and only if every one of them fits a
    ring element. */
  lemma ExactIfAllFit(cap: nat, width: nat, ws: seq<word>)
    requires cap >= 1 && width > 0 && Inv(Start(cap, width))
    ensures (forall i :: 0 <= i < |ws| ==> ws[i] < width)
       <==> (forall ops :: Legal(Start(cap, width), ops) && Run(Start(cap, width), ops).arrived == ws ==>
               Exact(Run(Start(cap, width), ops)))
  {
    var start := Start(cap, width);
    if i :| 0 <= i < |ws| && ws[i] >= width {
      var ops := Spoil(cap, width, ws, i);
    } else {
      forall ops | Legal(start, ops) && Run(start, ops).arrived == ws
        ensures Exact(Run(start, ops))
      {
        RunReceivesInOrder(cap, width, ops);
        assert AllFit(Run(start, ops));
      }
    }
  }

  /** An interleaving in which the i-th word, which does not fit, is cut: those before it are read straight from the
    FIFO, and it goes into the ring. */
  lemma Spoil(cap: nat, width: nat, ws: seq<word>, i: nat) returns (ops: seq<Op>)
    requires cap >= 1 && width > 0 && Inv(Start(cap, width)) && i < |ws| && ws[i] >= width
    ensures Legal(Start(cap, width), ops) && Run(Start(cap, width), ops).arrived == ws
    ensures !Exact(Run(Start(cap, width), ops))
  {
    hide Inv, Legal, Run, Keep;
    var start := Start(cap, width);
    var first, t := FeedThrough(start, ws[..i]);
    var second, u := MoveOne(t, ws[i]);
    var third, v := LoseRest(u, ws[i + 1..]);
    RunOn(start, first, second);
    RunOn(start, first + second, third);
    ops := first + second + third;
    assert v.arrived == ws;
    NotExact(v, i);
  }

  lemma NotExact(t: Rx, i: nat)
    requires t.width > 0 && i < |t.arrived| && t.arrived[i] >= t.width
    requires t.returned == t.arrived[..i] && t.ring != [] && t.ring[0] == Narrow(t.width, t.arrived[i])
    requires forall k :: k in t.dropped ==> k > i
    ensures !Exact(t)
  {
    KeepFront(t.arrived, t.dropped, i + 1);
    assert (t.returned + t.ring + t.fifo)[i] == t.ring[0];
    assert t.arrived[..i + 1][i] == t.arrived[i];
  }

  lemma {:induction false} RunOn(t: Rx, a: seq<Op>, b: seq<Op>)
    requires Inv(t) && Legal(t, a) && Legal(Run(t, a), b)
    ensures Legal(t, a + b) && Run(t, a + b) == Run(Run(t, a), b)
    decreases |a|
  {
    hide Inv, Enabled, Step;
    if a == [] {
      assert a + b == b;
    } else {
      StepKeepsInv(t, a[0]);
      RunOn(Step(t, a[0]), a[1..], b);
      assert (a + b)[1..] == a[1..] + b;
    }
  }

  lemma RunOne(t: Rx, op: Op) returns (t': Rx)
    requires Inv(t) && Enabled(t, op)
    ensures Inv(t') && t' == Step(t, op) && Legal(t, [op]) && Run(t, [op]) == t'
  {
    hide Inv, Enabled, Step;
    StepKeepsInv(t, op);
    t' := Step(t, op);
    assert [op][1..] == [];
  }

  /** The words are read one by one, each straight from the FIFO. */
  lemma {:induction false} FeedThrough(t: Rx, ws: seq<word>) returns (ops: seq<Op>, t': Rx)
    requires Inv(t) && t.reader.Idle? && t.ring == [] && t.fifo == []
    ensures Legal(t, ops) && t' == Run(t, ops) && Inv(t')
    ensures t' == t.(returned := t.returned + ws, arrived := t.arrived + ws)
    decreases |ws|
  {
    hide Inv;
    if ws == [] {
      ops, t' := [], t;
      assert t.returned + ws == t.returned && t.arrived + ws == t.arrived;
    } else {
      hide Legal, Run;
      var first, u := ReadOne(t, ws[0]);
      var rest;
      rest, t' := FeedThrough(u, ws[1..]);
      RunOn(t, first, rest);
      ops := first + rest;
      ConcatFirst(t.returned, ws);
      ConcatFirst(t.arrived, ws);
    }
  }

  lemma ConcatFirst(a: seq<word>, ws: seq<word>)
    requires ws != []
    ensures a + [ws[0]] + ws[1..] == a + ws
  {
    assert ws == [ws[0]] + ws[1..];
  }

  lemma ReadOne(t: Rx, w: word) returns (ops: seq<Op>, t': Rx)
    requires Inv(t) && t.reader.Idle? && t.ring == [] && t.fifo == []
    ensures Legal(t, ops) && t' == Run(t, ops) && Inv(t')
    ensures t' == t.(returned := t.returned + [w], arrived := t.arrived + [w])
  {
    hide Inv, Legal, Run;
    var a := RunOne(t, Arrive(w));
    var b := RunOne(a, Sample(false));
    t' := RunOne(b, Check);
    RunOn(t, [Arrive(w)], [Sample(false)]);
    RunOn(t, [Arrive(w)] + [Sample(false)], [Check]);
    ops := [Arrive(w)] + [Sample(false)] + [Check];
    assert a.fifo == [w] && [w][1..] == [];
  }

  /** A word goes through the FIFO into the empty ring. */
  lemma MoveOne(t: Rx, w: word) returns (ops: seq<Op>, t': Rx)
    requires Inv(t) && t.ring == [] && t.fifo == []
    ensures Legal(t, ops) && t' == Run(t, ops) && Inv(t')
    ensures t.width > 0 && t' == t.(ring := [Narrow(t.width, w)], arrived := t.arrived + [w])
    ensures ops == [Arrive(w), Irq(true)]
  {
    InvFacts(t);
    hide Legal, Run;
    var a := RunOne(t, Arrive(w));
    t' := RunOne(a, Irq(true));
    RunOn(t, [Arrive(w)], [Irq(true)]);
    ops := [Arrive(w)] + [Irq(true)];
    assert a.fifo == [w] && a.fifo[..1] == [w];
    assert Positions(|a.arrived|, |a.arrived|) == {};
    NarrowOne(t.width, w);
  }

  /** More words arrive, and go into the ring as far as it has room. */
  lemma {:induction false} LoseRest(t: Rx, ws: seq<word>) returns (ops: seq<Op>, t': Rx)
    requires Inv(t) && t.fifo == []
    ensures Legal(t, ops) && t' == Run(t, ops) && Inv(t')
    ensures t'.arrived == t.arrived + ws && t'.returned == t.returned && t'.width == t.width && t.ring <= t'.ring
    ensures forall k :: k in t'.dropped ==> k in t.dropped || k >= |t.arrived|
    decreases |ws|
  {
    hide Inv;
    if ws == [] {
      ops, t' := [], t;
      assert t.arrived + ws == t.arrived;
    } else {
      hide Legal, Run;
      var first, u := LoseOne(t, ws[0]);
      var rest;
      rest, t' := LoseRest(u, ws[1..]);
      RunOn(t, first, rest);
      ops := first + rest;
      ConcatFirst(t.arrived, ws);
    }
  }

  lemma LoseOne(t: Rx, w: word) returns (ops: seq<Op>, t': Rx)
    requires Inv(t) && t.fifo == []
    ensures Legal(t, ops) && t' == Run(t, ops) && Inv(t') && t'.fifo == []
    ensures t'.arrived == t.arrived + [w] && t'.returned == t.returned && t'.width == t.width && t.ring <= t'.ring
    ensures forall k :: k in t'.dropped ==> k in t.dropped || k >= |t.arrived|
  {
    InvFacts(t);
    hide Inv, Legal, Run;
    var a := RunOne(t, Arrive(w));
    t' := RunOne(a, Irq(true));
    RunOn(t, [Arrive(w)], [Irq(true)]);
    ops := [Arrive(w)] + [Irq(true)];
  }

  /** A 9-bit word in a ring of bytes: read returns its low eight bits. */
  lemma WideWordIsCut(w: word)
    requires w >= 256
    ensures var ops := [Arrive(w), Irq(true), Sample(false), Load, Store];
            && Inv(Start(1, 256)) && Legal(Start(1, 256), ops)
            && Reads(Start(1, 256), ops) == [w % 256] != [w]
  {
    StartInv(1, 256);
    hide Inv, Legal, Run, Reads;
    var first, t := MoveOne(Start(1, 256), w);
    var a := RunOne(t, Sample(false));
    var b := RunOne(a, Load);
    var c := RunOne(b, Store);
    RunOn(t, [Sample(false)], [Load]);
    RunOn(t, [Sample(false)] + [Load], [Store]);
    RunOn(Start(1, 256), first, [Sample(false)] + [Load] + [Store]);
    var ops := [Arrive(w), Irq(true), Sample(false), Load, Store];
    assert first + ([Sample(false)] + [Load] + [Store]) == ops;
    RunReturns(Start(1, 256), ops);
    assert [] + Reads(Start(1, 256), ops) == Reads(Start(1, 256), ops);
  }
}
