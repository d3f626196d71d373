/** The transmit side of the serial driver as a protocol between the writer, the
  interrupt handler and the UART, on values. Each step is what one of them does
  without the others being able to interfere. */
module SerialTransmit {

  import opened Options
  import opened Uarts

  /** Where a call of write9bit has got to with its word. */
  datatype Writer = Idle | Waiting(c: word) | Ready(c: word) | Filled(c: word)

  /** `ring` is the queue, of capacity `cap`; `tie` and `tcie` are the interrupt enables;
    `fifo` and `shifting` are the UART's; `published`, `sent` and `wire` record the words that
    write9bit queued, that went to the port, and that left on the line. */
  datatype Tx = Tx(ring: seq<word>, cap: nat, writer: Writer, transmitting: bool, tie: bool, tcie: bool,
                   fifo: seq<word>, shifting: Option<word>,
                   published: seq<word>, sent: seq<word>, wire: seq<word>)

  /** Transmit data register empty: the FIFO is at or below its watermark. */
  predicate Tdre(t: Tx) {
    |t.fifo| <= TX_WATER
  }

  /** Transmission complete: nothing in the FIFO and nothing on the line. */
  predicate Tc(t: Tx) {
    t.fifo == [] && t.shifting.None?
  }

  /** The first n words of the ring go to the port. */
  function Send(t: Tx, n: nat): Tx
    requires n <= |t.ring|
  {
    t.(ring := t.ring[n..], fifo := t.fifo + t.ring[..n], sent := t.sent + t.ring[..n])
  }

  // ----- The steps

  datatype Op =
    | Begin(c: word)           // write9bit is called
    | Poll(priority: bool)     // one test of its loop; true if the interrupt cannot run now
    | Fill                     // the slot is written
    | Publish                  // with interrupts off: head, flag and enable
    | Irq                      // the transmit part of the handler
    | Shift                    // the UART starts or finishes a word

  predicate Enabled(t: Tx, op: Op) {
    match op
    case Begin(_) => t.writer.Idle?
    case Poll(_) => t.writer.Waiting?
    case Fill => t.writer.Ready?
    case Publish => t.writer.Filled?
    case Irq => true
    case Shift => t.shifting.Some? || t.fifo != []
  }

  function AfterPoll(t: Tx, priority: bool): Tx
    requires t.writer.Waiting?
  {
    if |t.ring| < t.cap then t.(writer := Ready(t.writer.c))
    else if priority && Tdre(t) && t.ring != [] then Send(t, 1)
    else t
  }

  function AfterPublish(t: Tx): Tx
    requires t.writer.Filled?
  {
    t.(writer := Idle, transmitting := true, ring := t.ring + [t.writer.c],
       published := t.published + [t.writer.c], tie := true)
  }

  /** How many words the handler moves: as many as there are and as fit. */
  function IrqMoves(t: Tx): nat {
    if t.tie && Tdre(t) then Min(|t.ring|, FIFO_DEPTH - |t.fifo|) else 0
  }

  /** When the ring is empty, the handler waits for the last word to leave. */
  function AfterMoves(t: Tx): Tx {
    var s := Send(t, IrqMoves(t));
    if t.tie && Tdre(t) && s.ring == [] then s.(tie := false, tcie := true) else s
  }

  function AfterIrq(t: Tx): Tx {
    var s := AfterMoves(t);
    if t.tcie && Tc(s) then s.(transmitting := false, tcie := false) else s
  }

  function AfterShift(t: Tx): Tx
    requires t.shifting.Some? || t.fifo != []
  {
    if t.shifting.Some? then t.(wire := t.wire + [t.shifting.value], shifting := None)
    else t.(shifting := Some(t.fifo[0]), fifo := t.fifo[1..])
  }

  function Step(t: Tx, op: Op): Tx
    requires Enabled(t, op)
  {
    match op
    case Begin(c) => t.(writer := Waiting(c))
    case Poll(priority) => AfterPoll(t, priority)
    case Fill => t.(writer := Filled(t.writer.c))
    case Publish => AfterPublish(t)
    case Irq => AfterIrq(t)
    case Shift => AfterShift(t)
  }

  // ----- What every step keeps

  function InFlight(t: Tx): seq<word> {
    (if t.shifting.Some? then [t.shifting.value] else []) + t.fifo
  }

  predicate Inv(t: Tx) {
    && t.sent + t.ring == t.published
    && t.wire + InFlight(t) == t.sent
    && (t.ring != [] ==> t.tie && t.transmitting)
    && (!Tc(t) ==> t.transmitting)
    && (t.transmitting ==> t.tie || t.tcie)
    && |t.ring| <= t.cap && 1 <= t.cap
    && |t.fifo| <= FIFO_DEPTH
    && (t.writer.Ready? || t.writer.Filled? ==> |t.ring| < t.cap)
  }

  lemma InvFacts(t: Tx)
    requires Inv(t)
    ensures t.writer.Ready? || t.writer.Filled? ==> |t.ring| < t.cap
  {}

  lemma SendKeeps(t: Tx, n: nat)
    requires n <= |t.ring| && t.sent + t.ring == t.published && t.wire + InFlight(t) == t.sent
    ensures var s := Send(t, n); s.sent + s.ring == s.published && s.wire + InFlight(s) == s.sent
  {
    SplitAt(t.sent, t.ring, n);
    SentInFlight(t, n);
    hide InFlight;
    assert t.wire + (InFlight(t) + t.ring[..n]) == t.wire + InFlight(t) + t.ring[..n];
  }

  lemma SplitAt(a: seq<word>, b: seq<word>, n: nat)
    requires n <= |b|
    ensures a + b[..n] + b[n..] == a + b
  {
    assert b[..n] + b[n..] == b;
  }

  lemma SentInFlight(t: Tx, n: nat)
    requires n <= |t.ring|
    ensures InFlight(Send(t, n)) == InFlight(t) + t.ring[..n]
  {}

  lemma IrqKeepsInv(t: Tx)
    requires Inv(t)
    ensures Inv(AfterIrq(t))
  {
    hide AfterMoves, Inv;
    MovesKeepInv(t);
    var s := AfterMoves(t);
    if t.tcie && Tc(s) { DoneKeepsInv(s); }
  }

  /** The handler never leaves an idle UART beside a filled ring. */
  lemma MovesKeepInv(t: Tx)
    requires Inv(t)
    ensures Inv(AfterMoves(t)) && (Tc(AfterMoves(t)) ==> AfterMoves(t).ring == [])
  {
    SendKeeps(t, IrqMoves(t));
    var s := AfterMoves(t);
    assert InFlight(s) == InFlight(Send(t, IrqMoves(t)));
  }

  lemma DoneKeepsInv(s: Tx)
    requires Inv(s) && Tc(s) && s.ring == []
    ensures Inv(s.(transmitting := false, tcie := false))
  {
    assert InFlight(s.(transmitting := false, tcie := false)) == InFlight(s);
  }

  lemma PollKeepsInv(t: Tx, priority: bool)
    requires Inv(t) && t.writer.Waiting?
    ensures Inv(AfterPoll(t, priority))
  {
    if |t.ring| < t.cap {
      assert InFlight(AfterPoll(t, priority)) == InFlight(t);
    } else {
      SendKeeps(t, 1);
    }
  }

  lemma StepKeepsInv(t: Tx, op: Op)
    requires Inv(t) && Enabled(t, op)
    ensures Inv(Step(t, op))
  {
    var s := Step(t, op);
    match op
    case Begin(_) => assert InFlight(s) == InFlight(t);
    case Poll(priority) => PollKeepsInv(t, priority);
    case Fill => assert InFlight(s) == InFlight(t);
    case Publish =>
      assert InFlight(s) == InFlight(t);
      assert t.sent + (t.ring + [t.writer.c]) == t.sent + t.ring + [t.writer.c];
    case Irq => IrqKeepsInv(t);
    case Shift =>
      if t.shifting.Some? {
        assert s.wire + InFlight(s) == t.wire + InFlight(t);
      } else {
        assert InFlight(s) == InFlight(t);
      }
  }

  predicate Legal(t: Tx, ops: seq<Op>)
    decreases |ops|
  {
    ops == [] || (Enabled(t, ops[0]) && Legal(Step(t, ops[0]), ops[1..]))
  }

  function Run(t: Tx, ops: seq<Op>): Tx
    requires Legal(t, ops)
    decreases |ops|
  {
    if ops == [] then t else Run(Step(t, ops[0]), ops[1..])
  }

  function Start(cap: nat): Tx {
    Tx([], cap, Idle, false, false, false, [], None, [], [], [])
  }

  /** In every interleaving: nothing is lost, duplicated or reordered between write9bit, the ring, the UART and
    the line; a queued word always has its interrupt enabled; and once the driver reports that it is not
    transmitting, every word written has left on the line. */
  lemma RunTransmitsInOrder(cap: nat, ops: seq<Op>)
    requires cap >= 1 && Legal(Start(cap), ops)
    ensures var t := Run(Start(cap), ops);
            && t.sent + t.ring == t.published
            && t.wire + InFlight(t) + t.ring == t.published
            && (t.ring != [] ==> t.tie && t.transmitting)
            && (!t.transmitting ==> t.wire == t.published)
  {
    RunKeepsInv(Start(cap), ops);
    var t := Run(Start(cap), ops);
    if !t.transmitting { FlagDown(t); }
  }

  lemma {:induction false} RunKeepsInv(t: Tx, ops: seq<Op>)
    requires Inv(t) && Legal(t, ops)
    ensures Inv(Run(t, ops))
    decreases |ops|
  {
    if ops != [] {
      StepKeepsInv(t, ops[0]);
      RunKeepsInv(Step(t, ops[0]), ops[1..]);
    }
  }

  // ----- What is written is queued

  /** The word of a call of write9bit that is not queued yet. */
  function UnderWay(w: Writer): seq<word> {
    match w
    case Idle => []
    case Waiting(c) => [c]
    case Ready(c) => [c]
    case Filled(c) => [c]
  }

  /** The words that write9bit is called with along the way. */
  function Written(ops: seq<Op>): seq<word> {
    if ops == [] then []
    else (match ops[0] case Begin(c) => [c] case _ => []) + Written(ops[1..])
  }

  lemma StepKeepsWritten(t: Tx, op: Op)
    requires Enabled(t, op)
    ensures var s := Step(t, op);
            s.published + UnderWay(s.writer) == t.published + UnderWay(t.writer) + Written([op])
  {
    assert [op][1..] == [];
  }

  /** In every interleaving, the queued words and the one under way are the written ones, in order. */
  lemma {:induction false} RunPublishesWritten(t: Tx, ops: seq<Op>)
    requires Legal(t, ops)
    ensures var s := Run(t, ops); s.published + UnderWay(s.writer) == t.published + UnderWay(t.writer) + Written(ops)
    decreases |ops|
  {
    hide Step, Enabled, UnderWay;
    if ops != [] {
      StepKeepsWritten(t, ops[0]);
      assert [ops[0]][1..] == [];
      RunPublishesWritten(Step(t, ops[0]), ops[1..]);
    }
  }

  // ----- write9bit finds room without the handler

  /** With the ring full and room in the FIFO, a poll at a priority that keeps the handler away sends the oldest
    word itself; with room in the ring it lets the writer through. */
  lemma PollSends(t: Tx)
    requires Inv(t) && t.writer.Waiting?
    ensures var s := AfterPoll(t, true);
            && (|t.ring| < t.cap ==> s == t.(writer := Ready(t.writer.c)))
            && (|t.ring| == t.cap && |t.fifo| <= TX_WATER ==>
                  s.ring == t.ring[1..] && s.fifo == t.fifo + [t.ring[0]] && s.writer == t.writer)
  {}

  lemma RoomLetsThrough(t: Tx, priority: bool)
    requires t.writer.Waiting? && |t.ring| < t.cap
    ensures AfterPoll(t, priority) == t.(writer := Ready(t.writer.c))
  {}

  /** What brings a waiting writer on: the UART, and polls that find room in the ring or in the FIFO. */
  predicate Advancing(t: Tx, op: Op) {
    && t.writer.Waiting? && Enabled(t, op)
    && (op.Shift? || (op == Poll(true) && (|t.ring| < t.cap || |t.fifo| <= TX_WATER)))
  }

  /** How long the writer may still have to wait. */
  function Wait(t: Tx): nat {
    (if t.writer.Waiting? then 1 else 0) + (if |t.ring| >= t.cap then 3 else 0)
    + 2 * |t.fifo| + (if t.shifting.Some? then 1 else 0)
  }

  lemma AdvancingShortens(t: Tx, op: Op)
    requires Inv(t) && Advancing(t, op)
    ensures Inv(Step(t, op)) && Wait(Step(t, op)) < Wait(t)
    ensures Step(t, op).writer == t.writer || Step(t, op).writer == Ready(t.writer.c)
  {
    StepKeepsInv(t, op);
  }

  predicate AllAdvancing(t: Tx, ops: seq<Op>)
    requires Inv(t)
    decreases |ops|
  {
    ops == [] ||
    (Advancing(t, ops[0]) && (AdvancingShortens(t, ops[0]); AllAdvancing(Step(t, ops[0]), ops[1..])))
  }

  /** write9bit gets its slot without a single run of the handler, in whatever order polls and UART take their steps:
    there are at most Wait(t) of them, and when none is left the writer has room. */
  lemma {:induction false} WriterGetsRoom(t: Tx, ops: seq<Op>)
    requires Inv(t) && t.writer.Waiting? && AllAdvancing(t, ops)
    ensures |ops| <= Wait(t) && Legal(t, ops) && forall i :: 0 <= i < |ops| ==> !ops[i].Irq?
    ensures var s := Run(t, ops);
            && Inv(s) && s.published == t.published
            && (!Advancing(s, Shift) && !Advancing(s, Poll(true)) ==> s.writer == Ready(t.writer.c) && |s.ring| < s.cap)
    decreases |ops|
  {
    if ops != [] {
      AdvancingShortens(t, ops[0]);
      var s := Step(t, ops[0]);
      if s.writer.Waiting? {
        WriterGetsRoom(s, ops[1..]);
      } else {
        NoFurther(s, ops[1..]);
      }
    }
  }

  lemma NoFurther(t: Tx, ops: seq<Op>)
    requires Inv(t) && !t.writer.Waiting? && AllAdvancing(t, ops)
    ensures ops == []
  {}

  // ----- The handler does all it can

  /** With the interrupt enabled and the FIFO at its watermark or below, the handler moves the oldest words on, in
    order, until the FIFO is full or the ring is empty, and otherwise none. An emptied ring leaves the completion
    interrupt instead, and completion lowers the flag. */
  lemma IrqSends(t: Tx)
    requires Inv(t)
    ensures var s := AfterIrq(t);
            && s.fifo + s.ring == t.fifo + t.ring && t.fifo <= s.fifo
            && var emptied := t.tie && |t.fifo| <= TX_WATER && s.ring == [];
               var done := t.tcie && s.fifo == [] && s.shifting.None?;
               && (if t.tie && |t.fifo| <= TX_WATER then |s.fifo| == FIFO_DEPTH || s.ring == [] else s.fifo == t.fifo)
               && s.tie == (t.tie && !emptied) && s.tcie == ((t.tcie || emptied) && !done)
               && s.transmitting == (t.transmitting && !done)
  {
    var n := IrqMoves(t);
    assert t.ring == t.ring[..n] + t.ring[n..];
    assert t.fifo + t.ring[..n] + t.ring[n..] == t.fifo + t.ring;
  }

  // ----- flush returns

  /** How much the UART and the handler still have to do. */
  function Work(t: Tx): nat {
    4 * |t.ring| + 2 * |t.fifo| + (if t.shifting.Some? then 1 else 0)
    + (if t.tie then 2 else 0) + (if t.tcie then 1 else 0) + (if t.transmitting then 1 else 0)
  }

  /** An enabled interrupt is requested. */
  predicate IrqPending(t: Tx) {
    (t.tie && Tdre(t)) || (t.tcie && Tc(t))
  }

  /** What the hardware does by itself. */
  predicate Draining(t: Tx, op: Op) {
    (op.Shift? && Enabled(t, op)) || (op.Irq? && IrqPending(t))
  }

  /** Every step of the UART, and every run of the handler that has a request, leaves less to do. */
  lemma DrainingProgresses(t: Tx, op: Op)
    requires Inv(t) && Draining(t, op)
    ensures Enabled(t, op) && Inv(Step(t, op))
    ensures Work(Step(t, op)) < Work(t) && Step(t, op).published == t.published
  {
    StepKeepsInv(t, op);
  }

  /** A handler run without a request changes nothing. */
  lemma IdleIrq(t: Tx)
    ensures !IrqPending(t) ==> AfterIrq(t) == t
  {
    assert Send(t, 0) == t;
  }

  /** While the flag is up there is always something that the hardware will do. */
  lemma SomethingDrains(t: Tx)
    requires Inv(t) && t.transmitting
    ensures Draining(t, Shift) || Draining(t, Irq)
  {}

  predicate AllDraining(t: Tx, ops: seq<Op>)
    requires Inv(t)
    decreases |ops|
  {
    ops == [] ||
    (Draining(t, ops[0]) && (DrainingProgresses(t, ops[0]); AllDraining(Step(t, ops[0]), ops[1..])))
  }

  /** flush returns, in whatever order the UART and the handler take their steps: there are at most Work(t) of them,
    and when none is left the flag is down and everything written before is on the line. */
  lemma {:induction false} DrainEnds(t: Tx, ops: seq<Op>)
    requires Inv(t) && AllDraining(t, ops)
    ensures |ops| <= Work(t) && Legal(t, ops)
    ensures var s := Run(t, ops);
            && Inv(s) && s.published == t.published
            && (!Draining(s, Shift) && !Draining(s, Irq) ==> !s.transmitting)
            && (!s.transmitting ==> s.wire == t.published)
    decreases |ops|
  {
    if ops == [] {
      if t.transmitting { SomethingDrains(t); } else { FlagDown(t); }
    } else {
      DrainingProgresses(t, ops[0]);
      DrainEnds(Step(t, ops[0]), ops[1..]);
    }
  }

  lemma FlagDown(t: Tx)
    requires Inv(t) && !t.transmitting
    ensures t.wire == t.published
  {
    assert t.wire + InFlight(t) + t.ring == t.wire;
  }
}
