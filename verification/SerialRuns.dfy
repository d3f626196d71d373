/** Whole runs of a serial port: the program, the interrupt handler and the UART take their steps in any order. */
module SerialRuns {
  import opened Options
  import opened Histories
  import opened Uarts
  import opened HardwareSerials
  import SerialTransmit
  import SerialReceive

  datatype Event =
    | BeginWrite(c: word)         // write9bit is called
    | PollSlot(priority: bool)    // one test of its loop
    | Fill
    | Publish
    | Shift                       // the UART starts or finishes a word
    | Arrive(w: word)             // a word comes in from the line
    | IdleLine                    // the line falls silent
    | Interrupt                   // the handler runs
    | BeginRead(peek: bool)       // read or peek is called
    | LookAgain
    | Load
    | Store

  function TxOf(width: nat, e: Event): seq<SerialTransmit.Op>
    requires width > 0
  {
    match e
    case BeginWrite(c) => [SerialTransmit.Begin(SerialReceive.Narrow(width, c))]
    case PollSlot(priority) => [SerialTransmit.Poll(priority)]
    case Fill => [SerialTransmit.Fill]
    case Publish => [SerialTransmit.Publish]
    case Interrupt => [SerialTransmit.Irq]
    case Shift => [SerialTransmit.Shift]
    case _ => []
  }

  function RxOf(idle: bool, e: Event): seq<SerialReceive.Op> {
    match e
    case Arrive(w) => [SerialReceive.Arrive(w)]
    case Interrupt => [SerialReceive.Irq(idle)]
    case BeginRead(peek) => [SerialReceive.Sample(peek)]
    case LookAgain => [SerialReceive.Check]
    case Load => [SerialReceive.Load]
    case Store => [SerialReceive.Store]
    case _ => []
  }

  /** The idle flag goes up with the silent line, and down with the handler. */
  function IdleAfter(idle: bool, e: Event): bool {
    e.IdleLine? || (idle && !e.Interrupt?)
  }

  function TxOps(width: nat, es: seq<Event>): seq<SerialTransmit.Op>
    requires width > 0
  {
    if es == [] then [] else TxOf(width, es[0]) + TxOps(width, es[1..])
  }

  function RxOps(idle: bool, es: seq<Event>): seq<SerialReceive.Op>
    decreases |es|
  {
    if es == [] then [] else RxOf(idle, es[0]) + RxOps(IdleAfter(idle, es[0]), es[1..])
  }

  /** Whether each step can be taken when its turn comes. */
  ghost predicate Possible(serial: HardwareSerial, es: seq<Event>)
    requires serial.Valid() && serial.width > 0
    reads serial, serial.port, serial.tx, serial.tx.buffer, serial.tx.storage, serial.rx, serial.rx.buffer,
          serial.rx.storage
  {
    && SerialTransmit.Legal(serial.txs, TxOps(serial.width, es))
    && SerialReceive.Legal(serial.rxs, RxOps(serial.port.idle, es))
  }

  // ----- Taking runs apart

  /** The operations can be taken one after the other, and lead from t to u. */
  predicate TxLeads(t: SerialTransmit.Tx, ops: seq<SerialTransmit.Op>, u: SerialTransmit.Tx) {
    SerialTransmit.Legal(t, ops) && u == SerialTransmit.Run(t, ops)
  }

  /** On the way read returns the words `got`. */
  predicate RxLeads(t: SerialReceive.Rx, ops: seq<SerialReceive.Op>, u: SerialReceive.Rx, got: seq<word>) {
    && SerialReceive.Inv(t) && SerialReceive.Legal(t, ops)
    && u == SerialReceive.Run(t, ops) && got == SerialReceive.Reads(t, ops)
  }

  lemma TxRest(t: SerialTransmit.Tx, a: seq<SerialTransmit.Op>, u: SerialTransmit.Tx, b: seq<SerialTransmit.Op>)
    requires SerialTransmit.Legal(t, a + b) && |a| <= 1
    ensures SerialTransmit.Legal(t, a)
    ensures TxLeads(t, a, u) ==> SerialTransmit.Legal(u, b)
    ensures forall v :: TxLeads(t, a, u) && TxLeads(u, b, v) ==> TxLeads(t, a + b, v)
  {
    hide SerialTransmit.Step, SerialTransmit.Enabled;
    if a == [] {
      assert a + b == b;
    } else {
      assert (a + b)[0] == a[0] && (a + b)[1..] == b && a[1..] == [];
      assert SerialTransmit.Run(SerialTransmit.Step(t, a[0]), []) == SerialTransmit.Step(t, a[0]);
    }
  }

  lemma RxRest(t: SerialReceive.Rx, a: seq<SerialReceive.Op>, u: SerialReceive.Rx, got: seq<word>,
               b: seq<SerialReceive.Op>)
    requires SerialReceive.Inv(t) && SerialReceive.Legal(t, a + b) && |a| <= 1
    ensures SerialReceive.Legal(t, a)
    ensures RxLeads(t, a, u, got) ==> SerialReceive.Inv(u) && SerialReceive.Legal(u, b)
    ensures forall v, more :: RxLeads(t, a, u, got) && RxLeads(u, b, v, more) ==> RxLeads(t, a + b, v, got + more)
  {
    hide SerialReceive.Inv, SerialReceive.Step, SerialReceive.Enabled, SerialReceive.Given;
    if a == [] {
      assert a + b == b;
    } else {
      SerialReceive.StepKeepsInv(t, a[0]);
      var s := SerialReceive.Step(t, a[0]);
      assert (a + b)[0] == a[0] && (a + b)[1..] == b && a[1..] == [];
      assert SerialReceive.Run(s, []) == s && SerialReceive.Reads(s, []) == [];
      assert SerialReceive.Given(t, a[0]) + [] == SerialReceive.Given(t, a[0]);
    }
  }

  lemma TxOne(t: SerialTransmit.Tx, op: SerialTransmit.Op)
    ensures SerialTransmit.Legal(t, [op]) <==> SerialTransmit.Enabled(t, op)
    ensures SerialTransmit.Enabled(t, op) ==> TxLeads(t, [op], SerialTransmit.Step(t, op))
  {
    assert [op][0] == op && [op][1..] == [];
  }

  lemma RxOne(t: SerialReceive.Rx, op: SerialReceive.Op)
    requires SerialReceive.Inv(t)
    ensures SerialReceive.Legal(t, [op]) <==> SerialReceive.Enabled(t, op)
    ensures SerialReceive.Enabled(t, op) ==>
              RxLeads(t, [op], SerialReceive.Step(t, op), SerialReceive.Given(t, op))
  {
    hide SerialReceive.Inv;
    assert [op][0] == op && [op][1..] == [];
    if SerialReceive.Enabled(t, op) {
      SerialReceive.StepKeepsInv(t, op);
      var s := SerialReceive.Step(t, op);
      assert SerialReceive.Run(s, []) == s && SerialReceive.Reads(s, []) == [];
      assert SerialReceive.Given(t, op) + [] == SerialReceive.Given(t, op);
    }
  }

  /** Only the UART puts words on the line, each when it has finished it. */
  lemma WireGrows(t: SerialTransmit.Tx, op: SerialTransmit.Op)
    requires SerialTransmit.Enabled(t, op)
    ensures SerialTransmit.Step(t, op).wire ==
            t.wire + if op.Shift? && t.shifting.Some? then [t.shifting.value] else []
  {}

  lemma NoSteps(t: SerialTransmit.Tx, r: SerialReceive.Rx)
    ensures TxLeads(t, [], t)
    ensures SerialReceive.Inv(r) ==> RxLeads(r, [], r, [])
  {}

  /** The fields of a port are those of its two protocols. */
  lemma Shown(serial: HardwareSerial)
    requires serial.Valid()
    ensures SerialTransmit.Inv(serial.txs) && SerialReceive.Inv(serial.rxs)
    ensures serial.writer == serial.txs.writer && serial.reader == serial.rxs.reader
    ensures serial.port.txFifo == serial.txs.fifo && serial.port.shifting == serial.txs.shifting
    ensures serial.port.rxFifo == serial.rxs.fifo && serial.width == serial.rxs.width > 0
    ensures serial.ToSend() == serial.txs.ring && serial.ToRead() == serial.rxs.ring
    ensures serial.transmitting == serial.txs.transmitting
  {}

  // ----- Runs on the port

  method FallSilent(serial: HardwareSerial)
    requires serial.Valid()
    modifies serial.port`idle
    ensures serial.Valid() && serial.port.idle
  {
    serial.port.idle := true;
  }

  /** One step of the writer or the UART's sender; `sent` is what has left on the line. */
  method PerformTx(serial: HardwareSerial, e: Event) returns (sent: seq<word>)
    requires serial.Valid() && serial.width > 0 && !e.Interrupt?
    requires TxOf(serial.width, e) != [] && SerialTransmit.Legal(serial.txs, TxOf(serial.width, e))
    modifies serial`writer, serial`slot, serial`transmitting, serial`txs, serial.port`txFifo, serial.port`shifting,
             serial.port`tie, serial.tx`head, serial.tx`tail, serial.tx.buffer, serial.tx.storage
    ensures serial.Valid() && TxLeads(old(serial.txs), TxOf(serial.width, e), serial.txs)
    ensures serial.txs.wire == old(serial.txs.wire) + sent
  {
    hide HardwareSerial.Valid, SerialTransmit.Step, SerialReceive.Narrow, SerialTransmit.Legal, TxLeads,
         HardwareSerial.ToSend, HardwareSerial.ToRead;
    Shown(serial);
    TxOne(serial.txs, TxOf(serial.width, e)[0]);
    WireGrows(serial.txs, TxOf(serial.width, e)[0]);
    sent := if e.Shift? && serial.port.shifting.Some? then [serial.port.shifting.value] else [];
    match e
    case BeginWrite(c) => serial.WriteBegin(c);
    case PollSlot(priority) => serial.WritePoll(priority);
    case Fill => serial.WriteFill();
    case Publish => serial.WritePublish();
    case Shift => serial.Shift();
  }

  /** One step of the reader, or an arrival; `got` is what read gives its caller. */
  method PerformRx(serial: HardwareSerial, e: Event) returns (got: seq<word>)
    requires serial.Valid() && RxOf(serial.port.idle, e) != [] && !e.Interrupt?
    requires SerialReceive.Inv(serial.rxs) && SerialReceive.Legal(serial.rxs, RxOf(serial.port.idle, e))
    modifies serial`reader, serial`rxs, serial.port`rxFifo, serial.rx`head, serial.rx`tail, serial.rx.buffer
    ensures serial.Valid() && RxLeads(old(serial.rxs), RxOf(serial.port.idle, e), serial.rxs, got)
  {
    hide HardwareSerial.Valid, SerialReceive.Step, SerialReceive.Inv, SerialReceive.Legal, RxLeads,
         HardwareSerial.ToSend, HardwareSerial.ToRead;
    Shown(serial);
    RxOne(serial.rxs, RxOf(serial.port.idle, e)[0]);
    got := [];
    match e
    case Arrive(w) => serial.Arrive(w);
    case BeginRead(peek) => serial.ReadSample(peek);
    case LookAgain =>
      var peeking := serial.reader.peek;
      var r := serial.ReadCheck();
      got := if r.Word? && !peeking then [r.c] else [];
    case Load =>
      var _ := serial.ReadLoad();
    case Store =>
      var r := serial.ReadStore();
      got := [r.c];
  }

  /** One run of the handler. */
  method PerformIrq(serial: HardwareSerial)
    requires serial.Valid() && serial.width > 0
    modifies serial, serial.port, serial.tx`head, serial.tx`tail, serial.tx.buffer, serial.tx.storage,
             serial.rx`head, serial.rx`tail, serial.rx.buffer, serial.rx.storage
    ensures serial.Valid() && !serial.port.idle && serial.txs.wire == old(serial.txs.wire)
    ensures TxLeads(old(serial.txs), TxOf(serial.width, Interrupt), serial.txs)
    ensures RxLeads(old(serial.rxs), RxOf(old(serial.port.idle), Interrupt), serial.rxs, [])
  {
    hide HardwareSerial.Valid, SerialReceive.Step, SerialReceive.Inv, SerialTransmit.Step, SerialReceive.Handled,
         SerialTransmit.Legal, SerialReceive.Legal, TxLeads, RxLeads, HardwareSerial.ToSend, HardwareSerial.ToRead;
    Shown(serial);
    TxOne(serial.txs, SerialTransmit.Irq);
    WireGrows(serial.txs, SerialTransmit.Irq);
    RxOne(serial.rxs, SerialReceive.Irq(serial.port.idle));
    serial.IRQHandler();
  }

  /** Any step on the port is a step of the protocols it belongs to. */
  method Perform(serial: HardwareSerial, e: Event) returns (sent: seq<word>, got: seq<word>)
    requires serial.Valid() && serial.width > 0 && SerialReceive.Inv(serial.rxs)
    requires SerialTransmit.Legal(serial.txs, TxOf(serial.width, e))
    requires SerialReceive.Legal(serial.rxs, RxOf(serial.port.idle, e))
    modifies serial, serial.port, serial.tx`head, serial.tx`tail, serial.tx.buffer, serial.tx.storage,
             serial.rx`head, serial.rx`tail, serial.rx.buffer, serial.rx.storage
    ensures serial.Valid() && serial.port.idle == IdleAfter(old(serial.port.idle), e)
    ensures TxLeads(old(serial.txs), TxOf(serial.width, e), serial.txs)
    ensures RxLeads(old(serial.rxs), RxOf(old(serial.port.idle), e), serial.rxs, got)
    ensures serial.txs.wire == old(serial.txs.wire) + sent
  {
    hide HardwareSerial.Valid, SerialReceive.Inv, SerialTransmit.Legal, SerialReceive.Legal, TxLeads, RxLeads;
    NoSteps(serial.txs, serial.rxs);
    sent, got := [], [];
    if e.Interrupt? {
      PerformIrq(serial);
    } else if e.IdleLine? {
      FallSilent(serial);
    } else if e.BeginWrite? || e.PollSlot? || e.Fill? || e.Publish? || e.Shift? {
      sent := PerformTx(serial, e);
    } else {
      got := PerformRx(serial, e);
    }
  }

  /** Any sequence of steps on the port goes through the runs of both protocols. */
  method PerformAll(serial: HardwareSerial, es: seq<Event>) returns (sent: seq<word>, got: seq<word>)
    requires serial.Valid() && serial.width > 0 && SerialReceive.Inv(serial.rxs)
    requires SerialTransmit.Legal(serial.txs, TxOps(serial.width, es))
    requires SerialReceive.Legal(serial.rxs, RxOps(serial.port.idle, es))
    modifies serial, serial.port, serial.tx`head, serial.tx`tail, serial.tx.buffer, serial.tx.storage,
             serial.rx`head, serial.rx`tail, serial.rx.buffer, serial.rx.storage
    ensures serial.Valid()
    ensures TxLeads(old(serial.txs), TxOps(serial.width, es), serial.txs)
    ensures RxLeads(old(serial.rxs), RxOps(old(serial.port.idle), es), serial.rxs, got)
    ensures serial.txs.wire == old(serial.txs.wire) + sent
    decreases |es|
  {
    hide HardwareSerial.Valid, SerialReceive.Inv, SerialTransmit.Legal, SerialReceive.Legal, TxLeads, RxLeads,
         TxOf, RxOf, IdleAfter;
    NoSteps(serial.txs, serial.rxs);
    sent, got := [], [];
    if es != [] {
      FewOps(serial.width, serial.port.idle, es[0]);
      ghost var t, r, idle := serial.txs, serial.rxs, serial.port.idle;
      ghost var out, into := TxOf(serial.width, es[0]), RxOf(idle, es[0]);
      ghost var later, next := TxOps(serial.width, es[1..]), RxOps(IdleAfter(idle, es[0]), es[1..]);
      TxRest(t, out, t, later);
      RxRest(r, into, r, [], next);
      var s1, g1 := Perform(serial, es[0]);
      TxRest(t, out, serial.txs, later);
      RxRest(r, into, serial.rxs, g1, next);
      var s2, g2 := PerformAll(serial, es[1..]);
      sent, got := s1 + s2, g1 + g2;
    }
  }

  lemma FewOps(width: nat, idle: bool, e: Event)
    requires width > 0
    ensures |TxOf(width, e)| <= 1 && |RxOf(idle, e)| <= 1
  {}

  // ----- What the program and the line see

  /** The words that write9bit is called with, as a ring element can hold them. */
  function WrittenIn(width: nat, es: seq<Event>): seq<word>
    requires width > 0
  {
    if es == [] then []
    else (if es[0].BeginWrite? then [es[0].c % width] else []) + WrittenIn(width, es[1..])
  }

  function ArrivedIn(es: seq<Event>): seq<word> {
    if es == [] then [] else (if es[0].Arrive? then [es[0].w] else []) + ArrivedIn(es[1..])
  }

  lemma {:induction false} WrittenConcat(a: seq<SerialTransmit.Op>, b: seq<SerialTransmit.Op>)
    ensures SerialTransmit.Written(a + b) == SerialTransmit.Written(a) + SerialTransmit.Written(b)
  {
    if a == [] {
      assert a + b == b;
    } else {
      WrittenConcat(a[1..], b);
      assert (a + b)[0] == a[0] && (a + b)[1..] == a[1..] + b;
    }
  }

  lemma {:induction false} WrittenOps(width: nat, es: seq<Event>)
    requires width > 0
    ensures SerialTransmit.Written(TxOps(width, es)) == WrittenIn(width, es)
  {
    if es != [] {
      var first := TxOf(width, es[0]);
      WrittenConcat(first, TxOps(width, es[1..]));
      WrittenOps(width, es[1..]);
      assert first != [] ==> first[1..] == [];
    }
  }

  /** The words that arrive along the way. */
  function Arrivals(ops: seq<SerialReceive.Op>): seq<word> {
    if ops == [] then [] else (if ops[0].Arrive? then [ops[0].w] else []) + Arrivals(ops[1..])
  }

  lemma {:induction false} RunArrives(t: SerialReceive.Rx, ops: seq<SerialReceive.Op>)
    requires SerialReceive.Inv(t) && SerialReceive.Legal(t, ops)
    ensures SerialReceive.Run(t, ops).arrived == t.arrived + Arrivals(ops)
    decreases |ops|
  {
    hide SerialReceive.Inv, SerialReceive.Enabled;
    if ops != [] {
      SerialReceive.StepKeepsInv(t, ops[0]);
      RunArrives(SerialReceive.Step(t, ops[0]), ops[1..]);
    }
  }

  lemma {:induction false} ArrivedOps(idle: bool, es: seq<Event>)
    ensures Arrivals(RxOps(idle, es)) == ArrivedIn(es)
    decreases |es|
  {
    if es != [] {
      var first, idle' := RxOf(idle, es[0]), IdleAfter(idle, es[0]);
      ArrivedOps(idle', es[1..]);
      if first != [] {
        assert (first + RxOps(idle', es[1..]))[1..] == RxOps(idle', es[1..]);
      } else {
        assert first + RxOps(idle', es[1..]) == RxOps(idle', es[1..]);
      }
    }
  }

  lemma TxEnd(cap: nat, ops: seq<SerialTransmit.Op>, u: SerialTransmit.Tx)
    requires cap >= 1 && TxLeads(SerialTransmit.Start(cap), ops, u)
    ensures var pending := SerialTransmit.UnderWay(u.writer);
            && u.wire + SerialTransmit.InFlight(u) + u.ring + pending == SerialTransmit.Written(ops)
            && (!u.transmitting ==> u.wire + pending == SerialTransmit.Written(ops))
  {
    SerialTransmit.RunTransmitsInOrder(cap, ops);
    SerialTransmit.RunPublishesWritten(SerialTransmit.Start(cap), ops);
    assert [] + SerialTransmit.Written(ops) == SerialTransmit.Written(ops);
  }

  lemma RxEnd(cap: nat, width: nat, ops: seq<SerialReceive.Op>, u: SerialReceive.Rx, got: seq<word>)
    requires cap >= 1 && width > 0 && RxLeads(SerialReceive.Start(cap, width), ops, u, got)
    ensures var held, kept := got + u.ring + u.fifo, Keep(Arrivals(ops), u.dropped);
            && SerialReceive.NarrowAll(width, held) == SerialReceive.NarrowAll(width, kept)
            && ((forall i :: 0 <= i < |Arrivals(ops)| ==> Arrivals(ops)[i] < width) ==> held == kept)
  {
    hide SerialReceive.Inv, SerialReceive.Legal, SerialReceive.Run, SerialReceive.Reads, Keep, SerialReceive.NarrowAll;
    SerialReceive.RunReceivesInOrder(cap, width, ops);
    RunArrives(SerialReceive.Start(cap, width), ops);
    assert [] + Arrivals(ops) == Arrivals(ops);
  }

  /** A port as it is constructed. */
  ghost predicate AtRest(serial: HardwareSerial)
    reads serial, serial.port, serial.tx, serial.tx.buffer, serial.tx.storage, serial.rx, serial.rx.buffer,
          serial.rx.storage
  {
    && serial.Valid() && serial.tx.totalSize >= 2 && serial.rx.totalSize >= 2 && serial.width > 0
    && serial.txs == SerialTransmit.Start(serial.tx.totalSize - 1)
    && serial.rxs == SerialReceive.Start(serial.rx.totalSize - 1, serial.width)
  }

  /** What is being sent, and then the FIFO. */
  ghost function InUart(port: Uart): seq<word>
    reads port
  {
    (match port.shifting case Some(c) => [c] case None => []) + port.txFifo
  }

  /** From a port at rest, in whatever order program, handler and UART take their steps: what has left on the line,
    what is in the UART, in the ring and in a call under way are the words written, in order, as far as a ring
    element can hold them, and all of it has left when the flag is down. What read returned, the ring and the FIFO
    are the words that arrived, in order, less the dropped ones, exactly if every word fits a ring element. */
  method RunInOrder(serial: HardwareSerial, es: seq<Event>) returns (sent: seq<word>, got: seq<word>)
    requires AtRest(serial) && Possible(serial, es)
    modifies serial, serial.port, serial.tx`head, serial.tx`tail, serial.tx.buffer, serial.tx.storage,
             serial.rx`head, serial.rx`tail, serial.rx.buffer, serial.rx.storage
    ensures serial.Valid() && serial.width > 0
    ensures var pending := SerialTransmit.UnderWay(serial.writer);
            && sent + InUart(serial.port) + serial.ToSend() + pending == WrittenIn(serial.width, es)
            && (!serial.transmitting ==> sent + pending == WrittenIn(serial.width, es))
    ensures var held := got + serial.ToRead() + serial.port.rxFifo;
            var kept := Keep(ArrivedIn(es), serial.rxs.dropped);
            && SerialReceive.NarrowAll(serial.width, held) == SerialReceive.NarrowAll(serial.width, kept)
            && ((forall i :: 0 <= i < |ArrivedIn(es)| ==> ArrivedIn(es)[i] < serial.width) ==> held == kept)
  {
    hide HardwareSerial.Valid, SerialReceive.Inv, SerialTransmit.Legal, SerialReceive.Legal, TxLeads, RxLeads,
         HardwareSerial.ToSend, HardwareSerial.ToRead, Keep, SerialReceive.NarrowAll, SerialTransmit.UnderWay,
         WrittenIn, ArrivedIn;
    Shown(serial);
    ghost var txCap, rxCap, width := serial.tx.totalSize - 1, serial.rx.totalSize - 1, serial.width;
    ghost var out, into := TxOps(width, es), RxOps(serial.port.idle, es);
    WrittenOps(width, es);
    ArrivedOps(serial.port.idle, es);
    sent, got := PerformAll(serial, es);
    Shown(serial);
    TxEnd(txCap, out, serial.txs);
    RxEnd(rxCap, width, into, serial.rxs, got);
    assert [] + sent == sent;
    InFlightShown(serial);
  }

  lemma InFlightShown(serial: HardwareSerial)
    requires serial.port.txFifo == serial.txs.fifo && serial.port.shifting == serial.txs.shifting
    ensures InUart(serial.port) == SerialTransmit.InFlight(serial.txs)
  {}
}
