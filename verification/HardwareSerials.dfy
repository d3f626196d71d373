/** The serial driver on its two rings and the UART. A method is one step: what runs between
  two points at which the interrupt handler, or the code it interrupts, may intervene. The locals of a
  suspended write9bit, read or peek are fields. Each step refines a step of SerialTransmit or SerialReceive. */
module HardwareSerials {
  import opened Options
  import opened Uarts
  import opened SplitRings
  import SerialTransmit
  import SerialReceive

  class HardwareSerial {
    const port: Uart
    const tx: SplitRing
    const rx: SplitRing
    /** The number of values of a ring element: 256, or 65536 with 9-bit support. */
    const width: nat

    var transmitting: bool
    var writer: SerialTransmit.Writer
    var slot: nat
    var reader: SerialReceive.Reader

    ghost var txs: SerialTransmit.Tx
    ghost var rxs: SerialReceive.Rx

    constructor (port: Uart, tx: SplitRing, rx: SplitRing, nineBits: bool)
      requires tx != rx && tx.Valid() && rx.Valid() && Apart(tx, rx)
      requires tx.head == tx.tail && rx.head == rx.tail
      requires !port.tie && !port.tcie && port.txFifo == [] && port.shifting.None? && port.rxFifo == []
      ensures Valid() && this.port == port && this.tx == tx && this.rx == rx
      ensures width == if nineBits then 65536 else 256
      ensures txs == SerialTransmit.Start(tx.totalSize - 1) && rxs == SerialReceive.Start(rx.totalSize - 1, width)
    {
      this.port, this.tx, this.rx := port, tx, rx;
      width := if nineBits then 65536 else 256;
      transmitting, writer, slot, reader := false, SerialTransmit.Idle, 0, SerialReceive.Idle;
      txs := SerialTransmit.Start(tx.totalSize - 1);
      rxs := SerialReceive.Start(rx.totalSize - 1, if nineBits then 65536 else 256);
      new;
      hide SplitRing.Slots, Live;
      LiveCount(tx.Slots(), tx.head, tx.tail);
      LiveCount(rx.Slots(), rx.head, rx.tail);
      SerialReceive.StartInv(rx.totalSize - 1, width);
    }

    /** The rings, the enables and the locals show the transmit state t. */
    ghost predicate ShowsTx(t: SerialTransmit.Tx)
      reads this`transmitting, this`writer, this`slot, tx, tx.buffer, tx.storage
      reads port`tie, port`tcie, port`txFifo, port`shifting
    {
      && tx.Valid() && t.ring == tx.Contents() && t.cap == tx.totalSize - 1
      && t.transmitting == transmitting && t.tie == port.tie && t.tcie == port.tcie
      && t.fifo == port.txFifo && t.shifting == port.shifting && t.writer == writer
      && (!writer.Idle? ==> slot == Next(tx.totalSize, tx.head))
      && (writer.Filled? ==> tx.Slots()[slot] == writer.c)
    }

    ghost predicate ShowsRx(t: SerialReceive.Rx)
      reads this`reader, rx, rx.buffer, rx.storage, port`rxFifo
    {
      && rx.Valid() && t.ring == rx.Contents() && t.cap == rx.totalSize - 1
      && t.width == width && t.fifo == port.rxFifo && t.reader == reader
    }

    lemma WriterShown()
      requires Valid()
      ensures writer == txs.writer && txs.cap == tx.totalSize - 1
    {}

    lemma ShownTx(t: SerialTransmit.Tx)
      requires ShowsTx(t)
      ensures t.writer == writer && tx.Valid() && t.ring == tx.Contents() && t.cap == tx.totalSize - 1
      ensures t.fifo == port.txFifo && t.shifting == port.shifting
      ensures t.tie == port.tie && t.tcie == port.tcie && t.transmitting == transmitting
    {}

    lemma ShownRx(t: SerialReceive.Rx)
      requires ShowsRx(t)
      ensures t.reader == reader && t.width == width
      ensures rx.Valid() && t.ring == rx.Contents() && t.cap == rx.totalSize - 1 && t.fifo == port.rxFifo
    {}

    ghost predicate Valid()
      reads this, port, tx, tx.buffer, tx.storage, rx, rx.buffer, rx.storage
    {
      && tx != rx && Apart(tx, rx)
      && ShowsTx(txs) && ShowsRx(rxs)
      && SerialTransmit.Inv(txs) && SerialReceive.Inv(rxs)
    }

    /** The words to send. */
    ghost function ToSend(): seq<word>
      requires Valid()
      reads this, port, tx, tx.buffer, tx.storage, rx, rx.buffer, rx.storage
    {
      tx.Contents()
    }

    /** The words to read. */
    ghost function ToRead(): seq<word>
      requires Valid()
      reads this, port, tx, tx.buffer, tx.storage, rx, rx.buffer, rx.storage
    {
      rx.Contents()
    }

    lemma WidthIsPositive()
      requires Valid()
      ensures width > 0
    {}

    // ----- More memory, at any time

    /** A live port stays sound if and only if no memory was added before, the ring stays within 65536 slots, the
      queued words do not wrap, and a write that is under way has not taken the slot behind the old end, slot 0. */
    method AddMemoryForWrite(memory: array?<word>, length: nat)
      requires Valid()
      requires memory != null ==> memory.Length == length && memory !in {tx.buffer, rx.buffer} && memory != rx.storage
      modifies tx`storage, tx`totalSize, this`txs
      ensures tx.storage == memory && tx.totalSize == old(tx.totalSize) + if memory == null then 0 else length
      ensures txs == old(txs).(cap := old(tx.totalSize) - 1 + if memory == null then 0 else length)
      ensures Valid() <==>
              && (old(tx.storage) == null || old(tx.storage.Length) == 0) && tx.totalSize <= 65536
              && (memory == null || length == 0 || (tx.head >= tx.tail && (writer.Idle? || slot != 0)))
    {
      hide SplitRing.Slots, Live, SerialReceive.Inv, ShowsRx;
      LiveCount(tx.Slots(), tx.head, tx.tail);
      tx.AddMemory(memory, length);
      txs := txs.(cap := tx.totalSize - 1);
      if tx.Valid() {
        SlotStays(old(tx.Slots()), tx.Slots());
        GrownKeepsInv(old(txs), txs.cap);
      }
    }

    lemma SlotStays(was: seq<word>, now: seq<word>)
      ensures was <= now && slot < |was| ==> now[slot] == was[slot]
    {}

    lemma GrownKeepsInv(t: SerialTransmit.Tx, cap: nat)
      requires SerialTransmit.Inv(t) && t.cap <= cap
      ensures SerialTransmit.Inv(t.(cap := cap))
    {
      assert SerialTransmit.InFlight(t.(cap := cap)) == SerialTransmit.InFlight(t);
    }

    method AddMemoryForRead(memory: array?<word>, length: nat)
      requires Valid()
      requires memory != null ==> memory.Length == length && memory !in {tx.buffer, rx.buffer} && memory != tx.storage
      modifies rx`storage, rx`totalSize, this`rxs
      ensures rx.storage == memory && rx.totalSize == old(rx.totalSize) + if memory == null then 0 else length
      ensures rxs == old(rxs).(cap := old(rx.totalSize) - 1 + if memory == null then 0 else length)
      ensures Valid() <==>
              && (old(rx.storage) == null || old(rx.storage.Length) == 0) && rx.totalSize <= 65536
              && (memory == null || length == 0 || rx.head >= rx.tail)
    {
      hide SplitRing.Slots, Live, SerialTransmit.Inv, ShowsTx;
      LiveCount(rx.Slots(), rx.head, rx.tail);
      rx.AddMemory(memory, length);
      rxs := rxs.(cap := rx.totalSize - 1);
      if rx.Valid() {
        MoreRoomKeepsInv(old(rxs), rxs.cap);
      }
    }

    lemma MoreRoomKeepsInv(t: SerialReceive.Rx, cap: nat)
      requires SerialReceive.Inv(t) && t.cap <= cap
      ensures SerialReceive.Inv(t.(cap := cap))
    {
      assert SerialReceive.Older(t.(cap := cap)) == SerialReceive.Older(t);
    }

    // ----- write9bit

    /** A word that is wider than a ring element is cut to it. */
    method WriteBegin(c: word)
      requires Valid() && writer.Idle?
      modifies this`writer, this`slot, this`txs
      ensures Valid() && txs == SerialTransmit.Step(old(txs), SerialTransmit.Begin(SerialReceive.Narrow(width, c)))
      ensures slot == Next(tx.totalSize, tx.head)
    {
      var cut := SerialReceive.Narrow(width, c);
      SerialTransmit.StepKeepsInv(txs, SerialTransmit.Begin(cut));
      hide SplitRing.Slots, Live, SerialTransmit.Inv, SerialReceive.Inv, ShowsRx;
      slot := Next(tx.totalSize, tx.head);
      writer := SerialTransmit.Waiting(cut);
      txs := SerialTransmit.Step(txs, SerialTransmit.Begin(cut));
    }

    /** One round of the loop that waits for a free slot. When the handler cannot run, the round moves a word
      itself. */
    method WritePoll(priority: bool)
      requires Valid() && writer.Waiting?
      modifies this`writer, this`txs, tx`tail, port`txFifo
      ensures Valid() && txs == SerialTransmit.Step(old(txs), SerialTransmit.Poll(priority))
      ensures old(|ToSend()|) < tx.totalSize - 1 ==>
                writer == SerialTransmit.Ready(old(writer).c) && ToSend() == old(ToSend())
      ensures old(|ToSend()|) == tx.totalSize - 1 && priority && old(|port.txFifo|) <= TX_WATER ==>
                && port.txFifo == old(port.txFifo) + [old(ToSend())[0]] && ToSend() == old(ToSend())[1..]
                && writer == old(writer)
    {
      hide SerialTransmit.Inv, SerialReceive.Inv, SerialTransmit.AfterPoll, ShowsTx, ShowsRx;
      ShownTx(txs);
      SerialTransmit.StepKeepsInv(txs, SerialTransmit.Poll(priority));
      if priority { SerialTransmit.PollSends(txs); }
      if |txs.ring| < txs.cap { SerialTransmit.RoomLetsThrough(txs, priority); }
      LookForSlot(priority);
      txs := SerialTransmit.Step(txs, SerialTransmit.Poll(priority));
      ShownTx(txs);
    }

    method LookForSlot(priority: bool)
      requires ShowsTx(txs) && writer.Waiting?
      modifies this`writer, tx`tail, port`txFifo
      ensures ShowsTx(SerialTransmit.AfterPoll(txs, priority))
    {
      hide SplitRing.Slots, Live;
      LiveCount(tx.Slots(), tx.head, tx.tail);
      if tx.tail != slot {
        writer := SerialTransmit.Ready(writer.c);
      } else if priority && port.Tdre() {
        LivePop(tx.Slots(), tx.head, tx.tail);
        assert txs.ring[..1] == [txs.ring[0]];
        var tail := Next(tx.totalSize, tx.tail);
        var n := tx.Load(tail);
        port.WriteData(n);
        tx.tail := tail;
      }
    }

    method WriteFill()
      requires Valid() && writer.Ready?
      modifies this`writer, this`txs, tx.buffer, tx.storage
      ensures Valid() && txs == SerialTransmit.Step(old(txs), SerialTransmit.Fill)
    {
      hide SerialTransmit.Inv, SerialReceive.Inv, ShowsTx, ShowsRx;
      ShownTx(txs);
      SerialTransmit.InvFacts(txs);
      SerialTransmit.StepKeepsInv(txs, SerialTransmit.Fill);
      FillSlot();
      txs := SerialTransmit.Step(txs, SerialTransmit.Fill);
    }

    /** The slot lies behind the head and is not live, so the queue stays as it is. */
    method FillSlot()
      requires ShowsTx(txs) && writer.Ready? && |txs.ring| < txs.cap
      modifies this`writer, tx.buffer, tx.storage
      ensures ShowsTx(txs.(writer := SerialTransmit.Filled(txs.writer.c)))
    {
      hide SplitRing.Slots, Live;
      LiveCount(tx.Slots(), tx.head, tx.tail);
      LiveStore(tx.Slots(), tx.head, tx.tail, writer.c);
      tx.Store(slot, writer.c);
      writer := SerialTransmit.Filled(writer.c);
    }

    method WritePublish()
      requires Valid() && writer.Filled?
      modifies this`writer, this`transmitting, this`txs, tx`head, port`tie
      ensures Valid() && txs == SerialTransmit.Step(old(txs), SerialTransmit.Publish)
      ensures tx.head == slot
    {
      hide SerialTransmit.Inv, SerialReceive.Inv, SerialTransmit.AfterPublish, ShowsTx, ShowsRx;
      ShownTx(txs);
      SerialTransmit.InvFacts(txs);
      SerialTransmit.StepKeepsInv(txs, SerialTransmit.Publish);
      PublishSlot();
      txs := SerialTransmit.Step(txs, SerialTransmit.Publish);
    }

    method PublishSlot()
      requires ShowsTx(txs) && writer.Filled? && |txs.ring| < txs.cap
      modifies this`writer, this`transmitting, tx`head, port`tie
      ensures ShowsTx(SerialTransmit.AfterPublish(txs))
      ensures tx.head == slot
    {
      hide SplitRing.Slots, Live;
      LiveCount(tx.Slots(), tx.head, tx.tail);
      LivePublish(tx.Slots(), tx.head, tx.tail);
      transmitting := true;
      tx.head := slot;
      port.tie := true;
      writer := SerialTransmit.Idle;
    }

    /** A whole call of write9bit, when there is room. */
    method Write(c: word)
      requires Valid() && writer.Idle? && |txs.ring| < txs.cap
      modifies this`writer, this`slot, this`transmitting, this`txs, tx`head, tx`tail, tx.buffer, tx.storage
      modifies port`tie, port`txFifo
      ensures Valid() && writer.Idle? && tx.head == Next(tx.totalSize, old(tx.head))
      ensures txs.ring == old(txs).ring + [SerialReceive.Narrow(width, c)] && txs.cap == old(txs).cap
      ensures txs.published == old(txs).published + [SerialReceive.Narrow(width, c)]
    {
      hide Valid, SerialReceive.Narrow, SplitRing.Valid, SplitRing.Slots, Live;
      WriterShown();
      WriteBegin(c);
      WriterShown();
      WritePoll(false);
      WriterShown();
      WriteFill();
      WriterShown();
      WritePublish();
      WriterShown();
    }

    method AvailableForWrite() returns (r: nat)
      requires Valid()
      ensures r + |txs.ring| == txs.cap == tx.totalSize - 1
    {
      LiveCount(tx.Slots(), tx.head, tx.tail);
      if tx.head >= tx.tail {
        var above: nat := tx.totalSize - 1 - tx.head;
        r := above + tx.tail;
      } else {
        var gap: nat := tx.tail - tx.head;
        r := gap - 1;
      }
    }

    // ----- The UART

    /** The UART starts or finishes sending a word. */
    method Shift()
      requires Valid() && (port.shifting.Some? || port.txFifo != [])
      modifies this`txs, port`txFifo, port`shifting
      ensures Valid() && txs == SerialTransmit.Step(old(txs), SerialTransmit.Shift)
    {
      SerialTransmit.StepKeepsInv(txs, SerialTransmit.Shift);
      if port.shifting.Some? {
        port.shifting := None;
      } else {
        port.shifting := Some(port.txFifo[0]);
        port.txFifo := port.txFifo[1..];
      }
      txs := SerialTransmit.Step(txs, SerialTransmit.Shift);
    }

    method Arrive(w: word)
      requires Valid() && |port.rxFifo| < FIFO_DEPTH
      modifies this`rxs, port`rxFifo
      ensures Valid() && rxs == SerialReceive.Step(old(rxs), SerialReceive.Arrive(w))
    {
      SerialReceive.StepKeepsInv(rxs, SerialReceive.Arrive(w));
      port.rxFifo := port.rxFifo + [w];
      rxs := SerialReceive.Step(rxs, SerialReceive.Arrive(w));
    }

    // ----- IRQHandler

    /** The handler receives on a request by the FIFO or the idle flag, and sends as much as it can if its interrupt
      is enabled and the FIFO at or below its watermark. An emptied ring switches to the completion interrupt, and
      completion lowers the flag. */
    method IRQHandler()
      requires Valid()
      modifies this`transmitting, this`txs, this`rxs, tx`tail, rx`head, rx.buffer, rx.storage, port
      ensures Valid()
      ensures txs == SerialTransmit.Step(old(txs), SerialTransmit.Irq)
      ensures rxs == SerialReceive.Step(old(rxs), SerialReceive.Irq(old(port.idle)))
      ensures SerialReceive.Handled(old(|port.rxFifo| > RX_WATER || port.idle), rx.totalSize - 1, width,
                                    old(ToRead()), old(port.rxFifo), ToRead(), port.rxFifo)
      ensures !port.idle
      ensures port.txFifo + ToSend() == old(port.txFifo) + old(ToSend()) && old(port.txFifo) <= port.txFifo
      ensures if old(port.tie && |port.txFifo| <= TX_WATER) then |port.txFifo| == FIFO_DEPTH || ToSend() == []
              else port.txFifo == old(port.txFifo)
      ensures var emptied := old(port.tie && |port.txFifo| <= TX_WATER) && ToSend() == [];
              var done := old(port.tcie) && port.txFifo == [] && port.shifting.None?;
              && port.tie == (old(port.tie) && !emptied) && port.tcie == ((old(port.tcie) || emptied) && !done)
              && transmitting == (old(transmitting) && !done)
    {
      hide SerialTransmit.Inv, SerialReceive.Inv, SerialTransmit.AfterIrq, SerialReceive.AfterIrq, ShowsTx, ShowsRx,
           SerialReceive.Handled;
      WidthIsPositive();
      ShownTx(txs);
      ShownRx(rxs);
      SerialTransmit.IrqSends(txs);
      SerialReceive.IrqReceives(rxs, port.idle);
      Handle();
      ShownTx(txs);
      ShownRx(rxs);
    }

    /** One run of the handler is one step of each protocol. */
    method Handle()
      requires Valid()
      modifies this`transmitting, this`txs, this`rxs, tx`tail, rx`head, rx.buffer, rx.storage, port
      ensures Valid() && port.shifting == old(port.shifting) && !port.idle
      ensures txs == SerialTransmit.Step(old(txs), SerialTransmit.Irq)
      ensures rxs == SerialReceive.Step(old(rxs), SerialReceive.Irq(old(port.idle)))
    {
      hide SerialTransmit.Inv, SerialReceive.Inv, SerialTransmit.AfterIrq, SerialReceive.AfterIrq, ShowsTx, ShowsRx;
      ShownRx(rxs);
      SerialReceive.InvFacts(rxs);
      SerialTransmit.StepKeepsInv(txs, SerialTransmit.Irq);
      SerialReceive.StepKeepsInv(rxs, SerialReceive.Irq(port.idle));
      ghost var idle := port.idle;
      HandleReceive();
      HandleTransmit();
      txs := SerialTransmit.Step(txs, SerialTransmit.Irq);
      rxs := SerialReceive.Step(rxs, SerialReceive.Irq(idle));
    }

    method HandleReceive()
      requires ShowsRx(rxs) && width > 0 && |rxs.ring| <= rxs.cap && |rxs.fifo| <= |rxs.arrived|
      modifies rx`head, rx.buffer, rx.storage, port`rxFifo, port`idle
      ensures ShowsRx(SerialReceive.AfterIrq(rxs, old(port.idle))) && !port.idle
    {
      hide SplitRing.Slots, Live, SerialReceive.NarrowAll, SerialReceive.Narrow;
      if port.Rdrf() || port.idle {
        ghost var k := 0;
        var avail, head: nat := |port.rxFifo|, rx.head;
        EmptyCut(rxs.fifo, rxs.ring);
        while avail > 0
          invariant avail == |port.rxFifo| && k + avail == |rxs.fifo| && port.rxFifo == rxs.fifo[k..]
          invariant rx.Valid() && head < rx.totalSize && rx.head == old(rx.head)
          invariant Live(rx.Slots(), head, rx.tail) == With(rxs, k)
        {
          assert port.rxFifo[0] == rxs.fifo[k];
          head := MoveIn(head, k);
          k, avail := k + 1, avail - 1;
        }
        rx.head := head;
        port.idle := false;
      }
    }

    /** The ring with those of the first k words of the FIFO that fit. */
    ghost function With(t: SerialReceive.Rx, k: nat): seq<word>
      requires width > 0 && |t.ring| <= t.cap && k <= |t.fifo|
    {
      t.ring + SerialReceive.NarrowAll(width, t.fifo[..Min(k, t.cap - |t.ring|)])
    }

    /** One word of the FIFO goes into the ring, unless that is full. */
    method MoveIn(head: nat, ghost k: nat) returns (moved: nat)
      requires rx.Valid() && rxs.cap == rx.totalSize - 1 && width > 0 && |rxs.ring| <= rxs.cap
      requires k < |rxs.fifo| && port.rxFifo == rxs.fifo[k..] && head < rx.totalSize
      requires Live(rx.Slots(), head, rx.tail) == With(rxs, k)
      modifies rx.buffer, rx.storage, port`rxFifo
      ensures port.rxFifo == rxs.fifo[k + 1..] && moved < rx.totalSize
      ensures Live(rx.Slots(), moved, rx.tail) == With(rxs, k + 1)
    {
      hide SplitRing.Slots, Live, SerialReceive.Narrow;
      LiveCount(rx.Slots(), head, rx.tail);
      var n := port.ReadData();
      assert n == rxs.fifo[k];
      moved := head;
      var newHead := Next(rx.totalSize, head);
      if newHead != rx.tail {
        Cut(rxs.fifo, k);
        LiveStore(rx.Slots(), head, rx.tail, SerialReceive.Narrow(width, n));
        rx.Store(newHead, SerialReceive.Narrow(width, n));
        LivePublish(rx.Slots(), head, rx.tail);
        moved := newHead;
      }
    }

    lemma EmptyCut(s: seq<word>, ring: seq<word>)
      requires width > 0
      ensures ring + SerialReceive.NarrowAll(width, s[..0]) == ring
    {}

    /** One more word of the FIFO in the ring. */
    lemma Cut(s: seq<word>, k: nat)
      requires k < |s| && width > 0
      ensures SerialReceive.NarrowAll(width, s[..k + 1])
           == SerialReceive.NarrowAll(width, s[..k]) + [SerialReceive.Narrow(width, s[k])]
    {
      assert s[..k + 1] == s[..k] + [s[k]];
      SerialReceive.NarrowConcat(width, s[..k], [s[k]]);
      SerialReceive.NarrowOne(width, s[k]);
    }

    method HandleTransmit()
      requires ShowsTx(txs) && SerialTransmit.Inv(txs)
      modifies this`transmitting, tx`tail, port`txFifo, port`tie, port`tcie
      ensures ShowsTx(SerialTransmit.AfterIrq(txs))
    {
      hide SplitRing.Slots, Live, SerialTransmit.Inv, SerialTransmit.AfterMoves;
      var tcie := port.tcie;
      HandleMoves();
      if tcie && port.Tc() {
        transmitting := false;
        port.tcie := false;
      }
    }

    method HandleMoves()
      requires ShowsTx(txs) && SerialTransmit.Inv(txs)
      modifies tx`tail, port`txFifo, port`tie, port`tcie
      ensures ShowsTx(SerialTransmit.AfterMoves(txs))
    {
      hide SplitRing.Slots, Live, SerialTransmit.Inv;
      if port.tie && port.Tdre() {
        MoveWords();
        LiveCount(tx.Slots(), tx.head, tx.tail);
        if tx.head == tx.tail {
          port.tie := false;
          port.tcie := true;
        }
      } else {
        assert SerialTransmit.Send(txs, 0) == txs;
      }
    }

    /** Words of the ring go to the port while there are any and the FIFO has room. */
    method MoveWords()
      requires ShowsTx(txs) && SerialTransmit.Inv(txs) && port.tie && port.Tdre()
      modifies tx`tail, port`txFifo
      ensures ShowsTx(SerialTransmit.Send(txs, SerialTransmit.IrqMoves(txs)))
    {
      hide SplitRing.Slots, Live;
      ghost var k := 0;
      var tail: nat, room := tx.tail, true;
      while room
        invariant k <= |txs.ring| && |txs.fifo| + k <= FIFO_DEPTH
        invariant room <==> |txs.fifo| + k < FIFO_DEPTH
        invariant port.txFifo == txs.fifo + txs.ring[..k]
        invariant tx.Valid() && tail < tx.totalSize && tx.tail == old(tx.tail)
        invariant Live(tx.Slots(), tx.head, tail) == txs.ring[k..]
        decreases |txs.ring| - k
      {
        LiveCount(tx.Slots(), tx.head, tail);
        if tx.head == tail { break; }
        LivePop(tx.Slots(), tx.head, tail);
        tail := Next(tx.totalSize, tail);
        var n := tx.Load(tail);
        port.WriteData(n);
        room := |port.txFifo| < FIFO_DEPTH;
        k := k + 1;
      }
      tx.tail := tail;
    }

    /** flush: while the flag is up, the UART and the handler carry on, and order(n) says which comes first when
      both could. */
    method Flush(order: nat -> bool)
      requires Valid()
      modifies this`transmitting, this`txs, this`rxs, tx`tail, rx`head, rx.buffer, rx.storage, port
      ensures Valid() && !transmitting
      ensures txs.wire == txs.published == old(txs.published)
    {
      hide SerialTransmit.Inv, SerialReceive.Inv, ShowsRx, SerialTransmit.AfterIrq, SerialReceive.AfterIrq;
      var n := 0;
      while transmitting
        invariant Valid() && txs.published == old(txs.published)
        decreases SerialTransmit.Work(txs)
      {
        SerialTransmit.SomethingDrains(txs);
        var canShift := port.shifting.Some? || port.txFifo != [];
        var requested := (port.tie && port.Tdre()) || (port.tcie && port.Tc());
        if canShift && (order(n) || !requested) {
          SerialTransmit.DrainingProgresses(txs, SerialTransmit.Shift);
          Shift();
        } else {
          SerialTransmit.DrainingProgresses(txs, SerialTransmit.Irq);
          IRQHandler();
        }
        n := n + 1;
      }
      SerialTransmit.FlagDown(txs);
    }

    // ----- read and peek

    method ReadSample(peek: bool)
      requires Valid() && reader.Idle?
      modifies this`reader, this`rxs
      ensures Valid() && rxs == SerialReceive.Step(old(rxs), SerialReceive.Sample(peek))
    {
      hide SerialTransmit.Inv, SerialReceive.Inv, ShowsTx, ShowsRx;
      ShownRx(rxs);
      SerialReceive.StepKeepsInv(rxs, SerialReceive.Sample(peek));
      LookFirst(peek);
      rxs := SerialReceive.Step(rxs, SerialReceive.Sample(peek));
    }

    method LookFirst(peek: bool)
      requires ShowsRx(rxs) && reader.Idle?
      modifies this`reader
      ensures var next := if rxs.ring == [] then SerialReceive.Checking(peek) else SerialReceive.Going(peek);
              ShowsRx(rxs.(reader := next))
    {
      hide SplitRing.Slots, Live;
      LiveCount(rx.Slots(), rx.head, rx.tail);
      reader := if rx.head == rx.tail then SerialReceive.Checking(peek) else SerialReceive.Going(peek);
    }

    /** With interrupts off. peek puts the word it takes from the FIFO into slot 1 of the reset ring. */
    method ReadCheck() returns (r: SerialReceive.Answer)
      requires Valid() && reader.Checking?
      modifies this`reader, this`rxs, port`rxFifo, rx`head, rx`tail, rx.buffer
      ensures Valid() && rxs == SerialReceive.Step(old(rxs), SerialReceive.Check)
      ensures r == SerialReceive.Result(old(rxs), SerialReceive.Check)
    {
      hide SerialTransmit.Inv, SerialReceive.Inv, SerialReceive.AfterCheck, ShowsTx, ShowsRx;
      ShownRx(rxs);
      SerialReceive.InvFacts(rxs);
      SerialReceive.StepKeepsInv(rxs, SerialReceive.Check);
      r := LookAgain();
      rxs := SerialReceive.Step(rxs, SerialReceive.Check);
    }

    method LookAgain() returns (r: SerialReceive.Answer)
      requires ShowsRx(rxs) && reader.Checking? && width > 0
      modifies this`reader, port`rxFifo, rx`head, rx`tail, rx.buffer
      ensures ShowsRx(SerialReceive.AfterCheck(rxs)) && r == SerialReceive.Result(rxs, SerialReceive.Check)
    {
      hide Live;
      LiveCount(rx.Slots(), rx.head, rx.tail);
      r := SerialReceive.Pending;
      if rx.head == rx.tail {
        r := SerialReceive.Nothing;
        if |port.rxFifo| != 0 {
          var c := port.ReadData();
          if reader.peek {
            rx.head, rx.tail := 1, 0;
            rx.buffer[1] := SerialReceive.Narrow(width, c);
            LiveOne(rx.Slots());
            assert rx.Slots()[1] == rx.buffer[1];
          }
          r := SerialReceive.Word(c);
        }
        reader := SerialReceive.Idle;
      } else {
        reader := SerialReceive.Going(reader.peek);
      }
    }

    method ReadLoad() returns (r: SerialReceive.Answer)
      requires Valid() && reader.Going?
      modifies this`reader, this`rxs
      ensures Valid() && rxs == SerialReceive.Step(old(rxs), SerialReceive.Load)
      ensures r == SerialReceive.Result(old(rxs), SerialReceive.Load)
    {
      hide SerialTransmit.Inv, SerialReceive.Inv, ShowsTx, ShowsRx;
      ShownRx(rxs);
      SerialReceive.InvFacts(rxs);
      SerialReceive.StepKeepsInv(rxs, SerialReceive.Load);
      r := LoadFirst();
      rxs := SerialReceive.Step(rxs, SerialReceive.Load);
    }

    method LoadFirst() returns (r: SerialReceive.Answer)
      requires ShowsRx(rxs) && reader.Going? && rxs.ring != []
      modifies this`reader
      ensures ShowsRx(rxs.(reader := if reader.Loaded? then SerialReceive.Loaded(rxs.ring[0]) else SerialReceive.Idle))
      ensures reader.Loaded? <==> !old(reader).peek
      ensures r == SerialReceive.Result(rxs, SerialReceive.Load)
    {
      hide SplitRing.Slots, Live;
      LiveCount(rx.Slots(), rx.head, rx.tail);
      LivePop(rx.Slots(), rx.head, rx.tail);
      var c := rx.Load(Next(rx.totalSize, rx.tail));
      r := if reader.peek then SerialReceive.Word(c) else SerialReceive.Pending;
      reader := if reader.peek then SerialReceive.Idle else SerialReceive.Loaded(c);
    }

    method ReadStore() returns (r: SerialReceive.Answer)
      requires Valid() && reader.Loaded?
      modifies this`reader, this`rxs, rx`tail
      ensures Valid() && rxs == SerialReceive.Step(old(rxs), SerialReceive.Store)
      ensures r == SerialReceive.Result(old(rxs), SerialReceive.Store)
    {
      hide SerialTransmit.Inv, SerialReceive.Inv, ShowsTx, ShowsRx;
      ShownRx(rxs);
      SerialReceive.InvFacts(rxs);
      SerialReceive.StepKeepsInv(rxs, SerialReceive.Store);
      r := DropFirst();
      rxs := SerialReceive.Step(rxs, SerialReceive.Store);
    }

    method DropFirst() returns (r: SerialReceive.Answer)
      requires ShowsRx(rxs) && rxs.reader.Loaded? && rxs.ring != []
      modifies this`reader, rx`tail
      ensures ShowsRx(rxs.(reader := SerialReceive.Idle, ring := rxs.ring[1..],
                           returned := rxs.returned + [rxs.reader.c]))
      ensures r == SerialReceive.Word(old(reader).c)
    {
      hide SplitRing.Slots, Live;
      LiveCount(rx.Slots(), rx.head, rx.tail);
      LivePop(rx.Slots(), rx.head, rx.tail);
      r := SerialReceive.Word(reader.c);
      rx.tail := Next(rx.totalSize, rx.tail);
      reader := SerialReceive.Idle;
    }

    method Available() returns (r: nat)
      requires Valid()
      ensures r == |rxs.ring| + |rxs.fifo|
    {
      LiveCount(rx.Slots(), rx.head, rx.tail);
      if rx.head >= rx.tail {
        r := rx.head - rx.tail;
      } else {
        r := rx.totalSize + rx.head - rx.tail;
      }
      r := r + |port.rxFifo|;
    }
  }

  /** Write a word into a ring of two slots, let the handler send it, begin another write, then add a slot: the
    write has taken slot 0, and the slot behind the head is now slot 2. */
  method AddWhileWriting() returns (serial: HardwareSerial)
    ensures !serial.Valid() && serial.slot == 0 && serial.tx.totalSize == 3
  {
    hide HardwareSerial.Valid, SerialTransmit.Inv, SerialReceive.Inv, SplitRing.Valid, SplitRing.Slots, Live;
    var port := new Uart();
    var tx := new SplitRing(2);
    var rx := new SplitRing(2);
    serial := new HardwareSerial(port, tx, rx, false);
    serial.WriterShown();
    serial.Write(7);
    serial.IRQHandler();
    serial.WriteBegin(8);
    var memory := new word[1](i => 0);
    serial.WriterShown();
    serial.AddMemoryForWrite(memory, 1);
  }

  /** The two rings share no memory. */
  ghost predicate Apart(tx: SplitRing, rx: SplitRing)
    reads tx, rx
  {
    && tx.buffer != rx.buffer && tx.buffer != rx.storage && tx.storage != rx.buffer
    && (tx.storage == null || tx.storage != rx.storage)
  }
}
