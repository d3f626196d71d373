/** The UART behind a serial port: a FIFO each way and the registers the driver uses after its set-up. */
module Uarts {
  import opened Options

  type word = nat

  const FIFO_DEPTH: nat := 4
  const TX_WATER: nat := 2
  const RX_WATER: nat := 2

  function Min(a: nat, b: nat): nat {
    if a <= b then a else b
  }

  class Uart {
    var tie: bool
    var tcie: bool
    var idle: bool
    var txFifo: seq<word>
    var shifting: Option<word>
    var rxFifo: seq<word>

    constructor ()
      ensures !tie && !tcie && !idle && txFifo == [] && shifting.None? && rxFifo == []
    {
      tie, tcie, idle := false, false, false;
      txFifo, shifting, rxFifo := [], None, [];
    }

    predicate Tdre()
      reads this
    {
      |txFifo| <= TX_WATER
    }

    predicate Tc()
      reads this
    {
      txFifo == [] && shifting.None?
    }

    predicate Rdrf()
      reads this
    {
      |rxFifo| > RX_WATER
    }

    /** A read of DATA takes the first received word. */
    method ReadData() returns (c: word)
      requires rxFifo != []
      modifies this`rxFifo
      ensures c == old(rxFifo)[0] && rxFifo == old(rxFifo)[1..]
    {
      c := rxFifo[0];
      rxFifo := rxFifo[1..];
    }

    /** A write of DATA queues a word for the line. */
    method WriteData(c: word)
      requires |txFifo| < FIFO_DEPTH
      modifies this`txFifo
      ensures txFifo == old(txFifo) + [c]
    {
      txFifo := txFifo + [c];
    }
  }
}
