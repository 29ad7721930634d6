/**
 swu_isr_rx, swu_rx_chr and swu_rx_callback of src/hw/hw_swuart.c with their static variables as fields.
 Every interrupt refines a step of `SwUartReceive`, and every character received is handed to the GPS parser.
 */
module SwUartReceiver {
  import opened Bytes
  import opened SwUartReceive
  import opened GpsParser
  import Nmea

  const RXBUFF_LEN := 256
  const SW_UART_BUFF_LEN := 256

  lemma BitEight(x: nat)
    ensures BitSet(x, 8) <==> x / 256 % 2 == 1
  {
    assert x / 2 / 2 / 2 / 2 / 2 / 2 / 2 / 2 == x / 256;
  }

  class ReceiverDevice {
    const gps: Gps
    const rxFifo: array<nat>
    const mailbox: array<byte>
    var rxWr: nat
    var rxRd: nat
    var mailPos: nat
    var mailReady: bool
    /** swu_rx_chr_fe */
    var framingError: bool
    var active: bool
    var armedFalling: bool
    var edgeSample: nat
    var swuBit: bool
    var cnt: nat
    var cntBits: nat
    var rbr: nat
    var rbrMask: nat
    var matchTime: nat

    ghost predicate Valid()
      reads this, rxFifo, mailbox, gps, gps.buff
    {
      rxFifo.Length == RXBUFF_LEN && mailbox.Length == SW_UART_BUFF_LEN
      && mailbox != gps.buff && rxFifo as object != gps.buff && rxFifo as object != mailbox
      && rxWr == rxRd < RXBUFF_LEN && mailPos <= SW_UART_BUFF_LEN && gps.Valid()
    }

    ghost function State(): Receiver
      reads this
    {
      Receiver(active, armedFalling, edgeSample, swuBit, cnt, cntBits, rbr, rbrMask, matchTime)
    }

    ghost function Mail(): seq<byte>
      reads this, mailbox
      requires mailPos <= mailbox.Length
    {
      mailbox[..mailPos]
    }

    /** hw_swuart_enable */
    constructor (gps: Gps)
      requires gps.Valid()
      ensures Valid() && fresh(rxFifo) && fresh(mailbox) && this.gps == gps
      ensures State() == RESET && Idle(State()) && Mail() == [] && !mailReady && !framingError
    {
      this.gps := gps;
      rxFifo, mailbox := new nat[RXBUFF_LEN], new byte[SW_UART_BUFF_LEN];
      rxWr, rxRd, mailPos, mailReady, framingError := 0, 0, 0, false, false;
      active, armedFalling, edgeSample, swuBit := false, true, 0, false;
      cnt, cntBits, rbr, rbrMask, matchTime := 0, 0, 0, 0, 0;
    }

    /** The loop that samples the bits before an edge. */
    method SampleBits(edge: nat, bitLength: nat)
      requires bitLength > 0
      modifies this`rbr, this`rbrMask, this`cntBits, this`edgeSample, this`cnt
      ensures State() == SampleUntil(old(State()), edge, bitLength)
    {
      while edge > edgeSample
        invariant SampleUntil(State(), edge, bitLength) == SampleUntil(old(State()), edge, bitLength)
        decreases edge - edgeSample
      {
        if cntBits != 0 {
          if swuBit {
            rbr := Or(rbr, rbrMask);
          }
          rbrMask := rbrMask * 2 % 0x1_0000_0000;
        }
        cntBits := (cntBits + 1) % 256;
        edgeSample := edgeSample + bitLength;
        cnt := (cnt + 255) % 256;
      }
    }

    /** The capture half of swu_isr_rx. */
    method OnCapture(edge: nat, bitLength: nat, stopSample: nat)
      requires bitLength > 0
      modifies this`active, this`armedFalling, this`edgeSample, this`swuBit, this`cnt, this`cntBits
      modifies this`rbr, this`rbrMask, this`matchTime
      ensures State() == Capture(old(State()), edge, bitLength, stopSample)
    {
      armedFalling := !armedFalling;
      if !active {
        edgeSample := edge + bitLength / 2;
        swuBit := false;
        matchTime := edgeSample + stopSample;
        cnt, active, rbr, rbrMask := 9, true, 0, 1;
      } else {
        SampleBits(edge, bitLength);
        swuBit := !swuBit;
      }
    }

    /** swu_rx_chr */
    method RxChr() returns (c: byte)
      requires rxFifo.Length == RXBUFF_LEN && rxRd < RXBUFF_LEN
      modifies this`rxRd, this`framingError
      ensures rxRd == (old(rxRd) + 1) % 256 && c == rxFifo[rxRd] % 256
      ensures framingError == (rxFifo[rxRd] / 256 % 2 == 1)
    {
      rxRd := rxRd + 1;
      if rxRd == RXBUFF_LEN {
        rxRd := 0;
      }
      framingError := BitSet(rxFifo[rxRd], 8);
      BitEight(rxFifo[rxRd]);
      c := rxFifo[rxRd] % 256;
    }

    /** The word goes into the receive FIFO. */
    method StoreWord(word: nat)
      requires rxFifo.Length == RXBUFF_LEN && rxWr < RXBUFF_LEN
      modifies this`rxWr, rxFifo
      ensures rxWr == (old(rxWr) + 1) % 256 && rxFifo[rxWr] == word
    {
      rxWr := rxWr + 1;
      if rxWr == RXBUFF_LEN {
        rxWr := 0;
      }
      rxFifo[rxWr] := word;
    }

    /** A character joins SW_UART_BUFF, or finds it full and empties it. */
    method SaveChar(c: byte)
      requires mailbox.Length == SW_UART_BUFF_LEN && mailPos <= SW_UART_BUFF_LEN
      modifies this`mailPos, this`mailReady, mailbox
      ensures mailPos <= SW_UART_BUFF_LEN
      ensures Mail() == if old(mailPos) < 256 then old(Mail()) + [c] else []
      ensures mailReady == (old(mailReady) || old(mailPos) == 256)
    {
      if mailPos < SW_UART_BUFF_LEN {
        mailbox[mailPos] := c;
        mailPos := mailPos + 1;
        assert mailbox[..mailPos] == old(mailbox[..mailPos]) + [c];
      } else {
        mailReady, mailPos := true, 0;
      }
    }

    /** The word received is stored, and swu_rx_callback reads it back. */
    method Deliver(word: nat)
      requires Valid() && Nmea.CanConsume(gps.State(), word % 256)
      modifies this`rxWr, this`rxRd, this`framingError, this`mailPos, this`mailReady
      modifies rxFifo, mailbox, gps, gps.buff
      ensures Valid() && gps.State() == Nmea.Consume(gps.lib, old(gps.State()), word % 256).0
      ensures Mail() == if old(mailPos) < 256 then old(Mail()) + [word % 256] else []
      ensures mailReady == (old(mailReady) || old(mailPos) == 256) && framingError == (word / 256 % 2 == 1)
    {
      StoreWord(word);
      var c := RxChr();
      var _ := gps.Consume(c);
      SaveChar(c);
    }

    /** The stop-bit half of swu_isr_rx, up to the word that goes into the FIFO. */
    method EndOfChar() returns (word: nat)
      requires ShiftsDefined(State())
      modifies this`active, this`cntBits, this`rbr
      ensures word == StoredWord(old(State())) && State() == Finish(old(State()))
    {
      word := rbr;
      if cnt != 0 {
        word := Shl(word, cnt);
        if swuBit {
          word := (word + Shl(0xFF, 8 - cnt)) % 0x1_0000_0000;
        }
      }
      word := word % 256;
      if !swuBit {
        word := word + 256;
      }
      rbr := word;
      active := false;
      cntBits := 0;
    }

    /**
     swu_isr_rx. The character that ends in this interrupt, if any, leaves the FIFO at once and reaches the
     parser; otherwise nothing but the receiver's own variables changes.
     */
    method Isr(ev: LineEvent, bitLength: nat, stopSample: nat)
      requires Valid() && bitLength > 0 && Raised(State(), ev) && Defined(State(), ev, bitLength, stopSample)
      requires var word := Interrupt(State(), ev, bitLength, stopSample).1;
               word.Some? ==> Nmea.CanConsume(gps.State(), word.value % 256)
      modifies this, rxFifo, mailbox, gps, gps.buff
      ensures Valid() && State() == Interrupt(old(State()), ev, bitLength, stopSample).0
      ensures var word := Interrupt(old(State()), ev, bitLength, stopSample).1;
              if word.Some? then gps.State() == Nmea.Consume(gps.lib, old(gps.State()), word.value % 256).0
              else gps.State() == old(gps.State()) && Mail() == old(Mail())
                   && mailReady == old(mailReady) && framingError == old(framingError)
      ensures var word := Interrupt(old(State()), ev, bitLength, stopSample).1;
              word.Some? ==>
                Mail() == (if old(mailPos) < 256 then old(Mail()) + [word.value % 256] else [])
                && mailReady == (old(mailReady) || old(mailPos) == 256) && framingError == (word.value / 256 % 2 == 1)
    {
      if ev.Edge? {
        OnCapture(ev.time, bitLength, stopSample);
      }
      if ev.Match? || ev.matched || ev.now >= matchTime {
        var word := EndOfChar();
        Deliver(word);
      }
    }
  }
}
