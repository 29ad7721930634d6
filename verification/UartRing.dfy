/**
 The ring buffers of src/hw/hw_uart.c, with their arrays and indices. Each operation refines one on the queue
 of bytes that the ring holds.
 */
module UartRing {
  import opened Bytes
  import opened UartQueue

  const UART_RING_BUFSIZE := 2048

  function Incr(i: nat): nat { if i + 1 == UART_RING_BUFSIZE then 0 else i + 1 }

  /** (head - tail) & __BUF_MASK */
  function Available(head: nat, tail: nat): (n: nat)
    requires head < UART_RING_BUFSIZE && tail < UART_RING_BUFSIZE
    ensures n <= CAPACITY && (n == 0 <==> head == tail) && (n == CAPACITY <==> tail == Incr(head))
  {
    if tail <= head then head - tail else head + UART_RING_BUFSIZE - tail
  }

  /** The bytes from tail up to head, in the order written. */
  function Held(ring: seq<byte>, head: nat, tail: nat): (q: seq<byte>)
    requires |ring| == UART_RING_BUFSIZE && head < UART_RING_BUFSIZE && tail < UART_RING_BUFSIZE
    ensures |q| == Available(head, tail)
    decreases Available(head, tail)
  {
    if head == tail then [] else [ring[tail]] + Held(ring, head, Incr(tail))
  }

  /** Writing at head and advancing it appends, unless the ring is full. */
  lemma {:induction false} HeldAppend(ring: seq<byte>, head: nat, tail: nat, b: byte)
    requires |ring| == UART_RING_BUFSIZE && head < UART_RING_BUFSIZE && tail < UART_RING_BUFSIZE
    requires tail != Incr(head)
    ensures Held(ring[head := b], Incr(head), tail) == Held(ring, head, tail) + [b]
    decreases Available(head, tail)
  {
    if head != tail {
      HeldAppend(ring, head, Incr(tail), b);
    } else {
      assert Held(ring[head := b], Incr(head), Incr(tail)) == [];
    }
  }

  class Ring {
    const data: array<byte>
    var head: nat
    var tail: nat

    ghost predicate Valid()
      reads this
    {
      data.Length == UART_RING_BUFSIZE && head < UART_RING_BUFSIZE && tail < UART_RING_BUFSIZE
    }

    ghost function Contents(): (q: seq<byte>)
      reads this, data
      requires Valid()
      ensures |q| == Available(head, tail)
    {
      Held(data[..], head, tail)
    }

    constructor ()
      ensures Valid() && fresh(data) && Contents() == []
    {
      data := new byte[UART_RING_BUFSIZE];
      head, tail := 0, 0;
    }

    method Put(b: byte)
      requires Valid() && tail != Incr(head)
      modifies this`head, data
      ensures Valid() && Contents() == old(Contents()) + [b]
    {
      HeldAppend(data[..], head, tail, b);
      data[head] := b;
      assert data[..] == old(data[..])[head := b];
      head := Incr(head);
    }

    method Get() returns (b: byte)
      requires Valid() && head != tail
      modifies this`tail
      ensures Valid() && [b] + Contents() == old(Contents())
    {
      b := data[tail];
      tail := Incr(tail);
    }

    /** UART_IntReceive: the hardware FIFO holds these bytes, oldest first */
    method IntReceive(bytes: seq<byte>)
      requires Valid()
      modifies this`head, data
      ensures Valid() && Contents() == Arrive(old(Contents()), bytes)
    {
      var i := 0;
      while i < |bytes|
        invariant 0 <= i <= |bytes| && Valid()
        invariant Arrive(Contents(), bytes[i..]) == Arrive(old(Contents()), bytes)
      {
        if tail != Incr(head) {
          Put(bytes[i]);
        }
        assert bytes[i..][1..] == bytes[i + 1..];
        i := i + 1;
      }
      assert bytes[i..] == [];
    }

    /** hw_uart_rx_available */
    method RxAvailable() returns (n: nat)
      requires Valid()
      ensures n == |Contents()|
    {
      n := Available(head, tail);
    }

    /** hw_uart_receive: fills a buffer of the given length as far as the ring goes */
    method Receive(buflen: nat) returns (read: seq<byte>)
      requires Valid()
      modifies this`tail
      ensures Valid()
      ensures var n := Min(buflen, |old(Contents())|);
              read == old(Contents())[..n] && Contents() == old(Contents())[n..]
    {
      read := [];
      while |read| < buflen && head != tail
        invariant Valid() && |read| <= buflen
        invariant read + Contents() == old(Contents())
        decreases |Contents()|
      {
        var b := Get();
        assert read + ([b] + Contents()) == read + [b] + Contents();
        read := read + [b];
      }
    }

    /** The loop of hw_uart_send: puts in as much as there is room for, and says how much that was */
    method Fill(txbuf: seq<byte>) returns (bytes: nat)
      requires Valid()
      modifies this`head, data
      ensures Valid() && bytes == Min(|txbuf|, CAPACITY - |old(Contents())|)
      ensures Contents() == old(Contents()) + txbuf[..bytes]
    {
      bytes := 0;
      while bytes < |txbuf| && tail != Incr(head)
        invariant 0 <= bytes <= |txbuf| && Valid()
        invariant Contents() == old(Contents()) + txbuf[..bytes]
      {
        Put(txbuf[bytes]);
        assert old(Contents()) + txbuf[..bytes] + [txbuf[bytes]] == old(Contents()) + txbuf[..bytes + 1];
        bytes := bytes + 1;
      }
    }

    /** The loop of UART_IntTransmit: the hardware FIFO takes bytes until it has no more room */
    method Empty(room: nat) returns (sent: seq<byte>)
      requires Valid()
      modifies this`tail
      ensures Valid() && |sent| == Min(room, |old(Contents())|) && sent + Contents() == old(Contents())
    {
      sent := [];
      while head != tail
        invariant Valid() && |sent| <= room && sent + Contents() == old(Contents())
        decreases |Contents()|
      {
        if |sent| == room {
          break;
        }
        var b := Get();
        assert sent + ([b] + Contents()) == sent + [b] + Contents();
        sent := sent + [b];
      }
    }
  }

  /** The receive side of a port: its ring, and the callback's progress. */
  class Port {
    const rx: Ring
    const tx: Ring
    var promised: Option<nat>
    var thrEnabled: bool
    /** TxIntStat. The three ports share it, so nothing is assumed of it when a call begins. */
    var txIntSet: bool
    ghost var delivered: seq<byte>
    ghost var accepted: seq<byte>
    ghost var sent: seq<byte>

    ghost predicate Valid()
      reads this, rx, rx.data, tx, tx.data
    {
      rx != tx && rx.data != tx.data && rx.Valid() && tx.Valid()
      && Sound(State()) && accepted == sent + tx.Contents()
    }

    ghost function State(): Receiver
      reads this, rx, rx.data
      requires rx.Valid()
    {
      Receiver(rx.Contents(), promised, delivered, true)
    }

    constructor ()
      ensures Valid() && fresh(rx) && fresh(rx.data) && fresh(tx) && fresh(tx.data)
      ensures State() == EMPTY && accepted == [] && sent == [] && !thrEnabled && !txIntSet
    {
      rx := new Ring();
      tx := new Ring();
      promised, thrEnabled, txIntSet := None, false, false;
      delivered, accepted, sent := [], [], [];
    }

    method RxInterrupt(bytes: seq<byte>)
      requires Valid()
      modifies rx`head, rx.data
      ensures Valid() && State() == Step(old(State()), Interrupt(bytes))
    {
      ArriveIsAppend(rx.Contents(), bytes);
      rx.IntReceive(bytes);
    }

    /** uart_rx_event_callback up to the allocation of its buffer */
    method LookUpAvailable()
      requires Valid() && promised == None
      modifies this`promised
      ensures Valid() && State() == Step(old(State()), LookUp)
    {
      var n := rx.RxAvailable();
      promised := Some(n);
    }

    /** The rest of uart_rx_event_callback; the assertion in it is the one the source makes. */
    method DrainAvailable() returns (buffer: seq<byte>)
      requires Valid() && promised.Some?
      modifies this`promised, this`delivered, rx`tail
      ensures Valid() && State() == Step(old(State()), Drain) && |buffer| == old(promised.value)
      ensures delivered == old(delivered) + buffer
    {
      buffer := rx.Receive(promised.value);
      assert |buffer| == promised.value;
      delivered := delivered + buffer;
      promised := None;
    }

    /** The loop of UART_IntTransmit. The transmit ring is touched only while its interrupt is off. */
    method SendHeld(room: nat)
      requires Valid() && !thrEnabled
      modifies this`sent, tx`tail
      ensures Valid() && old(sent) <= sent && |sent| == |old(sent)| + Min(room, |old(tx.Contents())|)
    {
      var now := tx.Empty(room);
      assert old(sent) + (now + tx.Contents()) == old(sent) + now + tx.Contents();
      sent := sent + now;
    }

    /** UART_IntTransmit, when the hardware FIFO has room for so many bytes */
    method IntTransmit(room: nat)
      requires Valid()
      modifies this`thrEnabled, this`txIntSet, this`sent, tx`tail
      ensures Valid() && accepted == old(accepted) && |sent| == |old(sent)| + Min(room, |old(tx.Contents())|)
      ensures old(sent) <= sent && thrEnabled == txIntSet == (sent != accepted)
    {
      thrEnabled := false;
      SendHeld(room);
      if tx.head == tx.tail {
        thrEnabled := false;
        txIntSet := false;
      } else {
        txIntSet := true;
        thrEnabled := true;
      }
    }

    /** Puts as much into the transmit ring as there is room for, the interrupt being off. */
    method Queue(txbuf: seq<byte>) returns (bytes: nat)
      requires Valid() && !thrEnabled
      modifies this`accepted, tx`head, tx.data
      ensures Valid() && bytes == Min(|txbuf|, CAPACITY - |old(tx.Contents())|)
      ensures accepted == old(accepted) + txbuf[..bytes] && |tx.Contents()| == |old(tx.Contents())| + bytes
    {
      bytes := tx.Fill(txbuf);
      ConcatAssociates(sent, old(tx.Contents()), txbuf[..bytes]);
      accepted := accepted + txbuf[..bytes];
    }

    /** hw_uart_send */
    method Send(txbuf: seq<byte>, room: nat) returns (bytes: nat)
      requires Valid()
      modifies this`thrEnabled, this`txIntSet, this`sent, this`accepted, tx`head, tx`tail, tx.data
      ensures Valid() && bytes == Min(|txbuf|, CAPACITY - |old(tx.Contents())|)
      ensures accepted == old(accepted) + txbuf[..bytes] && old(sent) <= sent
      ensures if old(txIntSet) then sent == old(sent) && thrEnabled && txIntSet
              else |sent| == |old(sent)| + Min(room, |old(tx.Contents())| + bytes) && thrEnabled == txIntSet == (sent != accepted)
    {
      thrEnabled := false;
      bytes := Queue(txbuf);
      if !txIntSet {
        IntTransmit(room);
      } else {
        thrEnabled := true;
      }
    }
  }
}
