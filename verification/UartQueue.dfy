/**
 What the ring buffers of src/hw/hw_uart.c are to do: a bounded queue between the receive interrupt and the
 event callback, for any interleaving of the two.
 */
module UartQueue {
  import opened Bytes

  /** One slot of the ring of 2048 always stays free. */
  const CAPACITY := 2047

  /**
   The receive side. `promised` is the number of bytes that uart_rx_event_callback has found available and
   allocated a buffer for but not yet read; `asserted` records whether its assertion has held throughout.
   */
  datatype Receiver = Receiver(queue: seq<byte>, promised: Option<nat>, delivered: seq<byte>, asserted: bool)

  const EMPTY := Receiver([], None, [], true)

  /** A byte that arrives when the queue is full is dropped. */
  function Arrive(queue: seq<byte>, bytes: seq<byte>): (q: seq<byte>)
    ensures |queue| <= CAPACITY ==> |q| == Min(CAPACITY, |queue| + |bytes|)
    decreases bytes
  {
    if bytes == [] then queue
    else Arrive(if |queue| < CAPACITY then queue + [bytes[0]] else queue, bytes[1..])
  }

  datatype Event =
    | Interrupt(bytes: seq<byte>)   // UART_IntReceive finds these bytes in the hardware FIFO
    | LookUp                        // the callback reads hw_uart_rx_available
    | Drain                         // the callback calls hw_uart_receive for that many bytes

  /** The callback looks up before it drains and drains before it looks up again. */
  predicate Enabled(r: Receiver, ev: Event) {
    match ev
    case Interrupt(_) => true
    case LookUp => r.promised.None?
    case Drain => r.promised.Some?
  }

  function Step(r: Receiver, ev: Event): Receiver
    requires Enabled(r, ev)
  {
    match ev
    case Interrupt(bytes) => r.(queue := Arrive(r.queue, bytes))
    case LookUp => r.(promised := Some(|r.queue|))
    case Drain =>
      var n := Min(|r.queue|, r.promised.value);
      r.(queue := r.queue[n..], delivered := r.delivered + r.queue[..n], promised := None,
         asserted := r.asserted && n == r.promised.value)
  }

  predicate Runs(r: Receiver, evs: seq<Event>)
    decreases evs
  {
    evs == [] || (Enabled(r, evs[0]) && Runs(Step(r, evs[0]), evs[1..]))
  }

  function After(r: Receiver, evs: seq<Event>): Receiver
    requires Runs(r, evs)
    decreases evs
  {
    if evs == [] then r else After(Step(r, evs[0]), evs[1..])
  }

  /** Any number of interrupts, and then the drain. */
  function Interrupts(arrivals: seq<seq<byte>>): seq<Event> {
    if arrivals == [] then [Drain] else [Interrupt(arrivals[0])] + Interrupts(arrivals[1..])
  }

  /** Of bytes arriving at a queue that holds n, those that find room. */
  function Accepted(n: nat, bytes: seq<byte>): (r: seq<byte>)
    requires n <= 2047
  {
    bytes[..Min(|bytes|, 2047 - n)]
  }

  /**
   The bytes a run lets in, computed from occupancy alone: `n` bytes are queued and `promised` of them are
   spoken for.
   */
  function Kept(n: nat, promised: Option<nat>, evs: seq<Event>): seq<byte>
    requires n <= 2047
    decreases evs
  {
    if evs == [] then [] else
      match evs[0]
      case Interrupt(bytes) =>
        Accepted(n, bytes) + Kept(Min(2047, n + |bytes|), promised, evs[1..])
      case LookUp => Kept(n, Some(n), evs[1..])
      case Drain =>
        Kept(if promised.Some? && promised.value <= n then n - promised.value else 0, None, evs[1..])
  }

  lemma {:induction false} ArriveIsAppend(queue: seq<byte>, bytes: seq<byte>)
    requires |queue| <= CAPACITY
    ensures Arrive(queue, bytes) == queue + Accepted(|queue|, bytes)
    decreases bytes
  {
    if bytes != [] {
      if |queue| < CAPACITY {
        ArriveIsAppend(queue + [bytes[0]], bytes[1..]);
        assert Accepted(|queue|, bytes) == [bytes[0]] + Accepted(|queue| + 1, bytes[1..]);
      } else {
        ArriveIsAppend(queue, bytes[1..]);
      }
    }
  }

  ghost predicate Sound(r: Receiver) {
    |r.queue| <= CAPACITY && r.asserted && (r.promised.Some? ==> r.promised.value <= |r.queue|)
  }

  /** One step lets in what the occupancy count says, and drops nothing that was queued. */
  lemma StepConserves(r: Receiver, ev: Event)
    requires Sound(r) && Enabled(r, ev)
    ensures var s := Step(r, ev);
            Sound(s) && s.delivered + s.queue
                     == r.delivered + r.queue + if ev.Interrupt? then Accepted(|r.queue|, ev.bytes) else []
  {
    match ev {
      case Interrupt(bytes) =>
        ArriveIsAppend(r.queue, bytes);
        ConcatAssociates(r.delivered, r.queue, Accepted(|r.queue|, bytes));
      case LookUp =>
        assert r.delivered + r.queue + [] == r.delivered + r.queue;
      case Drain =>
        var n := r.promised.value;
        ConcatAssociates(r.delivered, r.queue[..n], r.queue[n..]);
        assert r.queue == r.queue[..n] + r.queue[n..];
        assert r.delivered + r.queue + [] == r.delivered + r.queue;
    }
  }

  lemma KeptSplit(r: Receiver, evs: seq<Event>)
    requires Sound(r) && evs != [] && Enabled(r, evs[0]) && Sound(Step(r, evs[0]))
    ensures var q := Step(r, evs[0]);
            Kept(|r.queue|, r.promised, evs)
            == (if evs[0].Interrupt? then Accepted(|r.queue|, evs[0].bytes) else [])
               + Kept(|q.queue|, q.promised, evs[1..])
  {
    var q := Step(r, evs[0]);
    assert [] + Kept(|q.queue|, q.promised, evs[1..]) == Kept(|q.queue|, q.promised, evs[1..]);
  }

  lemma {:induction false} RunConserves(r: Receiver, evs: seq<Event>)
    requires Sound(r) && Runs(r, evs)
    ensures var s := After(r, evs);
            Sound(s) && s.delivered + s.queue == r.delivered + r.queue + Kept(|r.queue|, r.promised, evs)
    decreases evs
  {
    if evs != [] {
      var q := Step(r, evs[0]);
      StepConserves(r, evs[0]);
      RunConserves(q, evs[1..]);
      var first := if evs[0].Interrupt? then Accepted(|r.queue|, evs[0].bytes) else [];
      var rest := Kept(|q.queue|, q.promised, evs[1..]);
      KeptSplit(r, evs);
      ConcatAssociates(r.delivered + r.queue, first, rest);
    }
  }

  lemma {:induction false} DrainDelivers(r: Receiver, arrivals: seq<seq<byte>>)
    requires Sound(r) && r.promised.Some?
    ensures Runs(r, Interrupts(arrivals))
    ensures var s := After(r, Interrupts(arrivals));
            s.delivered == r.delivered + r.queue[..r.promised.value] && s.promised == None && s.asserted
    decreases arrivals
  {
    if arrivals == [] {
      assert After(Step(r, Drain), [Drain][1..]) == Step(r, Drain);
    } else {
      ArriveIsAppend(r.queue, arrivals[0]);
      DrainDelivers(Step(r, Interrupt(arrivals[0])), arrivals[1..]);
      assert Interrupts(arrivals)[1..] == Interrupts(arrivals[1..]);
    }
  }

  /** The callback delivers exactly what was queued when it looked, whatever arrives while it is at work. */
  lemma CallbackDelivers(r: Receiver, arrivals: seq<seq<byte>>)
    requires Sound(r) && r.promised.None?
    ensures var evs := [LookUp] + Interrupts(arrivals);
            Runs(r, evs) && var s := After(r, evs);
            s.delivered == r.delivered + r.queue && s.promised == None && s.asserted
  {
    assert ([LookUp] + Interrupts(arrivals))[1..] == Interrupts(arrivals);
    DrainDelivers(Step(r, LookUp), arrivals);
    assert r.queue[..|r.queue|] == r.queue;
  }

  /**
   The receive ring refines a bounded queue. For any interleaving of interrupts, look-ups and drains, what has
   been delivered and is still queued is, in order, what arrived less the bytes that found the queue full;
   and the callback always reads as many bytes as it had found available.
   */
  lemma ReceiveConserves(evs: seq<Event>)
    requires Runs(EMPTY, evs)
    ensures var s := After(EMPTY, evs);
            s.asserted && |s.queue| <= 2047 && s.delivered + s.queue == Kept(0, None, evs)
  {
    RunConserves(EMPTY, evs);
    assert [] + [] + Kept(0, None, evs) == Kept(0, None, evs);
  }
}
