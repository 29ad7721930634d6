/**
 The transmitter of the software UART: swu_setup_tx, swu_tx_chr and swu_isr_tx in src/hw/hw_swuart.c with
 their static variables as fields, and the match channel 2 of timer 1 that drives the pin.
 */
module SwUartTransmit {
  import opened Bytes
  import opened SwUartFrame

  const TXBUFF_LEN := 256

  /** A character handed to the line: the byte, its bit length, the timer when it was set up, its edge list. */
  datatype Sent = Sent(b: byte, bitLength: nat, tc: nat, edges: seq<nat>)

  /** The edge list is the one that encodes the byte. */
  predicate Genuine(s: Sent) {
    s.edges == Schedule(Frame(s.b), s.bitLength, s.tc)
  }

  /** What sending a character relies on: there is a falling and a rising edge, and edges come in pairs. */
  predicate Paired(s: Sent) {
    |s.edges| >= 3 && |s.edges| % 2 == 1
  }

  function BytesOf(log: seq<Sent>): (r: seq<byte>)
    ensures |r| == |log|
  {
    seq(|log|, i requires 0 <= i < |log| => log[i].b)
  }

  /** The instants at which the pin toggled over a run of characters: every entry but each last one. */
  function Waveform(log: seq<Sent>): seq<nat> {
    if log == [] then [] else
      var last := log[|log| - 1].edges;
      Waveform(log[..|log| - 1]) + if last == [] then [] else last[..|last| - 1]
  }

  function Next(i: nat): nat {
    if i + 1 == TXBUFF_LEN then 0 else i + 1
  }

  /** (wr - rd) mod 256 */
  function Distance(rd: nat, wr: nat): nat
    requires rd < TXBUFF_LEN && wr < TXBUFF_LEN
  {
    if rd <= wr then wr - rd else wr + TXBUFF_LEN - rd
  }

  /** The FIFO slots after rd, up to and including wr. */
  function Slots(fifo: seq<byte>, rd: nat, wr: nat): (r: seq<byte>)
    requires |fifo| == TXBUFF_LEN && rd < TXBUFF_LEN && wr < TXBUFF_LEN
    ensures |r| == Distance(rd, wr)
    decreases Distance(rd, wr)
  {
    if rd == wr then [] else [fifo[Next(rd)]] + Slots(fifo, Next(rd), wr)
  }

  /** Moving wr forward by one and storing there adds a slot, as long as not all slots are in use. */
  lemma {:induction false} SlotsAppend(fifo: seq<byte>, rd: nat, wr: nat, b: byte)
    requires |fifo| == TXBUFF_LEN && rd < TXBUFF_LEN && wr < TXBUFF_LEN
    requires Distance(rd, wr) < TXBUFF_LEN - 1
    ensures Distance(rd, Next(wr)) == Distance(rd, wr) + 1
    ensures Slots(fifo[Next(wr) := b], rd, Next(wr)) == Slots(fifo, rd, wr) + [b]
    decreases Distance(rd, wr)
  {
    if rd != wr {
      SlotsAppend(fifo, Next(rd), wr, b);
    }
  }

  /** The word that swu_setup_tx tests bit by bit: the data above a zero start bit, ones from bit 9 on. */
  function ExtData(b: byte): nat {
    0xFFFFFE00 + 2 * b
  }

  predicate Halves(c: nat, k: nat)
    decreases k
  {
    k == 0 || (c % 2 == 0 && Halves(c / 2, k - 1))
  }

  lemma {:induction false} ShrSum(c: nat, x: nat, k: nat)
    requires Halves(c, k)
    ensures Shr(c + x, k) == Shr(c, k) + Shr(x, k)
    decreases k
  {
    if k > 0 {
      assert (c + x) / 2 == c / 2 + x / 2;
      ShrSum(c / 2, x / 2, k - 1);
    }
  }

  lemma ShiftedParity(c: nat, x: nat, k: nat)
    requires k >= 1 && Halves(c, k)
    ensures BitSet(c + 2 * x, k) == ((Shr(c, k) % 2 == 1) != (Shr(x, k - 1) % 2 == 1))
  {
    ShiftedWord(c, x, k);
    SumParity(Shr(c, k), Shr(x, k - 1));
  }

  lemma ShiftedWord(c: nat, x: nat, k: nat)
    requires k >= 1 && Halves(c, k)
    ensures Shr(c + 2 * x, k) == Shr(c, k) + Shr(x, k - 1)
  {
    ShrSum(c, 2 * x, k);
    ShrDouble(x, k);
  }

  lemma ShrDouble(x: nat, k: nat)
    requires k >= 1
    ensures Shr(2 * x, k) == Shr(x, k - 1)
  {
    assert 2 * x / 2 == x;
  }

  lemma SumParity(p: nat, q: nat)
    ensures (p + q) % 2 == if p % 2 == 0 then q % 2 else 1 - q % 2
  {}

  lemma ExtDataIsFrame(b: byte)
    ensures forall k :: 1 <= k <= 9 ==> BitSet(ExtData(b), k) == Frame(b)[k]
  {
    forall k | 1 <= k <= 9
      ensures BitSet(ExtData(b), k) == Frame(b)[k]
    {
      HighOnes(k);
      ShiftedParity(0xFFFFFE00, b, k);
      DataBit(b, k);
    }
  }

  lemma HighOnes(k: nat)
    requires 1 <= k <= 9
    ensures Halves(0xFFFFFE00, k) && Shr(0xFFFFFE00, k) % 2 == (if k == 9 then 1 else 0)
  {
    assert Halves(0xFFFFFE00, 9) && Shr(0xFFFFFE00, 9) == 0x7FFFFF;
    if k == 1 {
    } else if k == 2 {
    } else if k == 3 {
    } else if k == 4 {
    } else if k == 5 {
    } else if k == 6 {
    } else if k == 7 {
    } else if k == 8 {
    }
  }

  lemma DataBit(b: byte, k: nat)
    requires 1 <= k <= 9
    ensures if k == 9 then Shr(b, k - 1) == 0 else (Shr(b, k - 1) % 2 == 1) == Frame(b)[k]
  {
    var x1, x2, x3, x4 := b / 2, b / 4, b / 8, b / 16;
    assert x1 / 2 == x2 && x2 / 2 == x3 && x3 / 2 == x4;
    assert x4 / 2 == b / 32 && b / 32 / 2 == b / 64 && b / 64 / 2 == b / 128 && b / 128 / 2 == 0;
    assert Shr(b, k - 1) == if k == 1 then b else Shr(x1, k - 2);
    assert k >= 3 ==> Shr(x1, k - 2) == Shr(x2, k - 3);
    assert k >= 4 ==> Shr(x2, k - 3) == Shr(x3, k - 4);
    assert k >= 5 ==> Shr(x3, k - 4) == Shr(x4, k - 5);
    assert k >= 6 ==> Shr(x4, k - 5) == Shr(b / 32, k - 6);
    assert k >= 7 ==> Shr(b / 32, k - 6) == Shr(b / 64, k - 7);
    assert k >= 8 ==> Shr(b / 64, k - 7) == Shr(b / 128, k - 8);
    assert k == 9 ==> Shr(b / 128, k - 8) == Shr(0, 0);
  }

  lemma FirstOffset(bitLength: nat)
    ensures OffsetsOf([0], bitLength) == [bitLength] && Times(bitLength, 2) == bitLength + bitLength
  {
    assert Times(bitLength, 1) == bitLength;
  }

  /** ts are the toggles of the line before bit time `bit`. */
  ghost predicate SoFar(line: Line, ts: seq<nat>, bit: nat) {
    1 <= bit <= 10 && ts + TogglesFrom(line, bit) == Toggles(line)
  }

  lemma SoFarNext(line: Line, ts: seq<nat>, bit: nat)
    requires SoFar(line, ts, bit) && bit < 10
    ensures SoFar(line, if line[bit] == line[bit - 1] then ts else ts + [bit], bit + 1)
  {
    assert ts + ([bit] + TogglesFrom(line, bit + 1)) == ts + [bit] + TogglesFrom(line, bit + 1);
  }

  lemma SoFarAll(line: Line, ts: seq<nat>)
    requires SoFar(line, ts, 10)
    ensures ts == Toggles(line)
  {}

  lemma TakeOneMore(before: seq<nat>, es: seq<nat>, k: nat)
    requires k < |es|
    ensures before + es[..k] + [es[k]] == before + es[..k + 1]
  {}

  /** One byte more at the end of the queue is one byte more at the end of everything accepted. */
  lemma AcceptOne(log: seq<Sent>, pending: seq<byte>, c: byte)
    ensures BytesOf(log) + (pending + [c]) == BytesOf(log) + pending + [c]
  {}

  /** The head of the queue moves to the log. */
  lemma StartOne(log: seq<Sent>, s: Sent, pending: seq<byte>)
    ensures BytesOf(log) + ([s.b] + pending) == BytesOf(log + [s]) + pending
    ensures (log + [s])[..|log|] == log
  {
    assert BytesOf(log + [s]) == BytesOf(log) + [s.b];
  }

  class Transmitter {
    const fifo: array<byte>
    const edge: array<nat>
    var fifoWr: nat
    var fifoRd: nat
    var txCnt: nat
    var active: bool
    var cntEdges: nat
    var edgeIndex: nat
    var lastEdgeIndex: nat
    var charEndIndex: nat
    // timer 1, match channel 2, and the pin it drives
    var matchTime: nat
    var matchInterrupt: bool
    var toggleOnMatch: bool
    var pinHigh: bool
    // history
    ghost var accepted: seq<byte>
    ghost var started: seq<Sent>
    ghost var toggled: seq<nat>

    ghost function Pending(): seq<byte>
      reads this`fifoWr, this`fifoRd, fifo
      requires fifo.Length == TXBUFF_LEN && fifoRd < TXBUFF_LEN && fifoWr < TXBUFF_LEN
    {
      Slots(fifo[..], fifoRd, fifoWr)
    }

    ghost predicate FifoValid()
      reads this`fifoWr, this`fifoRd, this`accepted, this`started, fifo
    {
      fifo.Length == 256 && fifo as object != edge
      && fifoRd < 256 && fifoWr < 256
      && accepted == BytesOf(started) + Pending()
    }

    /** The character being sent: its edges are loaded, and those before edgeIndex have been put on the pin. */
    ghost predicate Sending()
      reads this, edge
      requires edge.Length == 11
    {
      && started != []
      && var es := started[|started| - 1].edges;
      && Paired(started[|started| - 1])
      && cntEdges == |es| <= 11 && edge[..cntEdges] == es
      && charEndIndex == cntEdges - 1 && lastEdgeIndex == cntEdges - 2
      && edgeIndex < cntEdges && matchTime == edge[edgeIndex] && matchInterrupt
      && toggleOnMatch == (edgeIndex < charEndIndex)
      && pinHigh == (edgeIndex % 2 == 0)
      && toggled == Waveform(started[..|started| - 1]) + es[..edgeIndex]
    }

    ghost predicate Valid()
      reads this, fifo, edge
    {
      && FifoValid() && edge.Length == 11
      && (active ==> txCnt == Distance(fifoRd, fifoWr) + 1 && Sending())
      && (!active ==> txCnt == 0 && fifoWr == fifoRd && pinHigh && !toggleOnMatch && !matchInterrupt
                      && toggled == Waveform(started))
    }

    /** More than the matches still to come before the transmitter rests. */
    ghost function Work(): int
      reads this, fifo
      requires fifo.Length == TXBUFF_LEN && fifoRd < TXBUFF_LEN && fifoWr < TXBUFF_LEN
    {
      if active then 12 * |Pending()| + charEndIndex - edgeIndex + 1 else 0
    }

    /** hw_swuart_enable */
    constructor ()
      ensures Valid() && fresh(fifo) && fresh(edge)
      ensures !active && accepted == [] && started == []
    {
      fifo, edge := new byte[TXBUFF_LEN], new nat[11];
      fifoWr, fifoRd, txCnt, active := 0, 0, 0, false;
      cntEdges, edgeIndex, lastEdgeIndex, charEndIndex := 0, 0, 0, 0;
      matchTime, matchInterrupt, toggleOnMatch, pinHigh := 0, false, false, true;
      accepted, started, toggled := [], [], [];
    }

    /** The bit loop of swu_setup_tx: all toggles are in edge[], and the time since the last one is returned. */
    method EncodeToggles(ext: nat, bitLength: nat, ghost line: Line) returns (delta: nat)
      requires edge.Length == 11
      requires forall k :: 1 <= k <= 9 ==> BitSet(ext, k) == line[k]
      modifies this`cntEdges, edge
      ensures EdgesFor(Toggles(line), bitLength, 10, delta)
    {
      edge[0] := bitLength;
      cntEdges := 1;
      var bit := 1;  // the source's mask is 1 << bit
      var reference := false;  // every bit of the reference word
      delta := bitLength;
      ghost var ts := [0];
      FirstOffset(bitLength);
      assert edge[..1] == [bitLength];
      while bit != 10
        invariant 1 <= bit <= 10 && SoFar(line, ts, bit)
        invariant EdgesFor(ts, bitLength, bit, delta)
        invariant reference == line[bit - 1]
      {
        SoFarNext(line, ts, bit);
        var same := BitSet(ext, bit) == reference;
        delta := ExamineBit(same, bit, delta, bitLength, ts);
        ts := if same then ts else ts + [bit];
        reference := if same then reference else !reference;
        bit := bit + 1;
      }
      SoFarAll(line, ts);
    }

    /** Fills edge[] with the toggle points of a pattern, before the current time is added. */
    method EncodeEdges(ext: nat, bitLength: nat, ghost line: Line)
      requires edge.Length == 11
      requires forall k :: 1 <= k <= 9 ==> BitSet(ext, k) == line[k]
      modifies this`cntEdges, edge
      ensures cntEdges == |Toggles(line)| + 1 && edge[..cntEdges] == EdgeOffsets(line, bitLength)
    {
      var delta := EncodeToggles(ext, bitLength, line);
      OffsetsSnoc(Toggles(line), 10, bitLength);
      AppendEdge(edge[cntEdges - 1] + delta);
    }

    /** edge[] holds the given toggles, and delta leads from the last of them to the end of bit time `bit`. */
    ghost predicate EdgesFor(ts: seq<nat>, bitLength: nat, bit: nat, delta: nat)
      reads this`cntEdges, edge
    {
      edge.Length == 11 && 1 <= cntEdges == |ts| <= bit <= 10
      && edge[..cntEdges] == OffsetsOf(ts, bitLength)
      && edge[cntEdges - 1] + delta == Times(bitLength, bit + 1)
    }

    /** A bit equal to the one before lengthens the run; another one ends it with a toggle. */
    method ExamineBit(same: bool, bit: nat, delta: nat, bitLength: nat, ghost ts: seq<nat>) returns (delta': nat)
      requires EdgesFor(ts, bitLength, bit, delta) && bit < 10
      modifies this`cntEdges, edge
      ensures EdgesFor(if same then ts else ts + [bit], bitLength, bit + 1, delta')
    {
      if same {
        return delta + bitLength;
      }
      OffsetsSnoc(ts, bit, bitLength);
      AppendEdge(edge[cntEdges - 1] + delta);
      return bitLength;
    }

    method AppendEdge(time: nat)
      requires edge.Length == 11 && cntEdges < 11
      modifies this`cntEdges, edge
      ensures cntEdges == old(cntEdges) + 1 && edge[..cntEdges] == old(edge[..cntEdges]) + [time]
    {
      edge[cntEdges] := time;
      cntEdges := cntEdges + 1;
    }

    /** Adds the current time to every entry of edge[], modulo the timer range. */
    method AddReference(reference: nat, ghost os: seq<nat>)
      requires edge.Length == 11 && cntEdges == |os| <= 11 && edge[..cntEdges] == os
      modifies edge
      ensures edge[..cntEdges] == seq(|os|, i requires 0 <= i < |os| => TimerRange(os[i] + reference))
    {
      var i := 0;
      while i != cntEdges
        invariant 0 <= i <= cntEdges
        invariant forall j :: 0 <= j < i ==> edge[j] == TimerRange(os[j] + reference)
        invariant forall j :: i <= j < cntEdges ==> edge[j] == os[j]
      {
        TimerRangeOfWord(os[i] + reference);
        edge[i] := TimerRange((edge[i] + reference) % 0x1_0000_0000);
        i := i + 1;
      }
    }

    /** Advances the read index and fetches the character there. */
    method NextChar() returns (b: byte)
      requires FifoValid() && fifoWr != fifoRd
      modifies this`fifoRd
      ensures fifoRd < TXBUFF_LEN && [b] + Pending() == old(Pending())
    {
      fifoRd := fifoRd + 1;
      if fifoRd == TXBUFF_LEN {
        fifoRd := 0;
      }
      b := fifo[fifoRd];
    }

    /** Loads the edge list of a character and starts its waveform. */
    method LoadChar(b: byte, bitLength: nat, tc: nat) returns (ghost sent: Sent)
      requires edge.Length == 11
      modifies this`cntEdges, this`lastEdgeIndex, this`charEndIndex, this`edgeIndex
      modifies this`matchTime, this`matchInterrupt, this`toggleOnMatch, edge
      ensures Genuine(sent) && Paired(sent) && (sent.b, sent.bitLength, sent.tc) == (b, bitLength, tc)
      ensures cntEdges == |sent.edges| <= 11 && edge[..cntEdges] == sent.edges
      ensures charEndIndex == cntEdges - 1 && lastEdgeIndex == cntEdges - 2 && edgeIndex == 0
      ensures matchTime == edge[0] && matchInterrupt && toggleOnMatch
    {
      ghost var line := Frame(b);
      ExtDataIsFrame(b);
      EncodeEdges(ExtData(b), bitLength, line);
      lastEdgeIndex, charEndIndex, edgeIndex := cntEdges - 2, cntEdges - 1, 0;
      AddReference(tc + bitLength, EdgeOffsets(line, bitLength));
      sent := Sent(b, bitLength, tc, edge[..cntEdges]);
      ScheduleIsPaired(line, bitLength, tc);
      matchTime, matchInterrupt, toggleOnMatch := edge[0], true, true;
    }

    /** swu_setup_tx, called with data to send and the timer at tc */
    method SetupTx(bitLength: nat, tc: nat)
      requires FifoValid() && edge.Length == 11 && fifoWr != fifoRd
      requires pinHigh && toggled == Waveform(started)
      modifies this`active, this`fifoRd, this`cntEdges, this`lastEdgeIndex, this`charEndIndex, this`edgeIndex
      modifies this`matchTime, this`matchInterrupt, this`toggleOnMatch, this`started, edge
      ensures FifoValid() && active && Sending()
      ensures |started| == |old(started)| + 1 && started[..|started| - 1] == old(started)
      ensures var s := started[|started| - 1];
              Genuine(s) && (s.b, s.bitLength, s.tc) == (old(Pending())[0], bitLength, tc)
      ensures Pending() == old(Pending())[1..]
    {
      active := true;
      var b := NextChar();
      ghost var sent := LoadChar(b, bitLength, tc);
      StartOne(started, sent, Pending());
      started := started + [sent];
      assert FifoValid();
      assert toggled + sent.edges[..0] == toggled;
    }

    /** Puts a character into the FIFO. */
    method Enqueue(c: byte)
      requires FifoValid() && Distance(fifoRd, fifoWr) < TXBUFF_LEN - 1
      modifies this`fifoWr, this`txCnt, this`accepted, fifo
      ensures FifoValid() && accepted == old(accepted) + [c] && Pending() == old(Pending()) + [c]
      ensures txCnt == old(txCnt) + 1 && Distance(fifoRd, fifoWr) == old(Distance(fifoRd, fifoWr)) + 1
    {
      SlotsAppend(fifo[..], fifoRd, fifoWr, c);
      fifoWr := fifoWr + 1;
      if fifoWr == TXBUFF_LEN {
        fifoWr := 0;
      }
      fifo[fifoWr] := c;
      txCnt := txCnt + 1;
      accepted := accepted + [c];
      assert fifo[..] == old(fifo[..])[fifoWr := c];
      AcceptOne(started, old(Pending()), c);
    }

    /** swu_tx_chr, once its wait for room in the FIFO is over; timer 1 reads tc */
    method TxChr(c: byte, bitLength: nat, tc: nat)
      requires Valid() && txCnt != TXBUFF_LEN
      modifies this, fifo, edge
      ensures Valid() && active && accepted == old(accepted) + [c]
      ensures old(active) ==> started == old(started) && txCnt == old(txCnt) + 1
      ensures !old(active) ==> |started| == |old(started)| + 1 && started[..|started| - 1] == old(started)
      ensures !old(active) ==> var s := started[|started| - 1];
                Genuine(s) && (s.b, s.bitLength, s.tc) == (c, bitLength, tc)
    {
      Enqueue(c);
      if !active {
        SetupTx(bitLength, tc);
      }
    }

    /** The match of channel 2 before the end of the character: the pin toggles, and the next edge is loaded. */
    method NextEdge()
      requires edge.Length == 11 && Sending() && edgeIndex != charEndIndex
      modifies this`pinHigh, this`toggled, this`toggleOnMatch, this`edgeIndex, this`matchTime
      ensures Sending() && edgeIndex == old(edgeIndex) + 1
    {
      ghost var es := started[|started| - 1].edges;
      assert toggleOnMatch && matchTime == es[edgeIndex];
      pinHigh := !pinHigh;
      toggled := toggled + [matchTime];
      if edgeIndex == lastEdgeIndex {
        toggleOnMatch := false;
      }
      edgeIndex := edgeIndex + 1;
      matchTime := edge[edgeIndex];
      TakeOneMore(Waveform(started[..|started| - 1]), es, old(edgeIndex));
    }

    /**
     The match at the end of the stop bit, by which the pin no longer toggles: the next character is set up, or the
     transmitter rests, with its match interrupt off.
     */
    method EndOfChar(bitLength: nat, tc: nat)
      requires Valid() && active && edgeIndex == charEndIndex
      modifies this, edge
      ensures Valid() && accepted == old(accepted) && active == (old(Pending()) != [])
      ensures old(Pending()) == [] ==> started == old(started) && !matchInterrupt
      ensures old(Pending()) != [] ==>
                |started| == |old(started)| + 1 && started[..|started| - 1] == old(started)
                && Pending() == old(Pending())[1..]
      ensures old(Pending()) != [] ==> var s := started[|started| - 1];
                Genuine(s) && (s.b, s.bitLength, s.tc) == (old(Pending())[0], bitLength, tc)
    {
      matchInterrupt := false;
      txCnt := txCnt - 1;
      assert toggled == Waveform(started);
      if fifoWr != fifoRd {
        SetupTx(bitLength, tc);
      } else {
        active := false;
      }
    }

    /** A match of channel 2: the pin toggles if it is told to, then swu_isr_tx runs with the timer at tc. */
    method MatchIsr(bitLength: nat, tc: nat)
      requires Valid() && active
      modifies this, edge
      ensures Valid() && accepted == old(accepted) && 0 <= Work() < old(Work())
      ensures old(edgeIndex != charEndIndex) ==>
                active && started == old(started) && edgeIndex == old(edgeIndex) + 1
                && charEndIndex == old(charEndIndex) && Pending() == old(Pending())
      ensures old(edgeIndex == charEndIndex) && old(Pending()) == [] ==>
                !active && !matchInterrupt && started == old(started)
      ensures old(edgeIndex == charEndIndex) && old(Pending()) != [] ==>
                active && Pending() == old(Pending())[1..]
                && |started| == |old(started)| + 1 && started[..|started| - 1] == old(started)
                && var s := started[|started| - 1];
                   Genuine(s) && (s.b, s.bitLength, s.tc) == (old(Pending())[0], bitLength, tc)
    {
      if edgeIndex == charEndIndex {
        EndOfChar(bitLength, tc);
      } else {
        NextEdge();
      }
    }
  }

  /** Every character handed to the line so far went out with its own encoding. */
  ghost predicate AllGenuine(log: seq<Sent>) {
    forall i :: 0 <= i < |log| ==> Genuine(log[i])
  }

  /** Each character behind the first n was set up with this bit length, as the one before ended. */
  ghost predicate SetUpInTurn(log: seq<Sent>, n: nat, bitLength: nat) {
    forall i :: n <= i < |log| ==>
      log[i].bitLength == bitLength && (i > 0 ==> StartsAtEnd(log[i - 1], log[i]))
  }

  predicate StartsAtEnd(s: Sent, t: Sent) {
    s.edges != [] && t.tc == s.edges[|s.edges| - 1]
  }

  /** The log is as it was, or one character longer, set up as the last one ended. */
  ghost predicate MayHaveSent(before: seq<Sent>, after: seq<Sent>, bitLength: nat) {
    before == after
    || (|after| == |before| + 1 && after[..|before|] == before && before != []
        && Genuine(after[|before|]) && after[|before|].bitLength == bitLength
        && StartsAtEnd(before[|before| - 1], after[|before|]))
  }

  lemma LogGrows(start: seq<Sent>, before: seq<Sent>, after: seq<Sent>, bitLength: nat)
    requires AllGenuine(before) && start <= before && SetUpInTurn(before, |start|, bitLength)
    requires MayHaveSent(before, after, bitLength)
    ensures AllGenuine(after) && start <= after && SetUpInTurn(after, |start|, bitLength)
  {
    if before != after {
      assert after == before + [after[|before|]];
    }
  }

  /** The timer reaches the match register: the match comes at that very time. */
  method OnMatch(t: Transmitter, bitLength: nat)
    requires t.Valid() && t.active
    modifies t, t.edge
    ensures t.Valid() && t.accepted == old(t.accepted) && 0 <= t.Work() < old(t.Work())
    ensures MayHaveSent(old(t.started), t.started, bitLength)
  {
    ghost var before := t.started;
    assert t.edgeIndex == t.charEndIndex ==> t.matchTime == before[|before| - 1].edges[t.edgeIndex];
    t.MatchIsr(bitLength, t.matchTime);
  }

  /**
   Left to its timer, the transmitter puts every accepted byte on the line in order, each as its whole
   waveform, each set up as the one before ends, and comes to rest with the line high and the match interrupt off.
   */
  method DrainTransmitter(t: Transmitter, bitLength: nat)
    requires t.Valid() && AllGenuine(t.started)
    modifies t, t.edge
    ensures t.Valid() && !t.active && !t.matchInterrupt && t.pinHigh && t.accepted == old(t.accepted)
    ensures AllGenuine(t.started) && BytesOf(t.started) == t.accepted && t.toggled == Waveform(t.started)
    ensures old(t.started) <= t.started && SetUpInTurn(t.started, |old(t.started)|, bitLength)
  {
    while t.active
      invariant t.Valid() && AllGenuine(t.started) && t.accepted == old(t.accepted)
      invariant old(t.started) <= t.started && SetUpInTurn(t.started, |old(t.started)|, bitLength)
      decreases t.Work()
    {
      ghost var before := t.started;
      OnMatch(t, bitLength);
      LogGrows(old(t.started), before, t.started, bitLength);
    }
    assert t.Pending() == [];
  }
}
