/**
 From the sender's byte to the published position: the waveforms of the software UART, replayed as captures
 into its receiver, carry an NMEA sentence into the parser of the GPS module.
 */
module GpsEndToEnd {
  import opened Bytes
  import opened Nmea
  import opened SwUartFrame
  import opened SwUartReceive
  import opened SwUartReceiver

  /**
   The line carries the text: its toggles are those of one character after the other, each edge less than half a
   bit time off, and behind each character it rests until the stop bit has been sampled.
   */
  predicate Carries(line: seq<nat>, text: seq<byte>, bitLength: nat, latency: nat)
    decreases text
  {
    if text == [] then line == [] else
      var n := |Toggles(Frame(text[0]))|;
      n <= |line| && FrameEdges(line[..n], text[0], bitLength)
      && Rests(line[n..], line[0], bitLength, latency) && Carries(line[n..], text[1..], bitLength, latency)
  }

  /** The characters handed to the parser for the words received. */
  function Payload(words: seq<nat>): (r: seq<byte>)
    ensures |r| == |words|
  {
    seq(|words|, i requires 0 <= i < |words| => words[i] % 256)
  }

  predicate SevenBit(s: seq<byte>) {
    forall i :: 0 <= i < |s| ==> s[i] < 128
  }

  /** What the receiver makes of a text, character by character. */
  function Stored(text: seq<byte>): (r: seq<nat>)
    ensures |r| == |text|
  {
    if text == [] then [] else [StoredByte(text[0])] + Stored(text[1..])
  }

  /**
   A whole text on the line, its interrupts served with any latency below one bit: one word a character is received,
   in order and without framing errors.
   */
  lemma {:induction false} ReceiveText(
      s: Receiver, text: seq<byte>, line: seq<nat>, evs: seq<LineEvent>, bitLength: nat, latency: nat)
    requires Idle(s) && 0 < bitLength && latency <= bitLength
    requires Carries(line, text, bitLength, latency) && Apart(line, latency)
    requires Timely(s, evs, line, true, bitLength, 9 * bitLength, latency)
    ensures RunDefined(s, evs, bitLength, 9 * bitLength)
    ensures var (t, words) := Run(s, evs, bitLength, 9 * bitLength);
            Idle(t) && words == Stored(text)
    decreases text
  {
    if text != [] {
      var n, t := ReceiveFirst(s, text, line, evs, bitLength, latency);
      ReceiveText(t, text[1..], line[|Toggles(Frame(text[0]))|..], evs[n..], bitLength, latency);
      OneMoreWord(s, text, evs, n, bitLength);
    }
  }

  /** The first character of a text, and what the rest of the line is to the receiver behind it. */
  lemma ReceiveFirst(s: Receiver, text: seq<byte>, line: seq<nat>, evs: seq<LineEvent>, bitLength: nat, latency: nat)
    returns (n: nat, t: Receiver)
    requires Idle(s) && 0 < bitLength && latency <= bitLength
    requires text != [] && Carries(line, text, bitLength, latency) && Apart(line, latency)
    requires Timely(s, evs, line, true, bitLength, 9 * bitLength, latency)
    ensures n <= |evs| && RunDefined(s, evs[..n], bitLength, 9 * bitLength) && Idle(t)
    ensures Run(s, evs[..n], bitLength, 9 * bitLength) == (t, [StoredByte(text[0])])
    ensures var rest := line[|Toggles(Frame(text[0]))|..];
            Timely(t, evs[n..], rest, true, bitLength, 9 * bitLength, latency)
            && Carries(rest, text[1..], bitLength, latency) && Apart(rest, latency)
  {
    var edges, rest := SplitLine(text, line, bitLength, latency);
    n := ReceiveFrame(s, text[0], bitLength, latency, evs, edges, rest);
    t := Run(s, evs[..n], bitLength, 9 * bitLength).0;
  }

  lemma SplitLine(text: seq<byte>, line: seq<nat>, bitLength: nat, latency: nat)
    returns (edges: seq<nat>, rest: seq<nat>)
    requires text != [] && Carries(line, text, bitLength, latency) && Apart(line, latency)
    ensures line == edges + rest && |Toggles(Frame(text[0]))| <= |line| && rest == line[|Toggles(Frame(text[0]))|..]
    ensures FrameEdges(edges, text[0], bitLength) && Rests(rest, edges[0], bitLength, latency)
    ensures Carries(rest, text[1..], bitLength, latency) && Apart(rest, latency)
  {
    var k := |Toggles(Frame(text[0]))|;
    edges, rest := line[..k], line[k..];
    assert line == edges + rest;
    ApartBehind(edges, rest, latency);
  }

  lemma ApartBehind(edges: seq<nat>, rest: seq<nat>, latency: nat)
    requires Apart(edges + rest, latency)
    ensures Apart(rest, latency)
  {
    forall i | 0 < i < |rest|
      ensures rest[i - 1] + latency <= rest[i]
    {
      var line := edges + rest;
      assert line[|edges| + i - 1] == rest[i - 1] && line[|edges| + i] == rest[i];
    }
  }

  lemma OneMoreWord(s: Receiver, text: seq<byte>, evs: seq<LineEvent>, n: nat, bitLength: nat)
    requires text != [] && n <= |evs| && bitLength > 0
    requires RunDefined(s, evs[..n], bitLength, 9 * bitLength)
    requires Run(s, evs[..n], bitLength, 9 * bitLength).1 == [StoredByte(text[0])]
    requires var t := Run(s, evs[..n], bitLength, 9 * bitLength).0;
             RunDefined(t, evs[n..], bitLength, 9 * bitLength)
             && Run(t, evs[n..], bitLength, 9 * bitLength).1 == Stored(text[1..])
    ensures RunDefined(s, evs, bitLength, 9 * bitLength)
    ensures var t := Run(s, evs[..n], bitLength, 9 * bitLength).0;
            Run(s, evs, bitLength, 9 * bitLength) == (Run(t, evs[n..], bitLength, 9 * bitLength).0, Stored(text))
  {
    RunSplit(s, evs, n, bitLength, 9 * bitLength);
  }

  lemma PayloadOfBytes(text: seq<byte>)
    ensures Payload(text) == text
  {}

  lemma {:induction false} SevenBitRecovered(text: seq<byte>)
    requires SevenBit(text)
    ensures Stored(text) == text
  {
    if text != [] {
      RecoveredExactly(text[0]);
      SevenBitRecovered(text[1..]);
    }
  }

  // ---------------------------------------------------------------- sentences are seven-bit text

  lemma {:induction false} JoinedSevenBit(fs: seq<seq<byte>>)
    requires forall i :: 0 <= i < |fs| ==> SevenBit(fs[i])
    ensures SevenBit(JoinFields(fs))
  {
    if fs != [] {
      JoinedSevenBit(fs[1..]);
      assert SevenBit(fs[0]);
    }
  }

  lemma SentenceSevenBit(ty: MsgType, fs: seq<seq<byte>>)
    requires forall i :: 0 <= i < |fs| ==> SevenBit(fs[i])
    ensures SevenBit(Print(ty, fs))
  {
    JoinedSevenBit(fs);
  }

  lemma HexCharsAreDigits(v: nat)
    requires v < 16
    ensures HexDigit(HexChar(v)) == v
  {}

  /**
   End to end. Whatever the parser has seen before, an RMC or GGA sentence of seven-bit characters whose
   edges all arrive within half a bit of their place is received character by character, overruns no buffer,
   and leaves its own fields published with the checksum passed.
   */
  lemma SentenceReceived(
      lib: CLib, p: Parser, s: Receiver, ty: MsgType, fs: seq<seq<byte>>,
      line: seq<nat>, evs: seq<LineEvent>, bitLength: nat, latency: nat)
    requires WellFormed(ty, fs) && (forall i :: 0 <= i < |fs| ==> SevenBit(fs[i]))
    requires Idle(s) && 0 < bitLength && latency <= bitLength
    requires Carries(line, Print(ty, fs), bitLength, latency) && Apart(line, latency)
    requires Timely(s, evs, line, true, bitLength, 9 * bitLength, latency)
    ensures RunDefined(s, evs, bitLength, 9 * bitLength)
    ensures var (t, words) := Run(s, evs, bitLength, 9 * bitLength);
            Idle(t) && words == Print(ty, fs) && Fits(lib, p, Payload(words))
            && ConsumeAll(lib, p, Payload(words)).hold == Record(lib, ty, fs).(checksumPassed := true)
  {
    var text := Print(ty, fs);
    SentenceSevenBit(ty, fs);
    SevenBitRecovered(text);
    PayloadOfBytes(text);
    ReceiveText(s, text, line, evs, bitLength, latency);
    PrintThenConsume(lib, p, ty, fs);
    var ck := Checksum(ty, fs);
    HexCharsAreDigits(ck / 16);
    HexCharsAreDigits(ck % 16);
    SentenceFits(lib, p, ty, fs, HexChar(ck / 16), HexChar(ck % 16));
  }

  // ---------------------------------------------------------------- the sender's own waveform

  /** When a character is set up: at this instant of the receiver's clock, with the sender's timer reading tc. */
  datatype Setup = Setup(at: nat, tc: nat)

  /** The first instant, from set-up on, at which the sender's timer reads t; it counts modulo 2^30. */
  function Instant(u: Setup, t: nat): nat
    requires u.tc < 0x4000_0000
  {
    u.at + (t + (0x4000_0000 - u.tc)) % 0x4000_0000
  }

  /** The instants at which swu_setup_tx makes the line toggle for b: edge[] without its last entry. */
  function SentToggles(b: byte, sender: nat, u: Setup): (edges: seq<nat>)
    requires u.tc < 0x4000_0000
    ensures |edges| == |Toggles(Frame(b))|
  {
    seq(|Toggles(Frame(b))|, i requires 0 <= i < |Toggles(Frame(b))| => Instant(u, Schedule(Frame(b), sender, u.tc)[i]))
  }

  function SentLine(text: seq<byte>, sender: nat, setups: seq<Setup>): seq<nat>
    requires |setups| == |text| && forall i :: 0 <= i < |setups| ==> setups[i].tc < 0x4000_0000
  {
    if text == [] then [] else SentToggles(text[0], sender, setups[0]) + SentLine(text[1..], sender, setups[1..])
  }

  /** Each character is set up at or after the end of the one before; the timer may wrap at any time. */
  predicate Successive(setups: seq<Setup>, sender: nat) {
    12 * sender < 0x4000_0000
    && (forall i :: 0 <= i < |setups| ==> setups[i].tc < 0x4000_0000)
    && forall i :: 0 < i < |setups| ==> setups[i - 1].at + 12 * sender <= setups[i].at
  }

  /** The clocks differ by less than one part in 18, and interrupts are served within a bit time of either. */
  predicate Compatible(sender: nat, bitLength: nat, latency: nat) {
    18 * sender < 19 * bitLength && 17 * bitLength < 18 * sender && latency <= bitLength && latency <= sender
  }

  lemma SentToggleAt(b: byte, sender: nat, u: Setup, i: nat)
    requires 0 < sender && 12 * sender < 0x4000_0000 && u.tc < 0x4000_0000 && i < |Toggles(Frame(b))|
    ensures SentToggles(b, sender, u)[i] == u.at + 2 * sender + Times(sender, Toggles(Frame(b))[i])
  {
    var k := Toggles(Frame(b))[i];
    TimesGrow(sender, k + 1, 11);
    TimesIsProduct(sender, 11);
    assert Schedule(Frame(b), sender, u.tc)[i] == TimerRange(Times(sender, k + 1) + u.tc + sender);
    TicksLater(u, Times(sender, k + 1) + sender);
  }

  lemma TicksLater(u: Setup, n: nat)
    requires u.tc < 0x4000_0000 && n < 0x4000_0000
    ensures Instant(u, TimerRange(n + u.tc)) == u.at + n
  {}

  /**
   What swu_setup_tx sends is a frame to a receiver whose bit time differs by less than one part in 18. The toggles
   are a bit time or more apart, and end nine bit times or less after the start bit.
   */
  lemma SentIsFrame(b: byte, sender: nat, u: Setup, bitLength: nat, latency: nat)
    requires Compatible(sender, bitLength, latency) && 12 * sender < 0x4000_0000 && u.tc < 0x4000_0000
    ensures var edges := SentToggles(b, sender, u);
            && FrameEdges(edges, b, bitLength) && Apart(edges, latency)
            && edges[0] == u.at + 2 * sender && edges[|edges| - 1] <= edges[0] + 9 * sender
  {
    var edges, ts := SentToggles(b, sender, u), Toggles(Frame(b));
    SentToggleAt(b, sender, u, 0);
    forall i | 0 <= i < |edges|
      ensures Near(edges[i], edges[0] + Times(bitLength, ts[i]), bitLength)
    {
      SentToggleAt(b, sender, u, i);
      SenderClock(bitLength, sender, edges[0], ts[i]);
    }
    SentApart(b, sender, u, latency);
  }

  lemma SentApart(b: byte, sender: nat, u: Setup, latency: nat)
    requires 0 < sender && latency <= sender && 12 * sender < 0x4000_0000 && u.tc < 0x4000_0000
    ensures var edges := SentToggles(b, sender, u);
            Apart(edges, latency) && edges[|edges| - 1] <= edges[0] + 9 * sender
  {
    var edges, ts := SentToggles(b, sender, u), Toggles(Frame(b));
    forall i | 0 < i < |edges|
      ensures edges[i - 1] + latency <= edges[i]
    {
      SentToggleAt(b, sender, u, i - 1);
      SentToggleAt(b, sender, u, i);
      TogglesGrow(b, i - 1, i);
      TimesGrow(sender, ts[i - 1], ts[i]);
    }
    SentToggleAt(b, sender, u, 0);
    SentToggleAt(b, sender, u, |edges| - 1);
    TimesIsProduct(sender, 9);
    if ts[|edges| - 1] < 9 {
      TimesGrow(sender, ts[|edges| - 1], 9);
    }
  }

  lemma TogglesGrow(b: byte, i: nat, j: nat)
    requires i < j < |Toggles(Frame(b))|
    ensures Toggles(Frame(b))[i] < Toggles(Frame(b))[j]
  {
    TogglesFromShape(Frame(b), 1);
    assert Toggles(Frame(b))[j] == TogglesFrom(Frame(b), 1)[j - 1];
    assert i > 0 ==> Toggles(Frame(b))[i] == TogglesFrom(Frame(b), 1)[i - 1];
  }

  /** What the transmitter sends for a text carries that text, with the rests the receiver needs. */
  lemma {:induction false} SentCarries(
      text: seq<byte>, sender: nat, setups: seq<Setup>, bitLength: nat, latency: nat)
    requires |setups| == |text| && Successive(setups, sender) && Compatible(sender, bitLength, latency)
    ensures var line := SentLine(text, sender, setups);
            && Carries(line, text, bitLength, latency) && Apart(line, latency) && (line == [] <==> text == [])
            && (text != [] ==> line[0] == setups[0].at + 2 * sender)
    decreases text
  {
    if text != [] {
      SentCarries(text[1..], sender, setups[1..], bitLength, latency);
      assert |setups| > 1 ==> setups[1..][0] == setups[1];
      SentIsFrame(text[0], sender, setups[0], bitLength, latency);
      FrameInFront(text, SentToggles(text[0], sender, setups[0]), SentLine(text[1..], sender, setups[1..]),
                   bitLength, latency);
    }
  }

  /** A frame in front of a line that carries the rest of the text. */
  lemma FrameInFront(text: seq<byte>, edges: seq<nat>, rest: seq<nat>, bitLength: nat, latency: nat)
    requires text != [] && FrameEdges(edges, text[0], bitLength) && Apart(edges, latency)
    requires Carries(rest, text[1..], bitLength, latency) && Apart(rest, latency)
    requires Rests(rest, edges[0], bitLength, latency)
    requires rest != [] ==> edges[|edges| - 1] + latency <= rest[0]
    ensures Carries(edges + rest, text, bitLength, latency) && Apart(edges + rest, latency)
  {
    var line := edges + rest;
    assert line[..|edges|] == edges && line[|edges|..] == rest;
    ApartJoin(edges, rest, latency);
  }

  lemma ApartJoin(a: seq<nat>, b: seq<nat>, latency: nat)
    requires Apart(a, latency) && Apart(b, latency) && a != []
    requires b != [] ==> a[|a| - 1] + latency <= b[0]
    ensures Apart(a + b, latency)
  {
    var c := a + b;
    forall i | 0 < i < |c|
      ensures c[i - 1] + latency <= c[i]
    {
      if i > |a| {
        assert c[i - 1] == b[i - 1 - |a|] && c[i] == b[i - |a|];
      }
    }
  }

  /** Every text on a line that carries it can be served in time, so that such runs of interrupts exist. */
  lemma {:induction false} TextCanBeServed(text: seq<byte>, line: seq<nat>, bitLength: nat, latency: nat)
    returns (evs: seq<LineEvent>)
    requires 0 < latency <= bitLength && Carries(line, text, bitLength, latency) && Apart(line, latency)
    ensures ServesIdle(evs, line, bitLength, latency)
    decreases text
  {
    if text == [] {
      evs := [];
    } else {
      var edges, rest := SplitLine(text, line, bitLength, latency);
      var later := TextCanBeServed(text[1..], rest, bitLength, latency);
      evs := FrameCanBeServed(text[0], bitLength, latency, edges, rest, later);
    }
  }

  /**
   The whole path from swu_setup_tx to gps_data_hold, for any sender clock within one part in 18 and any latency of
   the receiver's interrupts below one bit: the line toggles as the edge lists say, the timer raises the interrupts.
   */
  lemma SentenceSentAndReceived(
      lib: CLib, p: Parser, s: Receiver, ty: MsgType, fs: seq<seq<byte>>,
      sender: nat, setups: seq<Setup>, evs: seq<LineEvent>, bitLength: nat, latency: nat)
    requires WellFormed(ty, fs) && (forall i :: 0 <= i < |fs| ==> SevenBit(fs[i]))
    requires Idle(s) && Compatible(sender, bitLength, latency)
    requires |setups| == |Print(ty, fs)| && Successive(setups, sender)
    requires Timely(s, evs, SentLine(Print(ty, fs), sender, setups), true, bitLength, 9 * bitLength, latency)
    ensures RunDefined(s, evs, bitLength, 9 * bitLength)
    ensures var (t, words) := Run(s, evs, bitLength, 9 * bitLength);
            Idle(t) && words == Print(ty, fs)
            && ConsumeAll(lib, p, Payload(words)).hold == Record(lib, ty, fs).(checksumPassed := true)
  {
    SentCarries(Print(ty, fs), sender, setups, bitLength, latency);
    SentenceReceived(lib, p, s, ty, fs, SentLine(Print(ty, fs), sender, setups), evs, bitLength, latency);
  }

  // ---------------------------------------------------------------- the device

  /** Serving a run of interrupts on the device consumes exactly the characters received. */
  method Replay(d: ReceiverDevice, evs: seq<LineEvent>, bitLength: nat, stopSample: nat)
    requires d.Valid() && bitLength > 0 && RunDefined(d.State(), evs, bitLength, stopSample)
    requires Fits(d.gps.lib, d.gps.State(), Payload(Run(d.State(), evs, bitLength, stopSample).1))
    modifies d, d.rxFifo, d.mailbox, d.gps, d.gps.buff
    ensures d.Valid() && d.State() == Run(old(d.State()), evs, bitLength, stopSample).0
    ensures d.gps.State()
         == ConsumeAll(d.gps.lib, old(d.gps.State()), Payload(Run(old(d.State()), evs, bitLength, stopSample).1))
    decreases evs
  {
    if evs != [] {
      ghost var (t, word) := Interrupt(d.State(), evs[0], bitLength, stopSample);
      ghost var rest := Run(t, evs[1..], bitLength, stopSample).1;
      ghost var first := if word.Some? then [word.value] else [];
      assert Payload(first + rest) == Payload(first) + Payload(rest);
      assert word.None? ==> Payload(first) + Payload(rest) == Payload(rest);
      assert word.Some? ==> (Payload(first) + Payload(rest))[1..] == Payload(rest);
      d.Isr(evs[0], bitLength, stopSample);
      Replay(d, evs[1..], bitLength, stopSample);
    }
  }

  /** The device itself: after the interrupts of a sentence, gps_data_hold is the sentence's record. */
  method ReceiveSentence(
      d: ReceiverDevice, ghost ty: MsgType, ghost fs: seq<seq<byte>>, ghost line: seq<nat>, evs: seq<LineEvent>,
      bitLength: nat, ghost latency: nat)
    requires d.Valid() && Idle(d.State()) && 0 < bitLength && latency <= bitLength
    requires WellFormed(ty, fs) && (forall i :: 0 <= i < |fs| ==> SevenBit(fs[i]))
    requires Carries(line, Print(ty, fs), bitLength, latency) && Apart(line, latency)
    requires Timely(d.State(), evs, line, true, bitLength, 9 * bitLength, latency)
    modifies d, d.rxFifo, d.mailbox, d.gps, d.gps.buff
    ensures d.Valid() && Idle(d.State()) && d.gps.hold == Record(d.gps.lib, ty, fs).(checksumPassed := true)
  {
    SentenceReceived(d.gps.lib, d.gps.State(), d.State(), ty, fs, line, evs, bitLength, latency);
    Replay(d, evs, bitLength, 9 * bitLength);
  }
}
