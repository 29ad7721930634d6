/**
 The receiver of the software UART, swu_isr_rx in src/hw/hw_swuart.c, as a step function on its
 variables, and what it makes of the waveform of a character.
 */
module SwUartReceive {
  import opened Bytes
  import opened SwUartFrame

  /**
   The receiver's variables. `armedFalling` is the edge that capture unit 2 is set to; `matchTime` is MR1.
   The timer does not wrap inside a character, so instants are plain numbers.
   */
  datatype Receiver = Receiver(
    active: bool, armedFalling: bool, edgeSample: nat, swuBit: bool,
    cnt: nat, cntBits: nat, rbr: nat, rbrMask: nat, matchTime: nat)

  const RESET := Receiver(false, true, 0, false, 0, 0, 0, 0, 0)

  /** One turn of the sampling loop: the bit at the sampling point has the level held since the last edge. */
  function SampleBit(s: Receiver, bitLength: nat): Receiver {
    var placed := if s.cntBits != 0 then
                    s.(rbr := if s.swuBit then Or(s.rbr, s.rbrMask) else s.rbr,
                       rbrMask := s.rbrMask * 2 % 0x1_0000_0000)
                  else s;
    placed.(cntBits := (s.cntBits + 1) % 256, edgeSample := s.edgeSample + bitLength, cnt := (s.cnt + 255) % 256)
  }

  function SampleUntil(s: Receiver, edge: nat, bitLength: nat): Receiver
    requires bitLength > 0
    decreases edge - s.edgeSample
  {
    if edge > s.edgeSample then SampleUntil(SampleBit(s, bitLength), edge, bitLength) else s
  }

  /** The capture half of the interrupt routine. */
  function Capture(s: Receiver, edge: nat, bitLength: nat, stopSample: nat): Receiver
    requires bitLength > 0
  {
    var t := s.(armedFalling := !s.armedFalling);
    if !t.active then
      var sample := edge + bitLength / 2;
      t.(active := true, edgeSample := sample, swuBit := false, matchTime := sample + stopSample,
         cnt := 9, rbr := 0, rbrMask := 1)
    else
      var u := SampleUntil(t, edge, bitLength);
      u.(swuBit := !u.swuBit)
  }

  /** C defines `rbr << cnt` and `ALL1 << (8 - cnt)` only for shift counts that are in range. */
  predicate ShiftsDefined(s: Receiver) {
    s.cnt < 32 && (s.swuBit ==> s.cnt <= 8)
  }

  /** The word put into the receive FIFO when the stop bit is due; bit 8 is the framing error. */
  function StoredWord(s: Receiver): (w: nat)
    requires ShiftsDefined(s)
    ensures w < 512
  {
    var shifted := Shl(s.rbr, s.cnt);
    var filled := if s.cnt != 0 && s.swuBit then (shifted + Shl(0xFF, 8 - s.cnt)) % 0x1_0000_0000 else shifted;
    filled % 256 + if s.swuBit then 0 else 256
  }

  function Finish(s: Receiver): Receiver
    requires ShiftsDefined(s)
  {
    s.(active := false, cntBits := 0, rbr := StoredWord(s))
  }

  /**
   An interrupt: a captured toggle of the line, or the stop-bit match alone. `now` is TC when it is served,
   `matched` says that the flag of the match is up as well.
   */
  datatype LineEvent =
    | Edge(time: nat, falling: bool, matched: bool, now: nat)
    | Match(now: nat)

  /** The stop-bit half of the interrupt routine runs. */
  predicate StopDue(s: Receiver, ev: LineEvent) {
    ev.Match? || ev.matched || ev.now >= s.matchTime
  }

  /** The state after the capture half. The capture unit sees only edges of the direction it is armed for. */
  function AfterCapture(s: Receiver, ev: LineEvent, bitLength: nat, stopSample: nat): Receiver
    requires bitLength > 0
  {
    if ev.Edge? then Capture(s, ev.time, bitLength, stopSample) else s
  }

  predicate Raised(s: Receiver, ev: LineEvent) {
    ev.Edge? ==> ev.falling == s.armedFalling
  }

  predicate Defined(s: Receiver, ev: LineEvent, bitLength: nat, stopSample: nat)
    requires bitLength > 0
  {
    var t := AfterCapture(s, ev, bitLength, stopSample);
    StopDue(t, ev) ==> ShiftsDefined(t)
  }

  /** One interrupt: the new state and the word received, if the character ended. */
  function Interrupt(s: Receiver, ev: LineEvent, bitLength: nat, stopSample: nat): (Receiver, Option<nat>)
    requires bitLength > 0 && Defined(s, ev, bitLength, stopSample)
  {
    var t := AfterCapture(s, ev, bitLength, stopSample);
    if StopDue(t, ev) then (Finish(t), Some(StoredWord(t))) else (t, None)
  }

  /** Every event of the run reaches the receiver and keeps its shifts defined. */
  predicate RunDefined(s: Receiver, evs: seq<LineEvent>, bitLength: nat, stopSample: nat)
    requires bitLength > 0
    decreases evs
  {
    evs == [] || (Raised(s, evs[0]) && Defined(s, evs[0], bitLength, stopSample)
                  && RunDefined(Interrupt(s, evs[0], bitLength, stopSample).0, evs[1..], bitLength, stopSample))
  }

  /** A run of interrupts: the final state and the words received. */
  function Run(s: Receiver, evs: seq<LineEvent>, bitLength: nat, stopSample: nat): (Receiver, seq<nat>)
    requires bitLength > 0 && RunDefined(s, evs, bitLength, stopSample)
    decreases evs
  {
    if evs == [] then (s, []) else
      var (t, word) := Interrupt(s, evs[0], bitLength, stopSample);
      var (u, words) := Run(t, evs[1..], bitLength, stopSample);
      (u, (if word.Some? then [word.value] else []) + words)
  }

  lemma {:induction false} RunAppend(s: Receiver, e: seq<LineEvent>, f: seq<LineEvent>, bitLength: nat, stopSample: nat)
    requires bitLength > 0 && RunDefined(s, e, bitLength, stopSample)
    requires RunDefined(Run(s, e, bitLength, stopSample).0, f, bitLength, stopSample)
    ensures RunDefined(s, e + f, bitLength, stopSample)
    ensures var (t, v) := Run(s, e, bitLength, stopSample);
            var (u, w) := Run(t, f, bitLength, stopSample);
            Run(s, e + f, bitLength, stopSample) == (u, v + w)
    decreases e
  {
    if e == [] {
      assert e + f == f;
      assert [] + Run(s, f, bitLength, stopSample).1 == Run(s, f, bitLength, stopSample).1;
    } else {
      assert (e + f)[1..] == e[1..] + f;
      var (t, word) := Interrupt(s, e[0], bitLength, stopSample);
      RunAppend(t, e[1..], f, bitLength, stopSample);
      var (u, v) := Run(t, e[1..], bitLength, stopSample);
      ConcatAssociates(if word.Some? then [word.value] else [], v, Run(u, f, bitLength, stopSample).1);
    }
  }

  lemma RunSplit(s: Receiver, evs: seq<LineEvent>, n: nat, bitLength: nat, stopSample: nat)
    requires n <= |evs| && bitLength > 0 && RunDefined(s, evs[..n], bitLength, stopSample)
    requires RunDefined(Run(s, evs[..n], bitLength, stopSample).0, evs[n..], bitLength, stopSample)
    ensures RunDefined(s, evs, bitLength, stopSample)
    ensures var (t, v) := Run(s, evs[..n], bitLength, stopSample);
            var (u, w) := Run(t, evs[n..], bitLength, stopSample);
            Run(s, evs, bitLength, stopSample) == (u, v + w)
  {
    RunAppend(s, evs[..n], evs[n..], bitLength, stopSample);
    assert evs[..n] + evs[n..] == evs;
  }

  // ---------------------------------------------------------------- one character

  /** The mask behind the sampling of n bits of a frame: the start bit does not move it. */
  function MaskAfter(n: nat): nat
    requires n <= 9
  {
    [1, 1, 2, 4, 8, 16, 32, 64, 128, 256][n]
  }

  /** The data bits that have been placed after sampling n bits of the frame of b. */
  function Placed(b: byte, n: nat): nat
    requires n <= 9
  {
    b % MaskAfter(n)
  }

  /** Since the edge at `start`, n bits of b's frame have been sampled; the line now holds `level`. */
  ghost predicate Sampled(s: Receiver, b: byte, start: nat, bitLength: nat, stopSample: nat, level: bool, n: nat) {
    n <= 9 && s.active && s.swuBit == level
    && s.edgeSample == start + bitLength / 2 + Times(bitLength, n)
    && s.matchTime == start + bitLength / 2 + stopSample
    && s.cnt == 9 - n && s.cntBits == n && s.rbrMask == MaskAfter(n) && s.rbr == Placed(b, n)
  }

  /** The low bits of x below 2m are those below m and the bit that m masks. */
  lemma SplitBit(x: nat, m: nat)
    requires m > 0
    ensures x % (2 * m) == if x / m % 2 == 1 then x % m + m else x % m
  {
    var q, bit := x / m / 2, x / m % 2;
    assert x == m * (2 * q + bit) + x % m;
    assert m * (2 * q + bit) == 2 * m * q + m * bit;
    assert m * bit + x % m < 2 * m by {
      assert bit == 0 ==> m * bit == 0;
      assert bit == 1 ==> m * bit == m;
    }
    DivModUnique(x, 2 * m, q, m * bit + x % m);
  }

  /** Bit n of the frame, as the receiver's mask finds it in the byte. */
  lemma FrameBit(b: byte, n: nat)
    requires 1 <= n <= 8
    ensures Frame(b)[n] == (b / MaskAfter(n) % 2 == 1)
  {
    if n == 1 {
    } else if n == 2 {
    } else if n == 3 {
    } else if n == 4 {
    } else if n == 5 {
    } else if n == 6 {
    } else if n == 7 {
    }
  }

  /** Or-ing in bit n of the frame completes the low n data bits. */
  lemma PlaceBit(b: byte, n: nat)
    requires 1 <= n <= 8
    ensures MaskAfter(n + 1) == 2 * MaskAfter(n)
    ensures Placed(b, n + 1) == if Frame(b)[n] then Or(Placed(b, n), MaskAfter(n)) else Placed(b, n)
    ensures Placed(b, n + 1) == if Frame(b)[n] then Placed(b, n) + MaskAfter(n) else Placed(b, n)
  {
    var m := MaskAfter(n);
    FrameBit(b, n);
    SplitBit(b, m);
    MasksArePowers(n);
    OrAbove(b % m, m);
  }

  lemma MasksArePowers(n: nat)
    requires 1 <= n <= 8
    ensures IsPowerOfTwo(MaskAfter(n))
  {
    assert IsPowerOfTwo(128);
  }

  lemma SampleOne(s: Receiver, b: byte, start: nat, bitLength: nat, stopSample: nat, level: bool, n: nat)
    requires n < 9 && Sampled(s, b, start, bitLength, stopSample, level, n) && Frame(b)[n] == level
    ensures Sampled(SampleBit(s, bitLength), b, start, bitLength, stopSample, level, n + 1)
    ensures SampleBit(s, bitLength).armedFalling == s.armedFalling
  {
    if n == 0 {
      assert Placed(b, 1) == Placed(b, 0) && MaskAfter(1) == MaskAfter(0);
    } else {
      PlaceBit(b, n);
      assert MaskAfter(n) <= 128;
    }
  }

  /** An edge between the sampling points of bits m - 1 and m makes the receiver sample up to bit m - 1. */
  lemma {:induction false} SampleRun(
      s: Receiver, b: byte, start: nat, bitLength: nat, stopSample: nat, level: bool, n: nat, m: nat, edge: nat)
    requires bitLength > 0 && n <= m <= 9 && Sampled(s, b, start, bitLength, stopSample, level, n)
    requires forall k :: n <= k < m ==> Frame(b)[k] == level
    requires m > 0 ==> start + bitLength / 2 + Times(bitLength, m - 1) < edge
    requires edge <= start + bitLength / 2 + Times(bitLength, m)
    ensures Sampled(SampleUntil(s, edge, bitLength), b, start, bitLength, stopSample, level, m)
    ensures SampleUntil(s, edge, bitLength).armedFalling == s.armedFalling
    decreases m - n
  {
    if n < m {
      if n < m - 1 {
        TimesGrow(bitLength, n, m - 1);
      }
      SampleOne(s, b, start, bitLength, stopSample, level, n);
      SampleRun(SampleBit(s, bitLength), b, start, bitLength, stopSample, level, n + 1, m, edge);
    }
  }

  /** An edge less than half a bit time off its ideal place. */
  predicate Near(edge: int, ideal: int, bitLength: nat) {
    2 * (ideal - edge) < bitLength && 2 * (edge - ideal) < bitLength
  }

  /** The toggles of one character, the first of them its start bit. */
  predicate FrameEdges(edges: seq<nat>, b: byte, bitLength: nat) {
    |edges| == |Toggles(Frame(b))|
    && forall i :: 0 <= i < |edges| ==> Near(edges[i], edges[0] + Times(bitLength, Toggles(Frame(b))[i]), bitLength)
  }

  // ---------------------------------------------------------------- which interrupts a line raises

  /** How many of the toggles have happened by `now`. */
  function Happened(line: seq<nat>, now: nat): (n: nat)
    ensures n <= |line|
  {
    if line == [] || now < line[0] then 0 else 1 + Happened(line[1..], now)
  }

  /** The line's next toggle to which capture unit 2 reacts. */
  function FirstHeard(s: Receiver, falling: bool): nat {
    if falling == s.armedFalling then 0 else 1
  }

  /**
   The timer raises this interrupt, and it is served within the latency. `line` is the instants of the toggles to
   come, of alternating directions, the first falling or rising. The capture unit raises its flag at the first
   toggle of the direction it is armed for, and holds the time of the last such toggle; toggles of the other
   direction are lost. The flag of match 1 comes up at matchTime while a character is being received.
   */
  predicate Serves(s: Receiver, ev: LineEvent, line: seq<nat>, falling: bool, latency: nat) {
    var n, first := Happened(line, ev.now), FirstHeard(s, falling);
    match ev
    case Edge(time, direction, matched, now) =>
      first < n && now < line[first] + latency
      && time == line[n - 1 - (n - 1 - first) % 2] && direction == s.armedFalling
      && matched == (s.active && s.matchTime <= now) && (matched ==> now < s.matchTime + latency)
    case Match(now) =>
      n <= first && s.active && s.matchTime <= now < s.matchTime + latency
  }

  /** The interrupts are those raised, and in time served, while the line toggles at the given instants. */
  predicate Timely(
    s: Receiver, evs: seq<LineEvent>, line: seq<nat>, falling: bool, bitLength: nat, stopSample: nat, latency: nat)
    requires bitLength > 0
    decreases evs
  {
    if evs == [] then
      !s.active && |line| <= FirstHeard(s, falling)
    else
      Serves(s, evs[0], line, falling, latency)
      && (Defined(s, evs[0], bitLength, stopSample) ==>
            var n := Happened(line, evs[0].now);
            Timely(Interrupt(s, evs[0], bitLength, stopSample).0, evs[1..],
                   line[n..], if n % 2 == 0 then falling else !falling, bitLength, stopSample, latency))
  }

  /**
   What becomes of toggles that are not apart: one that comes before its predecessor is served is lost, and of three
   that come before the service the last is captured. An edge of the direction not armed is not captured at all.
   */
  lemma EarlyTogglesLost(s: Receiver, ev: LineEvent, line: seq<nat>, falling: bool, latency: nat)
    requires ev.Edge? && Serves(s, ev, line, falling, latency)
    ensures var n := Happened(line, ev.now);
            && ev.falling == s.armedFalling
            && (if falling == s.armedFalling
                then n >= 1 && (n <= 2 ==> ev.time == line[0]) && (n == 3 ==> ev.time == line[2])
                else n >= 2 && (n <= 3 ==> ev.time == line[1]) && (n == 4 ==> ev.time == line[3]))
  {}

  /** Each toggle is a latency behind the one before, so that none is lost. */
  predicate Apart(line: seq<nat>, latency: nat) {
    forall i :: 0 < i < |line| ==> line[i - 1] + latency <= line[i]
  }

  /** The line rests, after a character that began at `start`, until its stop bit has been sampled and served. */
  predicate Rests(line: seq<nat>, start: nat, bitLength: nat, latency: nat) {
    line != [] ==> start + bitLength / 2 + 9 * bitLength + latency <= line[0]
  }

  function LastFrom(l: Line, k: nat, p: nat): nat
    requires 1 <= k <= 10
    decreases |l| - k
  {
    if k == 10 then p else LastFrom(l, k + 1, if l[k] != l[k - 1] then k else p)
  }

  /** The bit time in which the run of ones that ends the character begins. */
  function LastToggle(l: Line): nat {
    LastFrom(l, 1, 0)
  }

  lemma LastToggleBounds(l: Line)
    ensures 1 <= LastToggle(l) <= 9
    ensures forall k :: LastToggle(l) <= k <= 9 ==> l[k]
    ensures !l[LastToggle(l) - 1]
  {
    LastFromBounds(l, 1, 0);
  }

  lemma {:induction false} LastFromBounds(l: Line, k: nat, p: nat)
    requires 1 <= k <= 10 && p < k && (forall i :: p <= i < k ==> l[i] == l[p])
    requires p > 0 ==> l[p - 1] != l[p]
    ensures var q := LastFrom(l, k, p);
            1 <= q <= 9 && (forall i :: q <= i <= 9 ==> l[i]) && !l[q - 1]
    decreases 10 - k
  {
    if k < 10 {
      LastFromBounds(l, k + 1, if l[k] != l[k - 1] then k else p);
    }
  }

  /** What the receiver makes of byte b: the fix-up for the final run of ones shifts the bits placed so far. */
  function StoredByte(b: byte): (r: nat)
    ensures r < 256
  {
    LastToggleBounds(Frame(b));
    var j := LastToggle(Frame(b));
    (Shl(b % MaskAfter(j), 9 - j) + Shl(0xFF, j - 1)) % 256
  }

  /** Two to the n. */
  function Power(n: nat): nat
    requires n <= 8
  {
    MaskAfter(n + 1)
  }

  lemma {:induction false} ShlIsProduct(x: nat, n: nat)
    requires n <= 8 && x < 0x10000
    requires x * Power(n) < 0x10000
    ensures Shl(x, n) == x * Power(n)
    decreases n
  {
    if n > 0 {
      assert Power(n) == 2 * Power(n - 1);
      assert x * Power(n) == 2 * x * Power(n - 1);
      assert 2 * x <= 2 * x * Power(n - 1);
      ShlIsProduct(2 * x, n - 1);
    }
  }

  lemma PlacedShifts(b: byte, j: nat)
    requires 1 <= j <= 9
    ensures Shl(Placed(b, j), 9 - j) == Placed(b, j) * Power(9 - j) < 256
    ensures Shl(0xFF, j - 1) == 0xFF * Power(j - 1) < 0x10000
  {
    assert Power(j - 1) == MaskAfter(j);
    assert Power(j - 1) * Power(9 - j) == 256;
    assert Placed(b, j) < Power(j - 1);
    assert Placed(b, j) * Power(9 - j) < 256;
    ShlIsProduct(Placed(b, j), 9 - j);
    ShlIsProduct(0xFF, j - 1);
  }

  lemma PlacedShiftsSmall(b: byte, j: nat)
    requires 1 <= j <= 9
    ensures Shl(Placed(b, j), 9 - j) < 256 && Shl(0xFF, j - 1) < 0x10000
    ensures j == 9 ==> Shl(0xFF, j - 1) % 256 == 0
  {
    PlacedShifts(b, j);
  }

  lemma StoredWordAs(s: Receiver, j: nat)
    requires 1 <= j <= 9 && s.swuBit && s.cnt == 9 - j
    requires Shl(s.rbr, s.cnt) < 256 && Shl(0xFF, j - 1) < 0x10000
    requires j == 9 ==> Shl(0xFF, j - 1) % 256 == 0
    ensures ShiftsDefined(s) && StoredWord(s) == (Shl(s.rbr, s.cnt) + Shl(0xFF, j - 1)) % 256
  {
    var low, ones := Shl(s.rbr, s.cnt), Shl(0xFF, j - 1);
    assert Shl(0xFF, 8 - s.cnt) == ones;
    ByteOfSum(low, ones);
  }

  lemma ByteOfSum(low: nat, ones: nat)
    requires low < 256 && ones < 0x10000
    ensures (low + ones) % 0x1_0000_0000 == low + ones
    ensures ones % 256 == 0 ==> (low + ones) % 256 == low % 256
  {}

  lemma StoredWordIsByte(s: Receiver, b: byte, start: nat, bitLength: nat, stopSample: nat)
    requires Sampled(s, b, start, bitLength, stopSample, true, LastToggle(Frame(b)))
    ensures ShiftsDefined(s) && StoredWord(s) == StoredByte(b)
  {
    var j := LastToggle(Frame(b));
    LastToggleBounds(Frame(b));
    PlacedShiftsSmall(b, j);
    StoredWordAs(s, j);
  }

  /** The receiver between characters. */
  predicate Idle(s: Receiver) {
    !s.active && s.armedFalling && s.cntBits == 0
  }

  /** The events complete one character: the word stored is that of b, and the receiver is idle again. */
  ghost predicate Receives(s: Receiver, evs: seq<LineEvent>, b: byte, bitLength: nat, stopSample: nat)
    requires bitLength > 0
  {
    RunDefined(s, evs, bitLength, stopSample)
    && var (t, words) := Run(s, evs, bitLength, stopSample);
       Idle(t) && words == [StoredByte(b)]
  }

  /** The line has been level since the edge of bit time p, and so it is up to bit time k. */
  ghost predicate Following(s: Receiver, b: byte, start: nat, bitLength: nat, stopSample: nat, p: nat, k: nat) {
    bitLength > 0 && p < k <= 10
    && Sampled(s, b, start, bitLength, stopSample, Frame(b)[p], p)
    && (forall i :: p <= i < k ==> Frame(b)[i] == Frame(b)[p])
    && LastFrom(Frame(b), k, p) == LastToggle(Frame(b))
    && s.armedFalling == Frame(b)[p]
  }

  /** The edges of the frame of b from bit time k on. */
  predicate EdgesFrom(edges: seq<nat>, b: byte, k: nat, start: nat, bitLength: nat)
    requires 1 <= k <= 10
  {
    |edges| == |TogglesFrom(Frame(b), k)|
    && forall i :: 0 <= i < |edges| ==> Near(edges[i], start + Times(bitLength, TogglesFrom(Frame(b), k)[i]), bitLength)
  }

  /** The first n interrupts receive b, and the others are those of the rest of the line. */
  ghost predicate CharacterEnds(
    s: Receiver, evs: seq<LineEvent>, n: nat, b: byte, bitLength: nat, latency: nat, rest: seq<nat>)
    requires bitLength > 0 && n <= |evs|
  {
    Receives(s, evs[..n], b, bitLength, 9 * bitLength)
    && Timely(Run(s, evs[..n], bitLength, 9 * bitLength).0, evs[n..], rest, true, bitLength, 9 * bitLength, latency)
  }

  /** An edge that does not end the character is one more interrupt of it. */
  lemma OneMoreInterrupt(
      s: Receiver, evs: seq<LineEvent>, m: nat, b: byte, bitLength: nat, latency: nat, rest: seq<nat>)
    requires bitLength > 0 && m < |evs| && evs[0].Edge? && Raised(s, evs[0]) && !evs[0].matched
    requires evs[0].now < Capture(s, evs[0].time, bitLength, 9 * bitLength).matchTime
    requires CharacterEnds(Capture(s, evs[0].time, bitLength, 9 * bitLength), evs[1..], m, b, bitLength, latency, rest)
    ensures CharacterEnds(s, evs, m + 1, b, bitLength, latency, rest)
  {
    assert evs[..m + 1][1..] == evs[1..][..m] && evs[m + 1..] == evs[1..][m..];
    QuietEdge(s, evs[..m + 1], bitLength, 9 * bitLength);
  }

  /** An edge of bit time k comes before the stop bit is sampled, and is served before, unless k is 9. */
  lemma BeforeStop(edge: nat, start: nat, bitLength: nat, k: nat)
    requires k <= 9 && Near(edge, start + Times(bitLength, k), bitLength)
    ensures edge <= start + bitLength / 2 + 9 * bitLength
    ensures k <= 8 ==> edge + bitLength <= start + bitLength / 2 + 9 * bitLength
  {
    TimesIsProduct(bitLength, 9);
    TimesIsProduct(bitLength, 8);
    if k < 8 {
      TimesGrow(bitLength, k, 8);
    }
  }

  lemma OneHappened(line: seq<nat>, now: nat, latency: nat)
    requires line != [] && Apart(line, latency) && line[0] <= now < line[0] + latency
    ensures Happened(line, now) == 1
  {
    if |line| > 1 {
      assert line[0] + latency <= line[1];
      assert Happened(line[1..], now) == 0;
    } else {
      assert line[1..] == [];
    }
  }

  /** With all edges behind, the interrupt served next is that of the stop bit alone. */
  lemma NextIsMatch(
      s: Receiver, start: nat, bitLength: nat, latency: nat, evs: seq<LineEvent>, line: seq<nat>)
    requires bitLength > 0 && s.active && s.matchTime == start + bitLength / 2 + 9 * bitLength
    requires Rests(line, start, bitLength, latency)
    requires Timely(s, evs, line, s.armedFalling, bitLength, 9 * bitLength, latency)
    ensures evs != [] && evs[0].Match? && Happened(line, evs[0].now) == 0
  {}

  /** With an edge to come, the interrupt served next is that of the edge. */
  lemma NextIsEdge(
      s: Receiver, start: nat, bitLength: nat, k: nat, latency: nat, evs: seq<LineEvent>, line: seq<nat>)
    requires bitLength > 0 && s.active && s.matchTime == start + bitLength / 2 + 9 * bitLength
    requires latency <= bitLength && Apart(line, latency)
    requires k <= 9 && line != [] && Near(line[0], start + Times(bitLength, k), bitLength)
    requires evs != [] && Serves(s, evs[0], line, s.armedFalling, latency)
    ensures evs[0].Edge? && evs[0].time == line[0] && Happened(line, evs[0].now) == 1
    ensures Raised(s, evs[0]) && evs[0].matched == (s.matchTime <= evs[0].now)
    ensures k <= 8 ==> evs[0].now < s.matchTime
  {
    BeforeStop(line[0], start, bitLength, k);
    OneHappened(line, evs[0].now, latency);
  }

  /** What is left of the run when one toggle has been served. */
  lemma Served(s: Receiver, bitLength: nat, latency: nat, evs: seq<LineEvent>, line: seq<nat>)
    requires bitLength > 0 && evs != [] && line != [] && Happened(line, evs[0].now) == 1
    requires Timely(s, evs, line, s.armedFalling, bitLength, 9 * bitLength, latency)
    requires Defined(s, evs[0], bitLength, 9 * bitLength)
    ensures Timely(Interrupt(s, evs[0], bitLength, 9 * bitLength).0, evs[1..], line[1..], !s.armedFalling,
                   bitLength, 9 * bitLength, latency)
  {}

  /**
   Following the remaining edges of a frame ends the character, within n interrupts, with the byte stored and no
   framing flag, and the interrupts behind are those of the rest of the line.
   */
  lemma {:induction false} FollowEdges(
      s: Receiver, b: byte, start: nat, bitLength: nat, p: nat, k: nat, latency: nat,
      evs: seq<LineEvent>, edges: seq<nat>, rest: seq<nat>) returns (n: nat)
    requires Following(s, b, start, bitLength, 9 * bitLength, p, k) && EdgesFrom(edges, b, k, start, bitLength)
    requires latency <= bitLength && Apart(edges + rest, latency) && Rests(rest, start, bitLength, latency)
    requires Timely(s, evs, edges + rest, s.armedFalling, bitLength, 9 * bitLength, latency)
    ensures n <= |evs| && CharacterEnds(s, evs, n, b, bitLength, latency, rest)
    decreases 10 - k
  {
    if k == 10 {
      assert edges + rest == rest;
      NextIsMatch(s, start, bitLength, latency, evs, rest);
      StoredWordIsByte(s, b, start, bitLength, 9 * bitLength);
      LastMatch(s, evs[..1], bitLength, 9 * bitLength);
      n := 1;
    } else if Frame(b)[k] == Frame(b)[k - 1] {
      n := FollowEdges(s, b, start, bitLength, p, k + 1, latency, evs, edges, rest);
    } else {
      n := FollowToggle(s, b, start, bitLength, p, k, latency, evs, edges, rest);
    }
  }

  lemma EdgesBehind(edges: seq<nat>, b: byte, k: nat, start: nat, bitLength: nat)
    requires 1 <= k <= 9 && EdgesFrom(edges, b, k, start, bitLength) && Frame(b)[k] != Frame(b)[k - 1]
    ensures edges != [] && Near(edges[0], start + Times(bitLength, k), bitLength)
    ensures EdgesFrom(edges[1..], b, k + 1, start, bitLength)
  {
    var ts := TogglesFrom(Frame(b), k);
    assert ts == [k] + TogglesFrom(Frame(b), k + 1);
    assert ts[1..] == TogglesFrom(Frame(b), k + 1);
    forall i | 0 <= i < |edges[1..]|
      ensures Near(edges[1..][i], start + Times(bitLength, ts[1..][i]), bitLength)
    {
      assert edges[1..][i] == edges[i + 1] && ts[1..][i] == ts[i + 1];
    }
  }

  /** The next interrupt is that of the next edge; what it leaves of the line, and for the receiver. */
  lemma NextToggle(
      s: Receiver, b: byte, start: nat, bitLength: nat, p: nat, k: nat, latency: nat,
      evs: seq<LineEvent>, edges: seq<nat>, rest: seq<nat>) returns (t: Receiver)
    requires Following(s, b, start, bitLength, 9 * bitLength, p, k) && EdgesFrom(edges, b, k, start, bitLength)
    requires k <= 9 && Frame(b)[k] != Frame(b)[k - 1]
    requires latency <= bitLength && Apart(edges + rest, latency)
    requires Timely(s, evs, edges + rest, s.armedFalling, bitLength, 9 * bitLength, latency)
    ensures evs != [] && edges != [] && evs[0].Edge? && Raised(s, evs[0])
    ensures evs[0].matched == (s.matchTime <= evs[0].now) && (k <= 8 ==> evs[0].now < s.matchTime)
    ensures t == Capture(s, evs[0].time, bitLength, 9 * bitLength) && s.active
    ensures t.matchTime == s.matchTime && t.armedFalling == !s.armedFalling
    ensures Following(t, b, start, bitLength, 9 * bitLength, k, k + 1)
    ensures EdgesFrom(edges[1..], b, k + 1, start, bitLength) && Apart(edges[1..] + rest, latency)
    ensures evs[0].now < s.matchTime ==>
              Timely(t, evs[1..], edges[1..] + rest, t.armedFalling, bitLength, 9 * bitLength, latency)
    ensures Defined(s, evs[0], bitLength, 9 * bitLength) ==>
              Timely(Interrupt(s, evs[0], bitLength, 9 * bitLength).0, evs[1..], edges[1..] + rest, !s.armedFalling,
                     bitLength, 9 * bitLength, latency)
  {
    var line := edges + rest;
    EdgesBehind(edges, b, k, start, bitLength);
    NextIsEdge(s, start, bitLength, k, latency, evs, line);
    if Defined(s, evs[0], bitLength, 9 * bitLength) {
      Served(s, bitLength, latency, evs, line);
    }
    t := FollowOne(s, b, start, bitLength, 9 * bitLength, p, k, evs[0]);
    TailOfConcat(edges, rest);
    if evs[0].now < s.matchTime {
      assert Interrupt(s, evs[0], bitLength, 9 * bitLength).0 == t;
    }
  }

  lemma {:induction false} FollowToggle(
      s: Receiver, b: byte, start: nat, bitLength: nat, p: nat, k: nat, latency: nat,
      evs: seq<LineEvent>, edges: seq<nat>, rest: seq<nat>) returns (n: nat)
    requires Following(s, b, start, bitLength, 9 * bitLength, p, k) && EdgesFrom(edges, b, k, start, bitLength)
    requires k <= 9 && Frame(b)[k] != Frame(b)[k - 1]
    requires latency <= bitLength && Apart(edges + rest, latency) && Rests(rest, start, bitLength, latency)
    requires Timely(s, evs, edges + rest, s.armedFalling, bitLength, 9 * bitLength, latency)
    ensures n <= |evs| && CharacterEnds(s, evs, n, b, bitLength, latency, rest)
    decreases 10 - k, 1
  {
    var t := NextToggle(s, b, start, bitLength, p, k, latency, evs, edges, rest);
    if evs[0].now < s.matchTime {
      n := FollowQuiet(s, t, b, start, bitLength, k, latency, evs, edges[1..], rest);
    } else {
      FollowLate(s, t, b, start, bitLength, k, latency, evs, edges[1..], rest);
      n := 1;
    }
  }

  /** An edge that does not end the character, and those behind it. */
  lemma {:induction false} FollowQuiet(
      s: Receiver, t: Receiver, b: byte, start: nat, bitLength: nat, k: nat, latency: nat,
      evs: seq<LineEvent>, edges: seq<nat>, rest: seq<nat>) returns (n: nat)
    requires bitLength > 0 && k <= 9 && evs != [] && evs[0].Edge? && Raised(s, evs[0]) && !evs[0].matched
    requires t == Capture(s, evs[0].time, bitLength, 9 * bitLength) && evs[0].now < t.matchTime
    requires Following(t, b, start, bitLength, 9 * bitLength, k, k + 1)
    requires EdgesFrom(edges, b, k + 1, start, bitLength)
    requires latency <= bitLength && Apart(edges + rest, latency) && Rests(rest, start, bitLength, latency)
    requires Timely(t, evs[1..], edges + rest, t.armedFalling, bitLength, 9 * bitLength, latency)
    ensures n <= |evs| && CharacterEnds(s, evs, n, b, bitLength, latency, rest)
    decreases 10 - k, 0
  {
    var m := FollowEdges(t, b, start, bitLength, k, k + 1, latency, evs[1..], edges, rest);
    n := m + 1;
    OneMoreInterrupt(s, evs, m, b, bitLength, latency, rest);
  }

  /** The last edge of the frame, served so late that the same interrupt ends the character. */
  lemma FollowLate(
      s: Receiver, t: Receiver, b: byte, start: nat, bitLength: nat, k: nat, latency: nat,
      evs: seq<LineEvent>, edges: seq<nat>, rest: seq<nat>)
    requires k == 9 && EdgesFrom(edges, b, k + 1, start, bitLength)
    requires bitLength > 0 && evs != [] && evs[0].Edge? && Raised(s, evs[0]) && s.active
    requires evs[0].now >= s.matchTime == start + bitLength / 2 + 9 * bitLength
    requires t == Capture(s, evs[0].time, bitLength, 9 * bitLength)
    requires Following(t, b, start, bitLength, 9 * bitLength, k, k + 1)
    requires Defined(s, evs[0], bitLength, 9 * bitLength) ==>
               Timely(Interrupt(s, evs[0], bitLength, 9 * bitLength).0, evs[1..], edges + rest, !s.armedFalling,
                      bitLength, 9 * bitLength, latency)
    requires t.armedFalling == !s.armedFalling
    ensures CharacterEnds(s, evs, 1, b, bitLength, latency, rest)
  {
    assert edges + rest == rest;
    LateEnd(s, b, start, bitLength, 9 * bitLength, k, evs[..1]);
  }

  lemma NoEdgeBehind(edges: seq<nat>, b: byte, start: nat, bitLength: nat, k: nat)
    requires k == 9 && EdgesFrom(edges, b, k, start, bitLength) && edges != []
    ensures edges[1..] == []
  {}

  lemma FollowOne(s: Receiver, b: byte, start: nat, bitLength: nat, stopSample: nat, p: nat, k: nat, ev: LineEvent)
    returns (t: Receiver)
    requires Following(s, b, start, bitLength, stopSample, p, k) && k <= 9 && ev.Edge?
    requires Frame(b)[k] != Frame(b)[k - 1]
    requires Near(ev.time, start + Times(bitLength, k), bitLength)
    ensures t == Capture(s, ev.time, bitLength, stopSample) && t.matchTime == s.matchTime && s.active
    ensures Following(t, b, start, bitLength, stopSample, k, k + 1) && t.armedFalling == !s.armedFalling
  {
    TakeEdge(s, b, start, bitLength, stopSample, p, k, ev);
    t := Capture(s, ev.time, bitLength, stopSample);
  }

  /** The last edge of the frame, served after the stop bit was due. */
  lemma LateEnd(s: Receiver, b: byte, start: nat, bitLength: nat, stopSample: nat, k: nat, evs: seq<LineEvent>)
    requires bitLength > 0 && k == 9 && |evs| == 1 && evs[0].Edge? && Raised(s, evs[0]) && s.active
    requires evs[0].now >= s.matchTime == start + bitLength / 2 + stopSample
    requires Following(Capture(s, evs[0].time, bitLength, stopSample), b, start, bitLength, stopSample, k, k + 1)
    ensures Receives(s, evs, b, bitLength, stopSample)
    ensures Run(s, evs, bitLength, stopSample).0 == Interrupt(s, evs[0], bitLength, stopSample).0
  {
    StoredWordIsByte(Capture(s, evs[0].time, bitLength, stopSample), b, start, bitLength, stopSample);
    LateEdge(s, evs, bitLength, stopSample);
  }

  /** An edge at bit time k moves the receiver from the run starting at p to the run starting at k. */
  lemma TakeEdge(s: Receiver, b: byte, start: nat, bitLength: nat, stopSample: nat, p: nat, k: nat, ev: LineEvent)
    requires bitLength > 0 && p < k <= 9 && ev.Edge?
    requires Sampled(s, b, start, bitLength, stopSample, Frame(b)[p], p)
    requires forall i :: p <= i < k ==> Frame(b)[i] == Frame(b)[p]
    requires Frame(b)[k] != Frame(b)[k - 1]
    requires Near(ev.time, start + Times(bitLength, k), bitLength)
    ensures var t := Capture(s, ev.time, bitLength, stopSample);
            Sampled(t, b, start, bitLength, stopSample, Frame(b)[k], k) && t.armedFalling == !s.armedFalling
            && t.matchTime == s.matchTime
  {
    var u := s.(armedFalling := !s.armedFalling);
    SampleRun(u, b, start, bitLength, stopSample, Frame(b)[p], p, k, ev.time);
  }

  lemma LastMatch(s: Receiver, evs: seq<LineEvent>, bitLength: nat, stopSample: nat)
    requires bitLength > 0 && |evs| == 1 && evs[0].Match? && ShiftsDefined(s)
    ensures RunDefined(s, evs, bitLength, stopSample)
    ensures Run(s, evs, bitLength, stopSample) == (Finish(s), [StoredWord(s)])
  {
    assert Interrupt(s, evs[0], bitLength, stopSample) == (Finish(s), Some(StoredWord(s)));
    assert Run(Finish(s), evs[1..], bitLength, stopSample) == (Finish(s), []);
    assert [StoredWord(s)] + [] == [StoredWord(s)];
  }

  lemma LateEdge(s: Receiver, evs: seq<LineEvent>, bitLength: nat, stopSample: nat)
    requires bitLength > 0 && |evs| == 1 && evs[0].Edge? && Raised(s, evs[0]) && s.active
    requires evs[0].now >= s.matchTime && Capture(s, evs[0].time, bitLength, stopSample).matchTime == s.matchTime
    requires ShiftsDefined(Capture(s, evs[0].time, bitLength, stopSample))
    ensures RunDefined(s, evs, bitLength, stopSample)
    ensures var t := Capture(s, evs[0].time, bitLength, stopSample);
            Run(s, evs, bitLength, stopSample) == (Finish(t), [StoredWord(t)])
  {
    var t := Capture(s, evs[0].time, bitLength, stopSample);
    assert Interrupt(s, evs[0], bitLength, stopSample) == (Finish(t), Some(StoredWord(t)));
    assert Run(Finish(t), evs[1..], bitLength, stopSample) == (Finish(t), []);
    assert [StoredWord(t)] + [] == [StoredWord(t)];
  }

  lemma QuietEdge(s: Receiver, evs: seq<LineEvent>, bitLength: nat, stopSample: nat)
    requires bitLength > 0 && evs != [] && evs[0].Edge? && Raised(s, evs[0])
    requires !evs[0].matched && evs[0].now < Capture(s, evs[0].time, bitLength, stopSample).matchTime
    requires RunDefined(Capture(s, evs[0].time, bitLength, stopSample), evs[1..], bitLength, stopSample)
    ensures RunDefined(s, evs, bitLength, stopSample)
    ensures Run(s, evs, bitLength, stopSample)
         == Run(Capture(s, evs[0].time, bitLength, stopSample), evs[1..], bitLength, stopSample)
  {
    var t := Capture(s, evs[0].time, bitLength, stopSample);
    assert Interrupt(s, evs[0], bitLength, stopSample) == (t, None);
    var (u, words) := Run(t, evs[1..], bitLength, stopSample);
    assert [] + words == words;
  }

  /**
   One character on the wire, every edge less than half a bit time off, whatever the latency below one bit of the
   interrupts: exactly one word is received, it is StoredByte(b) without a framing flag, every shift is defined, and
   the receiver is ready for the next start bit when the rest of the line begins.
   */
  lemma ReceiveFrame(
      s: Receiver, b: byte, bitLength: nat, latency: nat, evs: seq<LineEvent>, edges: seq<nat>, rest: seq<nat>)
    returns (n: nat)
    requires Idle(s) && 0 < bitLength && latency <= bitLength
    requires FrameEdges(edges, b, bitLength) && Apart(edges + rest, latency)
    requires Rests(rest, edges[0], bitLength, latency)
    requires Timely(s, evs, edges + rest, true, bitLength, 9 * bitLength, latency)
    ensures 0 < n <= |evs| && RunDefined(s, evs[..n], bitLength, 9 * bitLength)
    ensures var (t, words) := Run(s, evs[..n], bitLength, 9 * bitLength);
            Idle(t) && words == [StoredByte(b)]
            && Timely(t, evs[n..], rest, true, bitLength, 9 * bitLength, latency)
  {
    var start, line := edges[0], edges + rest;
    FirstIsEdge(s, bitLength, latency, evs, line);
    var t := Capture(s, start, bitLength, 9 * bitLength);
    StartsFollowing(s, b, start, bitLength, 9 * bitLength);
    TailOfConcat(edges, rest);
    FirstOfEdges(edges, b, bitLength);
    var m := FollowEdges(t, b, start, bitLength, 0, 1, latency, evs[1..], edges[1..], rest);
    n := m + 1;
    OneMoreInterrupt(s, evs, m, b, bitLength, latency, rest);
  }

  /** The interrupts are those of the line to a receiver between characters, whatever the character before left in it. */
  ghost predicate ServesIdle(evs: seq<LineEvent>, line: seq<nat>, bitLength: nat, latency: nat)
    requires bitLength > 0
  {
    forall t :: Idle(t) ==> Timely(t, evs, line, true, bitLength, 9 * bitLength, latency)
  }

  /** Every character can be served in time: serving each flag as it comes up is a run of interrupts for its edges. */
  lemma FrameCanBeServed(
      b: byte, bitLength: nat, latency: nat, edges: seq<nat>, rest: seq<nat>, later: seq<LineEvent>)
    returns (evs: seq<LineEvent>)
    requires 0 < latency <= bitLength && FrameEdges(edges, b, bitLength) && Apart(edges + rest, latency)
    requires Rests(rest, edges[0], bitLength, latency) && ServesIdle(later, rest, bitLength, latency)
    ensures ServesIdle(evs, edges + rest, bitLength, latency)
  {
    var start := edges[0];
    var t := Capture(RESET, start, bitLength, 9 * bitLength);
    StartsFollowing(RESET, b, start, bitLength, 9 * bitLength);
    FirstOfEdges(edges, b, bitLength);
    TailOfConcat(edges, rest);
    var tail := ServeEdges(t, b, start, bitLength, 0, 1, latency, edges[1..], rest, later);
    evs := [Edge(start, true, false, start)] + tail;
    forall s | Idle(s)
      ensures Timely(s, evs, edges + rest, true, bitLength, 9 * bitLength, latency)
    {
      StartServed(s, bitLength, latency, edges + rest, tail);
    }
  }

  /** A start bit served as it comes. What an idle receiver has left over does not matter. */
  lemma StartServed(s: Receiver, bitLength: nat, latency: nat, line: seq<nat>, tail: seq<LineEvent>)
    requires Idle(s) && 0 < latency <= bitLength && line != [] && Apart(line, latency)
    requires Timely(Capture(RESET, line[0], bitLength, 9 * bitLength), tail, line[1..], false,
                    bitLength, 9 * bitLength, latency)
    ensures Timely(s, [Edge(line[0], true, false, line[0])] + tail, line, true, bitLength, 9 * bitLength, latency)
  {
    var ev := Edge(line[0], true, false, line[0]);
    OneHappened(line, line[0], latency);
    assert Interrupt(s, ev, bitLength, 9 * bitLength).0 == Capture(RESET, line[0], bitLength, 9 * bitLength);
    assert ([ev] + tail)[1..] == tail;
  }

  lemma {:induction false} ServeEdges(
      s: Receiver, b: byte, start: nat, bitLength: nat, p: nat, k: nat, latency: nat,
      edges: seq<nat>, rest: seq<nat>, later: seq<LineEvent>)
    returns (evs: seq<LineEvent>)
    requires Following(s, b, start, bitLength, 9 * bitLength, p, k) && EdgesFrom(edges, b, k, start, bitLength)
    requires 0 < latency <= bitLength && Apart(edges + rest, latency) && Rests(rest, start, bitLength, latency)
    requires ServesIdle(later, rest, bitLength, latency)
    ensures Timely(s, evs, edges + rest, s.armedFalling, bitLength, 9 * bitLength, latency)
    decreases 10 - k
  {
    if k == 10 {
      assert edges + rest == rest;
      StoredWordIsByte(s, b, start, bitLength, 9 * bitLength);
      evs := [Match(s.matchTime)] + later;
      MatchServed(s, start, bitLength, latency, rest, later);
    } else if Frame(b)[k] == Frame(b)[k - 1] {
      evs := ServeEdges(s, b, start, bitLength, p, k + 1, latency, edges, rest, later);
    } else {
      evs := ServeToggle(s, b, start, bitLength, p, k, latency, edges, rest, later);
    }
  }

  /** The stop bit served as it comes. */
  lemma MatchServed(
      s: Receiver, start: nat, bitLength: nat, latency: nat, rest: seq<nat>, later: seq<LineEvent>)
    requires 0 < latency <= bitLength && s.active && s.armedFalling && ShiftsDefined(s)
    requires s.matchTime == start + bitLength / 2 + 9 * bitLength && Rests(rest, start, bitLength, latency)
    requires ServesIdle(later, rest, bitLength, latency)
    ensures Timely(s, [Match(s.matchTime)] + later, rest, true, bitLength, 9 * bitLength, latency)
  {
    assert Happened(rest, s.matchTime) == 0;
    assert Idle(Finish(s));
    assert ([Match(s.matchTime)] + later)[1..] == later;
  }

  lemma {:induction false} ServeToggle(
      s: Receiver, b: byte, start: nat, bitLength: nat, p: nat, k: nat, latency: nat,
      edges: seq<nat>, rest: seq<nat>, later: seq<LineEvent>)
    returns (evs: seq<LineEvent>)
    requires Following(s, b, start, bitLength, 9 * bitLength, p, k) && EdgesFrom(edges, b, k, start, bitLength)
    requires k <= 9 && Frame(b)[k] != Frame(b)[k - 1]
    requires 0 < latency <= bitLength && Apart(edges + rest, latency) && Rests(rest, start, bitLength, latency)
    requires ServesIdle(later, rest, bitLength, latency)
    ensures Timely(s, evs, edges + rest, s.armedFalling, bitLength, 9 * bitLength, latency)
    decreases 10 - k, 0
  {
    EdgesBehind(edges, b, k, start, bitLength);
    BeforeStop(edges[0], start, bitLength, k);
    TailOfConcat(edges, rest);
    var ev := Edge(edges[0], s.armedFalling, s.matchTime <= edges[0], edges[0]);
    var t := FollowOne(s, b, start, bitLength, 9 * bitLength, p, k, ev);
    if edges[0] < s.matchTime {
      var tail := ServeEdges(t, b, start, bitLength, k, k + 1, latency, edges[1..], rest, later);
      evs := [ev] + tail;
      EdgeServed(s, t, ev, tail, bitLength, latency, edges + rest);
    } else {
      NoEdgeBehind(edges, b, start, bitLength, k);
      StoredWordIsByte(t, b, start, bitLength, 9 * bitLength);
      assert edges[1..] + rest == rest;
      evs := [ev] + later;
      LateEdgeServed(s, t, ev, later, bitLength, latency, edges + rest);
    }
  }

  /** An edge served as it comes, and interrupts for the rest of the line. */
  lemma EdgeServed(
      s: Receiver, t: Receiver, ev: LineEvent, tail: seq<LineEvent>, bitLength: nat, latency: nat, line: seq<nat>)
    requires 0 < latency <= bitLength && line != [] && Apart(line, latency) && s.active
    requires ev == Edge(line[0], s.armedFalling, false, line[0]) && line[0] < s.matchTime == t.matchTime
    requires t == Capture(s, line[0], bitLength, 9 * bitLength) && t.armedFalling == !s.armedFalling
    requires Timely(t, tail, line[1..], t.armedFalling, bitLength, 9 * bitLength, latency)
    ensures Timely(s, [ev] + tail, line, s.armedFalling, bitLength, 9 * bitLength, latency)
  {
    ServesAtOnce(s, ev, latency, line);
    assert Interrupt(s, ev, bitLength, 9 * bitLength).0 == t;
    assert ([ev] + tail)[1..] == tail;
  }

  lemma ServesAtOnce(s: Receiver, ev: LineEvent, latency: nat, line: seq<nat>)
    requires 0 < latency && line != [] && Apart(line, latency) && s.active && line[0] <= s.matchTime
    requires ev == Edge(line[0], s.armedFalling, s.matchTime <= line[0], line[0])
    ensures Happened(line, line[0]) == 1 && Serves(s, ev, line, s.armedFalling, latency)
  {
    OneHappened(line, line[0], latency);
  }

  /** The same for an edge that comes as late as the stop bit is sampled. */
  lemma LateEdgeServed(
      s: Receiver, t: Receiver, ev: LineEvent, tail: seq<LineEvent>, bitLength: nat, latency: nat, line: seq<nat>)
    requires 0 < latency <= bitLength && line != [] && Apart(line, latency) && s.active
    requires ev == Edge(line[0], s.armedFalling, true, line[0]) && line[0] == s.matchTime == t.matchTime
    requires t == Capture(s, line[0], bitLength, 9 * bitLength) && !s.armedFalling && t.armedFalling
    requires ShiftsDefined(t) && ServesIdle(tail, line[1..], bitLength, latency)
    ensures Timely(s, [ev] + tail, line, s.armedFalling, bitLength, 9 * bitLength, latency)
  {
    ServesAtOnce(s, ev, latency, line);
    assert Interrupt(s, ev, bitLength, 9 * bitLength).0 == Finish(t) && Idle(Finish(t));
    assert ([ev] + tail)[1..] == tail;
  }

  /** The start bit. */
  lemma StartsFollowing(s: Receiver, b: byte, start: nat, bitLength: nat, stopSample: nat)
    requires Idle(s) && bitLength > 0
    ensures Following(Capture(s, start, bitLength, stopSample), b, start, bitLength, stopSample, 0, 1)
  {
    var t := Capture(s, start, bitLength, stopSample);
    assert Placed(b, 0) == 0;
    assert Sampled(t, b, start, bitLength, stopSample, false, 0);
  }

  lemma FirstOfEdges(edges: seq<nat>, b: byte, bitLength: nat)
    requires FrameEdges(edges, b, bitLength)
    ensures EdgesFrom(edges[1..], b, 1, edges[0], bitLength)
  {
    assert Toggles(Frame(b))[1..] == TogglesFrom(Frame(b), 1);
  }

  /** An idle receiver's next interrupt is that of the start bit, and is over long before the stop bit. */
  lemma FirstIsEdge(s: Receiver, bitLength: nat, latency: nat, evs: seq<LineEvent>, line: seq<nat>)
    requires Idle(s) && 0 < bitLength && latency <= bitLength && line != [] && Apart(line, latency)
    requires Timely(s, evs, line, true, bitLength, 9 * bitLength, latency)
    ensures evs != [] && evs[0].Edge? && evs[0].time == line[0] && Raised(s, evs[0]) && !evs[0].matched
    ensures evs[0].now < Capture(s, line[0], bitLength, 9 * bitLength).matchTime
    ensures Happened(line, evs[0].now) == 1
    ensures Timely(Capture(s, line[0], bitLength, 9 * bitLength), evs[1..], line[1..], false,
                   bitLength, 9 * bitLength, latency)
  {
    OneHappened(line, evs[0].now, latency);
  }

  /**
   A line that falls and stays low: a zero with the framing flag is received. The receiver is then armed for a rising
   edge, and takes the end of the break for a start bit.
   */
  lemma BreakReceived(s: Receiver, start: nat, bitLength: nat, latency: nat, evs: seq<LineEvent>)
    requires Idle(s) && 0 < bitLength && latency <= bitLength
    requires Timely(s, evs, [start], true, bitLength, 9 * bitLength, latency)
    ensures RunDefined(s, evs, bitLength, 9 * bitLength)
    ensures var (t, words) := Run(s, evs, bitLength, 9 * bitLength);
            words == [256] && !t.active && !t.armedFalling
  {
    FirstIsEdge(s, bitLength, latency, evs, [start]);
    var t := Capture(s, start, bitLength, 9 * bitLength);
    assert [start][1..] == [];
    NextIsMatch(t, start, bitLength, latency, evs[1..], []);
    ShlDoubles(0, 9);
    ZeroDoubled(9);
    LastMatch(t, evs[1..][..1], bitLength, 9 * bitLength);
    assert evs[1..][1..] == [] by {
      var rest := evs[1..][1..];
      assert Timely(Finish(t), rest, [], false, bitLength, 9 * bitLength, latency);
    }
    assert evs[1..][..1] == evs[1..];
    QuietEdge(s, evs, bitLength, 9 * bitLength);
  }

  lemma {:induction false} ZeroDoubled(n: nat)
    ensures Doubled(0, n) == 0
  {
    if n > 0 {
      ZeroDoubled(n - 1);
    }
  }

  // ---------------------------------------------------------------- which bytes are recovered

  /** All ones from some bit upwards, all zeros below it. */
  predicate OnesThenZeros(b: byte) {
    b in [128, 192, 224, 240, 248, 252, 254, 255]
  }

  /** A byte with a final run of ones from line bit j: its value above and below that bit. */
  lemma HighRun(b: byte, j: nat)
    requires 1 <= j <= 9 && forall k :: j <= k <= 9 ==> Frame(b)[k]
    ensures b == b % MaskAfter(j) + 256 - MaskAfter(j)
    ensures j > 1 && !Frame(b)[j - 1] ==> 2 * (b % MaskAfter(j)) < MaskAfter(j)
    decreases 10 - j
  {
    if j < 9 {
      HighRun(b, j + 1);
      PlaceBit(b, j);
    }
    if j > 1 {
      PlaceBit(b, j - 1);
    }
  }

  /** The receiver recovers a byte exactly when its bit 7 is clear or it is a block of ones over zeros. */
  lemma RecoveredExactly(b: byte)
    ensures StoredByte(b) == b <==> b < 128 || OnesThenZeros(b)
  {
    var j := LastToggle(Frame(b));
    LastToggleBounds(Frame(b));
    PlacedShifts(b, j);
    HighRun(b, j);
    var low := b % MaskAfter(j);
    RecoveredFrom(low, j);
    RunShape(b, low, j);
  }

  lemma RunShape(b: byte, low: nat, j: nat)
    requires 1 <= j <= 9 && low < MaskAfter(j) && b == low + 256 - MaskAfter(j)
    requires j > 1 ==> 2 * low < MaskAfter(j)
    ensures j == 9 || low == 0 <==> b < 128 || OnesThenZeros(b)
  {}

  lemma RecoveredFrom(low: nat, j: nat)
    requires 1 <= j <= 9 && low < MaskAfter(j)
    ensures (low * Power(9 - j) + 0xFF * Power(j - 1)) % 256 == low + 256 - MaskAfter(j) <==> j == 9 || low == 0
  {
    if j == 1 {
    } else if j == 2 {
    } else if j == 3 {
    } else if j == 4 {
    } else if j == 5 {
    } else if j == 6 {
    } else if j == 7 {
    } else if j == 8 {
    }
  }

  lemma {:induction false} ClockDrift(bitLength: nat, sender: nat, k: nat)
    requires 18 * sender < 19 * bitLength && 17 * bitLength < 18 * sender
    ensures var drift := Times(sender, k) - Times(bitLength, k);
            if k == 0 then drift == 0
            else 18 * drift < Times(bitLength, k) && 0 < 18 * drift + Times(bitLength, k)
  {
    if k > 0 {
      ClockDrift(bitLength, sender, k - 1);
    }
  }

  /** A sender whose bit time is off by less than a part in 18 keeps every edge within half a bit. */
  lemma SenderClock(bitLength: nat, sender: nat, start: nat, k: nat)
    requires k <= 9 && 18 * sender < 19 * bitLength && 17 * bitLength < 18 * sender
    ensures Near(start + Times(sender, k), start + Times(bitLength, k), bitLength)
  {
    ClockDrift(bitLength, sender, k);
    if k < 9 {
      TimesGrow(bitLength, k, 9);
    }
    TimesIsProduct(bitLength, 9);
  }
}
