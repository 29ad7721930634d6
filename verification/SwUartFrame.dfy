/**
 The line code of the software UART (src/hw/hw_swuart.c): one start bit, eight data bits with the least
 significant first, one stop bit, on a line that idles high. A character is sent as the list of instants
 at which the line toggles.
 */
module SwUartFrame {
  import opened Bytes

  /** The levels of a line during the ten bit times of a character. */
  type Line = l: seq<bool> | |l| == 10 && !l[0] && l[9]
    witness [false, false, false, false, false, false, false, false, false, true]

  function Frame(b: byte): Line {
    [false,
     b % 2 == 1, b / 2 % 2 == 1, b / 4 % 2 == 1, b / 8 % 2 == 1,
     b / 16 % 2 == 1, b / 32 % 2 == 1, b / 64 % 2 == 1, b / 128 == 1,
     true]
  }

  /** The level during bit time k; after the stop bit the line stays high. */
  predicate LevelIn(l: Line, k: nat) {
    k > 9 || l[k]
  }

  /** The bit times from k on at whose beginning the line changes. */
  function TogglesFrom(l: Line, k: nat): (ts: seq<nat>)
    requires 1 <= k <= 10
    ensures forall i :: 0 <= i < |ts| ==> k <= ts[i] <= 9
    ensures |ts| <= 10 - k
    decreases |l| - k
  {
    if k == 10 then []
    else if l[k] != l[k - 1] then [k] + TogglesFrom(l, k + 1)
    else TogglesFrom(l, k + 1)
  }

  /** All toggles of a character, in bit times after the falling edge of its start bit. */
  function Toggles(l: Line): (ts: seq<nat>)
    ensures 1 <= |ts| <= 10 && ts[0] == 0
    ensures forall i :: 0 <= i < |ts| ==> 0 <= ts[i] <= 9
  {
    [0] + TogglesFrom(l, 1)
  }

  ghost predicate Increasing(s: seq<int>) {
    forall i, j :: 0 <= i < j < |s| ==> s[i] < s[j]
  }

  lemma {:induction false} TogglesFromShape(l: Line, k: nat)
    requires 1 <= k <= 10
    ensures Increasing(TogglesFrom(l, k))
    ensures (1 + |TogglesFrom(l, k)|) % 2 == (if l[k - 1] then 1 else 0)
    decreases |l| - k
  {
    if k < 10 {
      TogglesFromShape(l, k + 1);
    }
  }

  /** The ends of the given bit times, counted from one bit time before the start bit. */
  function OffsetsOf(ts: seq<nat>, bitLength: nat): (os: seq<nat>)
    ensures |os| == |ts|
  {
    seq(|ts|, i requires 0 <= i < |ts| => Times(bitLength, ts[i] + 1))
  }

  lemma OffsetsSnoc(ts: seq<nat>, k: nat, bitLength: nat)
    ensures OffsetsOf(ts + [k], bitLength) == OffsetsOf(ts, bitLength) + [Times(bitLength, k + 1)]
  {}

  /** The entries of edge[] before the current time is added: every toggle, then the end of the stop bit. */
  function EdgeOffsets(l: Line, bitLength: nat): (es: seq<nat>)
    ensures |es| == |Toggles(l)| + 1
  {
    OffsetsOf(Toggles(l) + [10], bitLength)
  }

  /** edge[] as swu_setup_tx leaves it when timer 1 reads tc. */
  function Schedule(l: Line, bitLength: nat, tc: nat): (es: seq<nat>)
    ensures |es| == |Toggles(l)| + 1
  {
    var os := EdgeOffsets(l, bitLength);
    seq(|os|, i requires 0 <= i < |os| => TimerRange(os[i] + tc + bitLength))
  }

  /**
   The timer counts modulo 2^30 from tc, so that its match with entry i of edge[] comes exactly as many ticks after
   set-up as the entry says, a bit time added, whether the timer wraps in between or not.
   */
  lemma ScheduleMatches(l: Line, bitLength: nat, tc: nat, i: nat, ticks: nat)
    requires tc < 0x4000_0000 && ticks < 0x4000_0000 && i < |Schedule(l, bitLength, tc)|
    requires EdgeOffsets(l, bitLength)[i] + bitLength < 0x4000_0000
    ensures (tc + ticks) % 0x4000_0000 == Schedule(l, bitLength, tc)[i]
       <==> ticks == EdgeOffsets(l, bitLength)[i] + bitLength
  {
    SameReading(tc, ticks, EdgeOffsets(l, bitLength)[i] + bitLength);
  }

  lemma SameReading(tc: nat, m: nat, n: nat)
    requires tc < 0x4000_0000 && m < 0x4000_0000 && n < 0x4000_0000
    ensures (tc + m) % 0x4000_0000 == TimerRange(n + tc) <==> m == n
  {}

  /**
   Shape of the encoding of any byte: at most 11 entries, strictly increasing, spanning exactly ten bit
   times, with an even number of toggles.
   */
  lemma EdgeListShape(l: Line, bitLength: nat)
    requires bitLength > 0
    ensures var es := EdgeOffsets(l, bitLength);
            3 <= |es| <= 11 && Increasing(es) && es[|es| - 1] - es[0] == 10 * bitLength
    ensures |Toggles(l)| % 2 == 0
  {
    ToggleCountEven(l);
    OffsetEnds(l, bitLength);
    OffsetsIncrease(l, bitLength);
  }

  lemma ToggleCountEven(l: Line)
    ensures |Toggles(l)| % 2 == 0
  {
    TogglesFromShape(l, 1);
  }

  lemma ScheduleIsPaired(l: Line, bitLength: nat, tc: nat)
    ensures |Schedule(l, bitLength, tc)| >= 3 && |Schedule(l, bitLength, tc)| % 2 == 1
  {
    var n := |Toggles(l)|;
    ToggleCountEven(l);
    assert n >= 1 && n % 2 == 0 && |Schedule(l, bitLength, tc)| == n + 1;
  }

  lemma OffsetsIncrease(l: Line, bitLength: nat)
    requires bitLength > 0
    ensures Increasing(EdgeOffsets(l, bitLength))
  {
    var es := EdgeOffsets(l, bitLength);
    forall i, j | 0 <= i < j < |es|
      ensures es[i] < es[j]
    {
      LaterOffset(l, bitLength, i, j);
    }
  }

  lemma OffsetEnds(l: Line, bitLength: nat)
    ensures EdgeOffsets(l, bitLength)[0] == bitLength
    ensures EdgeOffsets(l, bitLength)[|Toggles(l)|] == 11 * bitLength
  {
    TimesIsProduct(bitLength, 1);
    TimesIsProduct(bitLength, 11);
  }

  lemma LaterOffset(l: Line, bitLength: nat, i: nat, j: nat)
    requires bitLength > 0 && i < j < |EdgeOffsets(l, bitLength)|
    ensures EdgeOffsets(l, bitLength)[i] < EdgeOffsets(l, bitLength)[j]
  {
    TogglesFromShape(l, 1);
    var ts := Toggles(l) + [10];
    assert ts[i] < ts[j] by {
      assert i > 0 ==> ts[i] == TogglesFrom(l, 1)[i - 1];
      assert j < |ts| - 1 ==> ts[j] == TogglesFrom(l, 1)[j - 1];
    }
    TimesGrow(bitLength, ts[i] + 1, ts[j] + 1);
  }

  // ---------------------------------------------------------------- the waveform on the wire

  /** The level at instant t of a line that is at `level` and toggles at the given instants. */
  predicate LevelAt(level: bool, times: seq<int>, t: int)
    decreases times
  {
    if times == [] || t < times[0] then level else LevelAt(!level, times[1..], t)
  }

  function ToggleTimes(ts: seq<nat>, start: int, bitLength: nat): (r: seq<int>)
    ensures |r| == |ts|
  {
    seq(|ts|, i requires 0 <= i < |ts| => start + Times(bitLength, ts[i]))
  }

  lemma {:induction false} LevelScan(l: Line, start: int, bitLength: nat, j: nat, k: nat, t: int)
    requires bitLength > 0 && 1 <= j <= 10 && j - 1 <= k
    requires start + Times(bitLength, k) <= t
    requires k < 9 ==> t < start + Times(bitLength, k + 1)
    ensures LevelAt(l[j - 1], ToggleTimes(TogglesFrom(l, j), start, bitLength), t) == LevelIn(l, k)
    decreases 10 - j
  {
    var ts := TogglesFrom(l, j);
    if j < 10 {
      if k == j - 1 {
        if ts != [] && ts[0] > k + 1 {
          TimesGrow(bitLength, k + 1, ts[0]);
        }
      } else {
        LevelScan(l, start, bitLength, j + 1, k, t);
        if l[j] != l[j - 1] {
          if j < k {
            TimesGrow(bitLength, j, k);
          }
          LevelStep(l[j - 1], ts, start, bitLength, t);
        }
      }
    }
  }

  /** A line past its first toggle. */
  lemma LevelStep(level: bool, ts: seq<nat>, start: int, bitLength: nat, t: int)
    requires ts != [] && start + Times(bitLength, ts[0]) <= t
    ensures LevelAt(level, ToggleTimes(ts, start, bitLength), t)
         == LevelAt(!level, ToggleTimes(ts[1..], start, bitLength), t)
  {
    assert ToggleTimes(ts, start, bitLength)[1..] == ToggleTimes(ts[1..], start, bitLength);
  }

  /**
   The toggles are the waveform of the line: at every instant of bit time k (and from the stop bit on, at
   every later instant) the wire carries level k.
   */
  lemma WaveformIsLine(l: Line, start: int, bitLength: nat, k: nat, t: int)
    requires bitLength > 0 && start + bitLength * k <= t
    requires k < 9 ==> t < start + bitLength * (k + 1)
    ensures LevelAt(true, ToggleTimes(Toggles(l), start, bitLength), t) == LevelIn(l, k)
  {
    var times := ToggleTimes(Toggles(l), start, bitLength);
    assert times[1..] == ToggleTimes(TogglesFrom(l, 1), start, bitLength);
    TimesIsProduct(bitLength, k);
    TimesIsProduct(bitLength, k + 1);
    assert times[0] == start;
    LevelScan(l, start, bitLength, 1, k, t);
  }
}
