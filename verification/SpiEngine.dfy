/**
 The chunk and repeat engine of src/hw/hw_spi_async.c as a state machine driven by terminal-count interrupts
 of the two DMA channels.
 */
module SpiEngine {
  import opened Bytes

  /** What the engine does to the outside. */
  datatype Event =
    | ChipSelect(high: bool)
    | BeginRx(offset: nat)
    | BeginTx(offset: nat)
    | Complete

  /** The parameters of hw_spi_transfer that stay fixed. `hasCs` is chip_select != -1. */
  datatype Job = Job(bufferLength: nat, chunkSize: nat, repeat: nat, hasTx: bool, hasRx: bool, hasCs: bool)

  datatype Engine = Engine(
    job: Job, repeat: nat, chunkOffset: nat, transferCount: nat, txBusy: bool, rxBusy: bool, trace: seq<Event>)

  function Emit(e: Engine, evs: seq<Event>): Engine {
    e.(trace := e.trace + evs)
  }

  function CsEvent(j: Job, high: bool): seq<Event> {
    if j.hasCs then [ChipSelect(high)] else []
  }

  /** The events of starting the chunk at an offset. */
  function BeginEvents(j: Job, offset: nat): seq<Event> {
    CsEvent(j, false) + (if j.hasRx then [BeginRx(offset)] else []) + if j.hasTx then [BeginTx(offset)] else []
  }

  /** hw_spi_transfer_step */
  function TransferStep(e: Engine): Engine {
    Emit(e, BeginEvents(e.job, e.chunkOffset)).(transferCount := 0, txBusy := e.job.hasTx, rxBusy := e.job.hasRx)
  }

  /** default_complete_cb */
  function CompleteChunk(e: Engine): Engine {
    var q := Emit(e, CsEvent(e.job, true)).(chunkOffset := e.chunkOffset + e.job.chunkSize);
    if q.chunkOffset + e.job.chunkSize > e.job.bufferLength then
      var r := q.(chunkOffset := 0, repeat := (q.repeat + 0xFFFF_FFFF) % 0x1_0000_0000);
      if r.repeat == 0 then Emit(r, [Complete]) else TransferStep(r)
    else
      TransferStep(q)
  }

  function DoneCount(j: Job): nat {
    if j.hasTx && j.hasRx then 2 else 1
  }

  predicate Busy(e: Engine, tx: bool) {
    if tx then e.txBusy else e.rxBusy
  }

  /** hw_spi_dma_counter for the terminal count of one channel. */
  function Counter(e: Engine, tx: bool): Engine {
    var q := (if tx then e.(txBusy := false) else e.(rxBusy := false)).(transferCount := e.transferCount + 1);
    if q.transferCount == DoneCount(e.job) then CompleteChunk(q) else q
  }

  /** hw_spi_transfer */
  function Start(j: Job): Engine {
    var e := Engine(j, j.repeat, 0, 0, false, false, CsEvent(j, true));
    TransferStep(if j.repeat == 0 || j.chunkSize > j.bufferLength then Emit(e, [Complete]) else e)
  }

  /** A run: channels in the order in which their interrupts come, each only once per transfer begun. */
  predicate Runs(e: Engine, order: seq<bool>)
    decreases order
  {
    order == [] || (Busy(e, order[0]) && Runs(Counter(e, order[0]), order[1..]))
  }

  function After(e: Engine, order: seq<bool>): Engine
    requires Runs(e, order)
    decreases order
  {
    if order == [] then e else After(Counter(e, order[0]), order[1..])
  }

  // ---------------------------------------------------------------- what a whole job should look like

  /** What hw_spi_transfer needs of its caller, besides valid buffers. */
  predicate Proper(j: Job) {
    0 < j.chunkSize <= j.bufferLength && 0 < j.repeat < 0x1_0000_0000 && (j.hasTx || j.hasRx)
  }

  function ChunksPerPass(j: Job): nat {
    if j.chunkSize == 0 then 0 else j.bufferLength / j.chunkSize
  }

  /** Chunk i of a pass: the chip is selected, its bytes move, the chip is deselected. */
  function ChunkEvents(j: Job, i: nat): seq<Event> {
    BeginEvents(j, Times(j.chunkSize, i)) + CsEvent(j, true)
  }

  function ChunksUpTo(j: Job, i: nat): seq<Event> {
    if i == 0 then [] else ChunksUpTo(j, i - 1) + ChunkEvents(j, i - 1)
  }

  /** r passes of so many chunks each. */
  function Passes(j: Job, turns: nat, r: nat): seq<Event> {
    if r == 0 then [] else Passes(j, turns, r - 1) + ChunksUpTo(j, turns)
  }

  /** Chip select is high at first; then all passes over the buffer, each chunk by chunk; then completion. */
  function WholeJob(j: Job): seq<Event> {
    CsEvent(j, true) + Passes(j, ChunksPerPass(j), j.repeat) + [Complete]
  }

  // ---------------------------------------------------------------- what a job comes to

  /** Any job with a channel and a chunk that moves something. */
  predicate Runnable(j: Job) {
    0 < j.chunkSize && j.repeat < 0x1_0000_0000 && (j.hasTx || j.hasRx)
  }

  /** The passes that the engine makes: counting down from zero it goes all the way round. */
  function Rounds(j: Job): nat {
    if j.repeat == 0 then 0x1_0000_0000 else j.repeat
  }

  /** The chunks of a pass: one at least, even if it exceeds the buffer. */
  function Turns(j: Job): nat {
    if j.chunkSize > j.bufferLength then 1 else ChunksPerPass(j)
  }

  /** Completion is signalled at once when there is nothing to repeat or the chunk exceeds the buffer. */
  function Prelude(j: Job): seq<Event> {
    CsEvent(j, true) + if j.repeat == 0 || j.chunkSize > j.bufferLength then [Complete] else []
  }

  /** Everything that happens in a job. */
  function Ran(j: Job): seq<Event> {
    Prelude(j) + Passes(j, Turns(j), Rounds(j)) + [Complete]
  }

  lemma ChunksFit(j: Job, i: nat)
    requires 0 < j.chunkSize
    ensures Times(j.chunkSize, i) <= j.bufferLength <==> i <= ChunksPerPass(j)
  {
    var c, m := j.chunkSize, ChunksPerPass(j);
    assert j.bufferLength == c * m + j.bufferLength % c;
    TimesIsProduct(c, m);
    TimesIsProduct(c, m + 1);
    assert c * (m + 1) == c * m + c;
    if i < m {
      TimesGrow(c, i, m);
    } else if i > m + 1 {
      TimesGrow(c, m + 1, i);
    }
  }

  /** There is a first chunk; another follows chunk i exactly if two more fit behind the i before. */
  lemma TurnsFit(j: Job, i: nat)
    requires 0 < j.chunkSize
    ensures Turns(j) > 0
    ensures i + 1 < Turns(j) <==> Times(j.chunkSize, i + 2) <= j.bufferLength
    ensures i < Turns(j) ==> Times(j.chunkSize, i) <= j.bufferLength
  {
    ChunksFit(j, i + 2);
    ChunksFit(j, i);
    ChunksFit(j, 1);
    assert Times(j.chunkSize, 1) == j.chunkSize;
    assert Times(j.chunkSize, i + 2) == Times(j.chunkSize, i) + j.chunkSize + j.chunkSize;
  }

  /** r passes are behind the engine and i chunks of the next; so much has happened before the next chunk begins. */
  ghost predicate At(e: Engine, r: nat, i: nat)
    requires Runnable(e.job)
  {
    && r < Rounds(e.job) && i < Turns(e.job)
    && e.repeat == (Rounds(e.job) - r) % 0x1_0000_0000 && e.chunkOffset == Times(e.job.chunkSize, i)
    && e.trace == Prelude(e.job) + Passes(e.job, Turns(e.job), r) + ChunksUpTo(e.job, i)
  }

  /** Chunk i of pass r is being transferred. */
  ghost predicate Transferring(e: Engine, r: nat, i: nat)
    requires Runnable(e.job)
  {
    && InChunk(e, r, i)
    && (e.txBusy ==> e.job.hasTx) && (e.rxBusy ==> e.job.hasRx) && (e.txBusy || e.rxBusy)
    && e.transferCount == DoneCount(e.job) - (if e.txBusy then 1 else 0) - (if e.rxBusy then 1 else 0)
  }

  ghost predicate InChunk(e: Engine, r: nat, i: nat)
    requires Runnable(e.job)
  {
    && r < Rounds(e.job) && i < Turns(e.job)
    && e.repeat == (Rounds(e.job) - r) % 0x1_0000_0000 && e.chunkOffset == Times(e.job.chunkSize, i)
    && e.trace == Prelude(e.job) + Passes(e.job, Turns(e.job), r) + ChunksUpTo(e.job, i)
                  + BeginEvents(e.job, e.chunkOffset)
  }

  ghost predicate Finished(e: Engine)
    requires Runnable(e.job)
  {
    e.trace == Ran(e.job) && !e.txBusy && !e.rxBusy && e.chunkOffset == 0
  }

  lemma BeginsTransferring(e: Engine, r: nat, i: nat)
    requires Runnable(e.job) && At(e, r, i)
    ensures Transferring(TransferStep(e), r, i)
  {}

  /** Deselecting the chip completes the events of chunk i. */
  lemma ChunkTrace(j: Job, head: seq<Event>, i: nat)
    ensures head + ChunksUpTo(j, i) + BeginEvents(j, Times(j.chunkSize, i)) + CsEvent(j, true)
         == head + ChunksUpTo(j, i + 1)
  {
    var begin, end := BeginEvents(j, Times(j.chunkSize, i)), CsEvent(j, true);
    ConcatAssociates(head + ChunksUpTo(j, i), begin, end);
    ConcatAssociates(head, ChunksUpTo(j, i), begin + end);
  }

  /** The last chunk of a pass completes the events of the pass. */
  lemma PassTrace(j: Job, head: seq<Event>, r: nat)
    ensures head + Passes(j, Turns(j), r) + ChunksUpTo(j, Turns(j))
         == head + Passes(j, Turns(j), r + 1) + ChunksUpTo(j, 0)
  {
    ConcatAssociates(head, Passes(j, Turns(j), r), ChunksUpTo(j, Turns(j)));
  }

  /** Counting down a pass. */
  lemma OneRoundLess(j: Job, r: nat)
    requires j.repeat < 0x1_0000_0000 && r < Rounds(j)
    ensures var left := ((Rounds(j) - r) % 0x1_0000_0000 + 0xFFFF_FFFF) % 0x1_0000_0000;
            left == (Rounds(j) - (r + 1)) % 0x1_0000_0000 && (left == 0 <==> r + 1 == Rounds(j))
  {}

  /** The end of chunk i of pass r leads to the next chunk, the next pass or completion. */
  lemma ChunkEnds(e: Engine, r: nat, i: nat)
    requires Runnable(e.job) && InChunk(e, r, i) && !e.txBusy && !e.rxBusy
    ensures var f := CompleteChunk(e);
            f.job == e.job
            && if i + 1 < Turns(e.job) then Transferring(f, r, i + 1)
               else if r + 1 < Rounds(e.job) then Transferring(f, r + 1, 0)
               else Finished(f)
  {
    var j := e.job;
    TurnsFit(j, i);
    ChunkTrace(j, Prelude(j) + Passes(j, Turns(j), r), i);
    var q := Emit(e, CsEvent(j, true)).(chunkOffset := e.chunkOffset + j.chunkSize);
    assert Times(j.chunkSize, i + 2) == Times(j.chunkSize, i) + j.chunkSize + j.chunkSize;
    if i + 1 < Turns(j) {
      BeginsTransferring(q, r, i + 1);
    } else {
      PassEnds(q, r);
    }
  }

  lemma PassEnds(q: Engine, r: nat)
    requires Runnable(q.job) && r < Rounds(q.job) && q.repeat == (Rounds(q.job) - r) % 0x1_0000_0000
    requires !q.txBusy && !q.rxBusy
    requires q.trace == Prelude(q.job) + Passes(q.job, Turns(q.job), r) + ChunksUpTo(q.job, Turns(q.job))
    ensures var s := q.(chunkOffset := 0, repeat := (q.repeat + 0xFFFF_FFFF) % 0x1_0000_0000);
            if r + 1 < Rounds(q.job) then s.repeat != 0 && Transferring(TransferStep(s), r + 1, 0)
            else s.repeat == 0 && Finished(Emit(s, [Complete]))
  {
    var j := q.job;
    PassTrace(j, Prelude(j), r);
    OneRoundLess(j, r);
    TurnsFit(j, 0);
    var s := q.(chunkOffset := 0, repeat := (q.repeat + 0xFFFF_FFFF) % 0x1_0000_0000);
    if r + 1 < Rounds(j) {
      BeginsTransferring(s, r + 1, 0);
    } else {
      assert Prelude(j) + Passes(j, Turns(j), r + 1) + [] == Prelude(j) + Passes(j, Turns(j), r + 1);
    }
  }

  /** Where a run can be: in some chunk, or finished. */
  ghost predicate Inside(e: Engine) {
    Runnable(e.job) && (Finished(e) || exists r: nat, i: nat :: Transferring(e, r, i))
  }

  function BusyCount(e: Engine): nat {
    (if e.txBusy then 1 else 0) + if e.rxBusy then 1 else 0
  }

  /** Passes to go, the present one included, while the count is `repeat`. */
  function RoundsLeft(repeat: nat): nat {
    if repeat == 0 then 0x1_0000_0000 else repeat
  }

  /** Termination measure of a run: passes to go, then bytes of the pass to go, then channels still busy. */
  function Left(e: Engine): (nat, int, nat) {
    (if BusyCount(e) == 0 then 0 else RoundsLeft(e.repeat), e.job.bufferLength - e.chunkOffset, BusyCount(e))
  }

  predicate Less(a: (nat, int, nat), b: (nat, int, nat)) {
    a.1 >= 0 && (a.0 < b.0 || (a.0 == b.0 && (a.1 < b.1 || (a.1 == b.1 && a.2 < b.2))))
  }

  /** The end of a chunk leads on inside the job, and nearer to its end. */
  lemma ChunkEndKeeps(q: Engine, r: nat, i: nat)
    requires Runnable(q.job) && InChunk(q, r, i) && BusyCount(q) == 0
    ensures var f := CompleteChunk(q);
            && Inside(f) && f.job == q.job && f.chunkOffset <= q.job.bufferLength
            && (BusyCount(f) == 0 || RoundsLeft(f.repeat) < RoundsLeft(q.repeat)
                || (f.repeat == q.repeat && q.chunkOffset < f.chunkOffset))
  {
    ChunkEnds(q, r, i);
    TurnsFit(q.job, i);
    var f := CompleteChunk(q);
    if i + 1 < Turns(q.job) {
      TurnsFit(q.job, i + 1);
      assert Transferring(f, r, i + 1);
    } else if r + 1 < Rounds(q.job) {
      assert Transferring(f, r + 1, 0);
      FewerRounds(q.job, r);
    }
  }

  lemma FewerRounds(j: Job, r: nat)
    requires j.repeat < 0x1_0000_0000 && r + 1 < Rounds(j)
    ensures RoundsLeft((Rounds(j) - (r + 1)) % 0x1_0000_0000) < RoundsLeft((Rounds(j) - r) % 0x1_0000_0000)
  {}

  lemma InterruptKeeps(e: Engine, tx: bool)
    requires Inside(e) && Busy(e, tx)
    ensures Inside(Counter(e, tx)) && Counter(e, tx).job == e.job && Less(Left(Counter(e, tx)), Left(e))
  {
    var r: nat, i: nat :| Transferring(e, r, i);
    var q := (if tx then e.(txBusy := false) else e.(rxBusy := false)).(transferCount := e.transferCount + 1);
    TurnsFit(e.job, i);
    if q.transferCount == DoneCount(e.job) {
      ChunkEndKeeps(q, r, i);
    } else {
      assert Transferring(q, r, i);
    }
  }

  lemma StartsInside(j: Job)
    requires Runnable(j)
    ensures Inside(Start(j)) && Start(j).job == j
  {
    TurnsFit(j, 0);
    var e := Engine(j, j.repeat, 0, 0, false, false, Prelude(j));
    assert Prelude(j) + Passes(j, Turns(j), 0) + ChunksUpTo(j, 0) == Prelude(j);
    assert CsEvent(j, true) + [] == CsEvent(j, true);
    BeginsTransferring(e, 0, 0);
    assert Transferring(Start(j), 0, 0);
  }

  lemma {:induction false} RunKeeps(e: Engine, order: seq<bool>)
    requires Inside(e) && Runs(e, order)
    ensures Inside(After(e, order)) && After(e, order).job == e.job
    decreases order
  {
    if order != [] {
      InterruptKeeps(e, order[0]);
      RunKeeps(Counter(e, order[0]), order[1..]);
    }
  }

  /** Completion has not been signalled while a transfer is under way. */
  lemma {:induction false} NoEarlyCompletion(j: Job, i: nat)
    ensures Complete !in ChunksUpTo(j, i)
  {
    if i > 0 {
      NoEarlyCompletion(j, i - 1);
    }
  }

  lemma {:induction false} NoCompletionInPasses(j: Job, turns: nat, r: nat)
    ensures Complete !in Passes(j, turns, r)
  {
    if r > 0 {
      NoCompletionInPasses(j, turns, r - 1);
      NoEarlyCompletion(j, turns);
    }
  }

  /**
   Any job with a nonempty chunk, under any order of terminal-count interrupts. While a channel is busy completion has
   been signalled only if it was at the start; when none is, exactly this has happened: chip select is high, completion
   is signalled if there was nothing to repeat or the chunk exceeds the buffer, every chunk of every pass is
   transferred in order, and completion is signalled at the end. A repeat of zero makes 2^32 passes, and a chunk
   beyond the buffer is transferred once a pass.
   */
  lemma EveryJobRuns(j: Job, order: seq<bool>)
    requires Runnable(j) && Runs(Start(j), order)
    ensures var e := After(Start(j), order);
            if e.txBusy || e.rxBusy
            then Complete in e.trace <==> j.repeat == 0 || j.chunkSize > j.bufferLength
            else e.trace == Ran(j)
  {
    StartsInside(j);
    RunKeeps(Start(j), order);
    var e := After(Start(j), order);
    if e.txBusy || e.rxBusy {
      var r: nat, i: nat :| Transferring(e, r, i);
      NoCompletionInPasses(j, Turns(j), r);
      NoEarlyCompletion(j, i);
      assert Complete in Prelude(j) <==> j.repeat == 0 || j.chunkSize > j.bufferLength;
    }
  }

  lemma ProperRan(j: Job)
    requires Proper(j)
    ensures Ran(j) == WholeJob(j)
  {
    assert CsEvent(j, true) + [] == CsEvent(j, true);
  }

  /**
   A proper job under any order of terminal-count interrupts. As long as a channel is busy nothing has been
   completed; and when no channel is busy, exactly the events of the whole job have happened: every chunk of
   every pass in order, and one completion at the end.
   */
  lemma JobRuns(j: Job, order: seq<bool>)
    requires Proper(j) && Runs(Start(j), order)
    ensures var e := After(Start(j), order);
            if e.txBusy || e.rxBusy then Complete !in e.trace else e.trace == WholeJob(j)
  {
    EveryJobRuns(j, order);
    ProperRan(j);
  }

  /** Every interrupt of a run brings the job nearer to its end, so a run cannot go on for ever. */
  lemma JobTerminates(j: Job, order: seq<bool>, tx: bool)
    requires Runnable(j) && Runs(Start(j), order) && Busy(After(Start(j), order), tx)
    ensures Less(Left(Counter(After(Start(j), order), tx)), Left(After(Start(j), order)))
  {
    StartsInside(j);
    RunKeeps(Start(j), order);
    InterruptKeeps(After(Start(j), order), tx);
  }

  // ---------------------------------------------------------------- reception goes first

  /** Each transmission is begun right behind a reception at the same offset. */
  predicate ReceptionFirst(trace: seq<Event>) {
    forall k :: 0 <= k < |trace| && trace[k].BeginTx? ==> k > 0 && trace[k - 1] == BeginRx(trace[k].offset)
  }

  lemma BeginReceivesFirst(j: Job, trace: seq<Event>, offset: nat)
    requires j.hasRx && ReceptionFirst(trace)
    ensures ReceptionFirst(trace + BeginEvents(j, offset))
  {}

  lemma SelectReceivesFirst(j: Job, trace: seq<Event>)
    requires ReceptionFirst(trace)
    ensures ReceptionFirst(trace + CsEvent(j, true))
  {}

  lemma CompleteReceivesFirst(trace: seq<Event>)
    requires ReceptionFirst(trace)
    ensures ReceptionFirst(trace + [Complete])
  {}

  lemma ChunkEndReceivesFirst(q: Engine)
    requires q.job.hasRx && ReceptionFirst(q.trace)
    ensures ReceptionFirst(CompleteChunk(q).trace) && CompleteChunk(q).job == q.job
  {
    CompletionTrace(q);
    SelectReceivesFirst(q.job, q.trace);
    var selected := q.trace + CsEvent(q.job, true);
    var trace := CompleteChunk(q).trace;
    if trace == selected + [Complete] {
      CompleteReceivesFirst(selected);
    } else if trace == selected + BeginEvents(q.job, 0) {
      BeginReceivesFirst(q.job, selected, 0);
    } else {
      BeginReceivesFirst(q.job, selected, q.chunkOffset + q.job.chunkSize);
    }
  }

  lemma InterruptReceivesFirst(e: Engine, tx: bool)
    requires e.job.hasRx && ReceptionFirst(e.trace)
    ensures ReceptionFirst(Counter(e, tx).trace) && Counter(e, tx).job == e.job
  {
    var q := (if tx then e.(txBusy := false) else e.(rxBusy := false)).(transferCount := e.transferCount + 1);
    if q.transferCount == DoneCount(e.job) {
      ChunkEndReceivesFirst(q);
    }
  }

  lemma CompletionTrace(q: Engine)
    ensures var selected := q.trace + CsEvent(q.job, true);
            var f := CompleteChunk(q);
            f.job == q.job
            && (f.trace == selected + [Complete] || f.trace == selected + BeginEvents(q.job, 0)
                || f.trace == selected + BeginEvents(q.job, q.chunkOffset + q.job.chunkSize))
  {}

  lemma {:induction false} RunReceivesFirst(e: Engine, order: seq<bool>)
    requires e.job.hasRx && ReceptionFirst(e.trace) && Runs(e, order)
    ensures ReceptionFirst(After(e, order).trace)
    decreases order
  {
    if order != [] {
      InterruptReceivesFirst(e, order[0]);
      RunReceivesFirst(Counter(e, order[0]), order[1..]);
    }
  }

  /** Since the bus is full duplex, the receiving channel is ready before the first byte is sent, in every chunk. */
  lemma ReceptionBegunFirst(j: Job, order: seq<bool>)
    requires j.hasRx && Runs(Start(j), order)
    ensures var trace := After(Start(j), order).trace;
            forall k :: 0 <= k < |trace| && trace[k].BeginTx? ==> k > 0 && trace[k - 1] == BeginRx(trace[k].offset)
  {
    BeginReceivesFirst(j, CsEvent(j, true), 0);
    BeginReceivesFirst(j, CsEvent(j, true) + [Complete], 0);
    RunReceivesFirst(Start(j), order);
  }

  // ---------------------------------------------------------------- chip select

  /** The level last given to chip select, if any. */
  function Select(trace: seq<Event>): Option<bool> {
    if trace == [] then None else
      var last := trace[|trace| - 1];
      if last.ChipSelect? then Some(last.high) else Select(trace[..|trace| - 1])
  }

  lemma {:induction false} SelectAppend(a: seq<Event>, b: seq<Event>)
    ensures Select(a + b) == if Select(b).Some? then Select(b) else Select(a)
  {
    if b == [] {
      assert a + b == a;
    } else {
      var n := |b| - 1;
      assert (a + b)[..|a| + n] == a + b[..n];
      SelectAppend(a, b[..n]);
    }
  }

  lemma SelectSteps(j: Job, trace: seq<Event>, offset: nat)
    requires j.hasCs
    ensures Select(trace + CsEvent(j, true)) == Some(true)
    ensures Select(trace + [Complete]) == Select(trace)
    ensures Select(trace + BeginEvents(j, offset)) == Some(false)
  {
    SelectAppend(trace, [Complete]);
    var cs := CsEvent(j, false);
    var rx, tx := if j.hasRx then [BeginRx(offset)] else [], if j.hasTx then [BeginTx(offset)] else [];
    SelectAppend(trace, cs + rx + tx);
    SelectAppend(cs + rx, tx);
    SelectAppend(cs, rx);
    assert [Complete][..0] == [] && [BeginRx(offset)][..0] == [] && [BeginTx(offset)][..0] == [];
  }

  /** The engine counts the interrupts that are out, and holds chip select low while there are any. */
  ghost predicate Balanced(e: Engine) {
    && (e.job.hasTx || e.job.hasRx) && (e.txBusy ==> e.job.hasTx) && (e.rxBusy ==> e.job.hasRx)
    && (BusyCount(e) > 0 ==> e.transferCount == DoneCount(e.job) - BusyCount(e))
    && (e.job.hasCs ==> Select(e.trace) == Some(BusyCount(e) == 0))
  }

  lemma StepBalances(e: Engine)
    requires e.job.hasTx || e.job.hasRx
    ensures Balanced(TransferStep(e)) && BusyCount(TransferStep(e)) == DoneCount(e.job)
  {
    if e.job.hasCs {
      SelectSteps(e.job, e.trace, e.chunkOffset);
    }
  }

  lemma CompletionBalances(e: Engine)
    requires (e.job.hasTx || e.job.hasRx) && BusyCount(e) == 0
    ensures Balanced(CompleteChunk(e)) && CompleteChunk(e).job == e.job
  {
    var q := Emit(e, CsEvent(e.job, true)).(chunkOffset := e.chunkOffset + e.job.chunkSize);
    var r := q.(chunkOffset := 0, repeat := (q.repeat + 0xFFFF_FFFF) % 0x1_0000_0000);
    if q.chunkOffset + e.job.chunkSize <= e.job.bufferLength {
      StepBalances(q);
    } else if r.repeat != 0 {
      StepBalances(r);
    } else {
      LastBalances(e, r);
    }
  }

  lemma LastBalances(e: Engine, r: Engine)
    requires (e.job.hasTx || e.job.hasRx) && r.job == e.job && BusyCount(r) == 0
    requires r.trace == e.trace + CsEvent(e.job, true)
    ensures Balanced(Emit(r, [Complete]))
  {
    if e.job.hasCs {
      SelectSteps(e.job, e.trace, 0);
      SelectSteps(e.job, r.trace, 0);
    }
  }

  lemma InterruptBalances(e: Engine, tx: bool)
    requires Balanced(e) && Busy(e, tx)
    ensures Balanced(Counter(e, tx)) && Counter(e, tx).job == e.job
  {
    var q := (if tx then e.(txBusy := false) else e.(rxBusy := false)).(transferCount := e.transferCount + 1);
    if q.transferCount == DoneCount(e.job) {
      CompletionBalances(q);
    }
  }

  lemma StartBalances(j: Job)
    requires j.hasTx || j.hasRx
    ensures Balanced(Start(j)) && Start(j).job == j && BusyCount(Start(j)) > 0
  {
    var e := Engine(j, j.repeat, 0, 0, false, false, CsEvent(j, true));
    StepBalances(e);
    StepBalances(Emit(e, [Complete]));
  }

  lemma {:induction false} RunBalances(e: Engine, order: seq<bool>)
    requires Balanced(e) && Runs(e, order)
    ensures Balanced(After(e, order)) && After(e, order).job == e.job
    decreases order
  {
    if order != [] {
      InterruptBalances(e, order[0]);
      RunBalances(Counter(e, order[0]), order[1..]);
    }
  }

  /**
   Chip select is low exactly while a chunk is being transferred: at every moment of every run of any job that uses a
   channel, proper or not, its level was last set low if and only if a channel is busy.
   */
  lemma SelectedWhileBusy(j: Job, order: seq<bool>)
    requires (j.hasTx || j.hasRx) && j.hasCs && Runs(Start(j), order)
    ensures var e := After(Start(j), order);
            Select(e.trace).Some? && (e.txBusy || e.rxBusy <==> Select(e.trace) == Some(false))
  {
    StartBalances(j);
    RunBalances(Start(j), order);
  }

  // ---------------------------------------------------------------- which jobs are done as asked

  /** No run from here has more than n interrupts. */
  ghost predicate Bounded(e: Engine, n: nat) {
    forall order :: Runs(e, order) ==> |order| <= n
  }

  /** While a channel is busy nothing has been completed; when none is, the whole job has been done. */
  predicate AsAsked(j: Job, e: Engine) {
    if e.txBusy || e.rxBusy then Complete !in e.trace else e.trace == WholeJob(j)
  }

  /** Every run comes to an end, and does what was asked for. */
  ghost predicate Fulfilled(j: Job) {
    (exists n: nat :: Bounded(Start(j), n))
    && forall order :: Runs(Start(j), order) ==> AsAsked(j, After(Start(j), order))
  }

  /** The measure of a run as one number. */
  function Rank(e: Engine): int {
    3 * (Times(e.job.bufferLength + 1, Left(e).0) + e.job.bufferLength - e.chunkOffset) + BusyCount(e)
  }

  lemma RankFalls(e: Engine, f: Engine)
    requires f.job == e.job && Less(Left(f), Left(e)) && e.chunkOffset <= e.job.bufferLength
    ensures 0 <= Rank(f) < Rank(e)
  {
    if Left(f).0 < Left(e).0 {
      TimesGrow(e.job.bufferLength + 1, Left(f).0, Left(e).0);
    }
  }

  lemma {:induction false} RunsBounded(e: Engine, order: seq<bool>)
    requires Inside(e) && Runs(e, order) && order != []
    ensures |order| <= Rank(e)
    decreases order
  {
    var r: nat, i: nat :| Transferring(e, r, i);
    TurnsFit(e.job, i);
    InterruptKeeps(e, order[0]);
    var f := Counter(e, order[0]);
    RankFalls(e, f);
    if order[1..] != [] {
      RunsBounded(f, order[1..]);
    }
  }

  lemma ProperFulfilled(j: Job)
    requires Proper(j)
    ensures Fulfilled(j)
  {
    StartsInside(j);
    var n: nat := Rank(Start(j));
    forall order | Runs(Start(j), order)
      ensures |order| <= n && AsAsked(j, After(Start(j), order))
    {
      JobRuns(j, order);
      if order != [] {
        RunsBounded(Start(j), order);
      }
    }
    assert Bounded(Start(j), n);
  }

  /** With nothing to repeat, or a chunk beyond the buffer, completion comes first, and then a chunk is begun. */
  lemma CompletesTooEarly(j: Job)
    requires (j.hasTx || j.hasRx) && (j.repeat == 0 || j.chunkSize > j.bufferLength)
    ensures Complete in Start(j).trace && (Start(j).txBusy || Start(j).rxBusy) && !Fulfilled(j)
  {
    var e := Start(j);
    assert e.trace == CsEvent(j, true) + [Complete] + BeginEvents(j, 0);
    assert Complete in CsEvent(j, true) + [Complete];
    assert Runs(e, []) && After(e, []) == e && !AsAsked(j, e);
  }

  /** An empty chunk is being transferred, and nothing has been completed. */
  ghost predicate Spinning(e: Engine) {
    Balanced(e) && BusyCount(e) > 0 && e.job.chunkSize == 0 && e.chunkOffset == 0 && Complete !in e.trace
  }

  lemma SpinsOn(e: Engine, tx: bool)
    requires Spinning(e) && Busy(e, tx)
    ensures Spinning(Counter(e, tx))
  {
    InterruptBalances(e, tx);
  }

  lemma EmptyChunkSpins(j: Job)
    requires (j.hasTx || j.hasRx) && j.chunkSize == 0 && j.repeat > 0
    ensures Spinning(Start(j)) && Start(j).job == j
  {
    StartBalances(j);
  }

  /** An empty chunk is begun again and again: whatever the interrupts, the job never completes. */
  lemma {:induction false} EmptyChunkNeverCompletes(e: Engine, order: seq<bool>)
    requires Spinning(e) && Runs(e, order)
    ensures Spinning(After(e, order))
    decreases order
  {
    if order != [] {
      SpinsOn(e, order[0]);
      EmptyChunkNeverCompletes(Counter(e, order[0]), order[1..]);
    }
  }

  lemma {:induction false} SpinsForEver(e: Engine, n: nat) returns (order: seq<bool>)
    requires Spinning(e)
    ensures |order| == n && Runs(e, order)
    decreases n
  {
    if n == 0 {
      order := [];
    } else {
      var tx := e.txBusy;
      SpinsOn(e, tx);
      var rest := SpinsForEver(Counter(e, tx), n - 1);
      order := [tx] + rest;
      assert order[1..] == rest;
    }
  }

  /**
   Exactly the proper jobs are done as asked: those with a nonempty chunk that fits the buffer, and something to
   repeat. Any other either completes before its first chunk is begun, or never.
   */
  lemma FulfilledExactly(j: Job)
    requires (j.hasTx || j.hasRx) && j.repeat < 0x1_0000_0000
    ensures Fulfilled(j) <==> 0 < j.chunkSize <= j.bufferLength && 0 < j.repeat
  {
    if Proper(j) {
      ProperFulfilled(j);
    } else if j.repeat == 0 || j.chunkSize > j.bufferLength {
      CompletesTooEarly(j);
    } else {
      EmptyChunkSpins(j);
      if Fulfilled(j) {
        var n: nat :| Bounded(Start(j), n);
        var order := SpinsForEver(Start(j), n + 1);
        assert false;
      }
    }
  }

  /** Nothing to repeat, a chunk beyond the buffer, and the empty chunk of an empty buffer. */
  lemma UnfulfilledJobs()
    ensures !Fulfilled(Job(4, 2, 0, true, true, true))
    ensures !Fulfilled(Job(2, 4, 1, true, true, true))
    ensures !Fulfilled(Job(0, 0, 1, true, false, false))
  {
    FulfilledExactly(Job(4, 2, 0, true, true, true));
    FulfilledExactly(Job(2, 4, 1, true, true, true));
    FulfilledExactly(Job(0, 0, 1, true, false, false));
  }

  // ---------------------------------------------------------------- how many chunk transfers there are

  function Begins(trace: seq<Event>, tx: bool): seq<nat> {
    if trace == [] then [] else
      (match trace[0]
       case BeginTx(o) => if tx then [o] else []
       case BeginRx(o) => if tx then [] else [o]
       case _ => []) + Begins(trace[1..], tx)
  }

  lemma {:induction false} BeginsAppend(a: seq<Event>, b: seq<Event>, tx: bool)
    ensures Begins(a + b, tx) == Begins(a, tx) + Begins(b, tx)
  {
    if a == [] {
      assert a + b == b;
    } else {
      assert (a + b)[1..] == a[1..] + b;
      BeginsAppend(a[1..], b, tx);
    }
  }

  function Offsets(chunkSize: nat, i: nat): (r: seq<nat>)
    ensures |r| == i
  {
    seq(i, k requires 0 <= k => Times(chunkSize, k))
  }

  lemma OffsetsNext(chunkSize: nat, i: nat)
    ensures Offsets(chunkSize, i + 1) == Offsets(chunkSize, i) + [Times(chunkSize, i)]
  {}

  function Used(j: Job, tx: bool): bool {
    if tx then j.hasTx else j.hasRx
  }

  lemma BeginsOfOne(ev: Event, tx: bool)
    ensures Begins([ev], tx) == match ev
                                case BeginTx(o) => if tx then [o] else []
                                case BeginRx(o) => if tx then [] else [o]
                                case _ => []
  {
    assert Begins([ev][1..], tx) == [];
  }

  lemma BeginsOfChunk(j: Job, i: nat, tx: bool)
    ensures Begins(ChunkEvents(j, i), tx) == if Used(j, tx) then [Times(j.chunkSize, i)] else []
  {
    var o := Times(j.chunkSize, i);
    var rx, t := if j.hasRx then [BeginRx(o)] else [], if j.hasTx then [BeginTx(o)] else [];
    BeginsAppend(CsEvent(j, false) + rx + t, CsEvent(j, true), tx);
    BeginsAppend(CsEvent(j, false) + rx, t, tx);
    BeginsAppend(CsEvent(j, false), rx, tx);
    BeginsOfOne(BeginRx(o), tx);
    BeginsOfOne(BeginTx(o), tx);
    BeginsOfOne(ChipSelect(true), tx);
    BeginsOfOne(ChipSelect(false), tx);
  }

  lemma BeginsNext(j: Job, i: nat, tx: bool)
    ensures Begins(ChunksUpTo(j, i + 1), tx)
         == Begins(ChunksUpTo(j, i), tx) + if Used(j, tx) then [Times(j.chunkSize, i)] else []
  {
    BeginsAppend(ChunksUpTo(j, i), ChunkEvents(j, i), tx);
    BeginsOfChunk(j, i, tx);
  }

  /** A pass transfers the chunks at offsets 0, c, 2c and so on, in order, on each channel in use. */
  lemma {:induction false} PassOffsets(j: Job, i: nat, tx: bool)
    ensures Begins(ChunksUpTo(j, i), tx) == if Used(j, tx) then Offsets(j.chunkSize, i) else []
  {
    if i > 0 {
      PassOffsets(j, i - 1, tx);
      BeginsNext(j, i - 1, tx);
      OffsetsNext(j.chunkSize, i - 1);
    }
  }

  /** On a channel in use the passes begin transfers at the offsets of a pass, over and over. */
  lemma {:induction false} PassesBegin(j: Job, turns: nat, r: nat, tx: bool)
    ensures Begins(Passes(j, turns, r), tx) == if Used(j, tx) then Repeated(Offsets(j.chunkSize, turns), r) else []
  {
    if r > 0 {
      PassesBegin(j, turns, r - 1, tx);
      BeginsAppend(Passes(j, turns, r - 1), ChunksUpTo(j, turns), tx);
      PassOffsets(j, turns, tx);
    }
  }

  /** A whole job goes through the offsets 0, c, 2c and so on of the buffer, repeat times, on each channel in use. */
  lemma JobOffsets(j: Job, tx: bool)
    ensures Begins(WholeJob(j), tx)
         == if Used(j, tx) then Repeated(Offsets(j.chunkSize, ChunksPerPass(j)), j.repeat) else []
  {
    BeginsAppend(CsEvent(j, true) + Passes(j, ChunksPerPass(j), j.repeat), [Complete], tx);
    BeginsAppend(CsEvent(j, true), Passes(j, ChunksPerPass(j), j.repeat), tx);
    BeginsOfOne(ChipSelect(true), tx);
    BeginsOfOne(Complete, tx);
    PassesBegin(j, ChunksPerPass(j), j.repeat, tx);
  }

  /** A whole job makes repeat times (buffer length / chunk size) transfers on each channel in use. */
  lemma JobTransferCount(j: Job, tx: bool)
    requires j.chunkSize > 0
    ensures |Begins(WholeJob(j), tx)| == if Used(j, tx) then j.repeat * (j.bufferLength / j.chunkSize) else 0
  {
    JobOffsets(j, tx);
    var chunks := ChunksPerPass(j);
    RepeatedLength(Offsets(j.chunkSize, chunks), j.repeat);
    TimesIsProduct(chunks, j.repeat);
    assert chunks == j.bufferLength / j.chunkSize;
  }
}
