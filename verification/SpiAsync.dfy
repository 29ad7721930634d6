/**
 spi_async_status and the functions on it in src/hw/hw_spi_async.c. Every function refines a step of
 `SpiEngine`, and each chunk it begins is described by the descriptor chain of `SpiDma`.
 */
module SpiAsync {
  import opened Bytes
  import opened SpiDma
  import opened SpiEngine

  class SpiStatus {
    const job: Job
    /** Addresses of the buffers and of the data registers. */
    const txbuf: nat
    const rxbuf: nat
    const txRegister: nat
    const rxRegister: nat
    const txList: array<Lli>
    const rxList: array<Lli>
    var repeat: nat
    var chunkOffset: nat
    var transferCount: nat
    var txBusy: bool
    var rxBusy: bool
    ghost var trace: seq<Event>

    ghost predicate Valid() {
      txList != rxList && txList.Length == rxList.Length == NumLinkedLists(job.bufferLength)
    }

    ghost function State(): Engine
      reads this
    {
      Engine(job, repeat, chunkOffset, transferCount, txBusy, rxBusy, trace)
    }

    /** hw_spi_transfer_setup, with chip select made an output and driven high before */
    constructor (job: Job, txbuf: nat, rxbuf: nat, txRegister: nat, rxRegister: nat)
      ensures Valid() && fresh(txList) && fresh(rxList) && this.job == job
      ensures this.txbuf == txbuf && this.rxbuf == rxbuf
      ensures this.txRegister == txRegister && this.rxRegister == rxRegister
      ensures State() == Engine(job, job.repeat, 0, 0, false, false, CsEvent(job, true))
    {
      this.job, this.txbuf, this.rxbuf := job, txbuf, rxbuf;
      this.txRegister, this.rxRegister := txRegister, rxRegister;
      var empty := Lli(0, 0, 0, Control(0, false, false, false, false, false));
      txList := new Lli[NumLinkedLists(job.bufferLength)](_ => empty);
      rxList := new Lli[NumLinkedLists(job.bufferLength)](_ => empty);
      repeat, chunkOffset, transferCount, txBusy, rxBusy := job.repeat, 0, 0, false, false;
      trace := CsEvent(job, true);
    }

    /** The lists allocated for the buffer are long enough for a chunk. */
    ghost predicate ListsSuffice() {
      NumLinkedLists(job.chunkSize) <= NumLinkedLists(job.bufferLength)
    }

    /** The list of every busy channel is the descriptor chain of the present chunk. */
    ghost predicate Prepared()
      reads this, txList, rxList
    {
      var n := NumLinkedLists(job.chunkSize);
      && n <= txList.Length && n <= rxList.Length
      && (rxBusy ==> rxList[..n] == Chain(job.chunkSize, rxRegister, rxbuf + chunkOffset, false))
      && (txBusy ==> txList[..n] == Chain(job.chunkSize, txbuf + chunkOffset, txRegister, true))
    }

    /** hw_spi_transfer_step */
    method TransferStep()
      requires Valid() && ListsSuffice()
      modifies this`transferCount, this`txBusy, this`rxBusy, this`trace, txList, rxList
      ensures State() == SpiEngine.TransferStep(old(State()))
      ensures Prepared() && txBusy == job.hasTx && rxBusy == job.hasRx
    {
      trace := trace + BeginEvents(job, chunkOffset);
      transferCount := 0;
      if job.hasRx {
        PacketizeStep(rxList, job.chunkSize, rxRegister, rxbuf + chunkOffset, false);
        rxBusy := true;
      } else {
        rxBusy := false;
      }
      if job.hasTx {
        PacketizeStep(txList, job.chunkSize, txbuf + chunkOffset, txRegister, true);
        txBusy := true;
      } else {
        txBusy := false;
      }
    }

    /** default_complete_cb */
    method DefaultCompleteCb()
      requires Valid() && ListsSuffice() && !txBusy && !rxBusy
      modifies this`repeat, this`chunkOffset, this`transferCount, this`txBusy, this`rxBusy, this`trace
      modifies txList, rxList
      ensures State() == CompleteChunk(old(State())) && Prepared()
    {
      trace := trace + CsEvent(job, true);
      chunkOffset := chunkOffset + job.chunkSize;
      if chunkOffset + job.chunkSize > job.bufferLength {
        chunkOffset := 0;
        repeat := (repeat + 0xFFFF_FFFF) % 0x1_0000_0000;
        if repeat == 0 {
          trace := trace + [Complete];
          return;
        }
      }
      TransferStep();
    }

    /** hw_spi_dma_counter for a terminal-count interrupt */
    method DmaCounter(tx: bool)
      requires Valid() && ListsSuffice() && Busy(State(), tx) && Balanced(State()) && Prepared()
      modifies this`repeat, this`chunkOffset, this`transferCount, this`txBusy, this`rxBusy, this`trace
      modifies txList, rxList
      ensures State() == Counter(old(State()), tx) && Balanced(State()) && Prepared()
      ensures Inside(old(State())) ==> Inside(State())
    {
      ghost var before := State();
      InterruptBalances(before, tx);
      if tx {
        txBusy := false;
      } else {
        rxBusy := false;
      }
      transferCount := transferCount + 1;
      var doneCount := if job.hasTx && job.hasRx then 2 else 1;
      if transferCount == doneCount {
        DefaultCompleteCb();
      }
      if Inside(before) {
        InterruptKeeps(before, tx);
      }
    }
  }

  /** hw_spi_transfer, for a chunk that needs no longer lists than the buffer */
  method SpiTransfer(job: Job, txbuf: nat, rxbuf: nat, txRegister: nat, rxRegister: nat) returns (s: SpiStatus)
    requires NumLinkedLists(job.chunkSize) <= NumLinkedLists(job.bufferLength)
    ensures fresh(s) && s.Valid() && s.job == job && s.State() == Start(job) && s.Prepared()
    ensures (s.txbuf, s.rxbuf, s.txRegister, s.rxRegister) == (txbuf, rxbuf, txRegister, rxRegister)
    ensures (job.hasTx || job.hasRx) ==> Balanced(s.State())
    ensures s.ListsSuffice() && (Runnable(job) ==> Inside(s.State()))
  {
    s := new SpiStatus(job, txbuf, rxbuf, txRegister, rxRegister);
    if job.repeat == 0 || job.chunkSize > job.bufferLength {
      s.trace := s.trace + [Complete];
    }
    s.TransferStep();
    if job.hasTx || job.hasRx {
      StartBalances(job);
    }
    if Runnable(job) {
      StartsInside(job);
    }
  }

  // ---------------------------------------------------------------- chains and chunks together

  /** The chain between n bytes of a buffer and a data register. */
  function BufferChain(n: nat, buffer: nat, register: nat, tx: bool): seq<Lli> {
    if tx then Chain(n, buffer, register, true) else Chain(n, register, buffer, false)
  }

  /** Sending n bytes of a buffer to a register, or storing n bytes read from it. */
  function BufferCopy(n: nat, buffer: nat, register: nat, tx: bool): (r: seq<Move>)
    ensures |r| == n
  {
    if tx then Copy(n, buffer, register, true) else Copy(n, register, buffer, false)
  }

  lemma ChainMoves(n: nat, buffer: nat, register: nat, tx: bool)
    requires n > 0
    ensures var chain := BufferChain(n, buffer, register, tx);
            && chain != [] && Forward(chain) && Walk(chain, 0) == BufferCopy(Covered(n), buffer, register, tx)
  {
    if tx {
      ChainCopies(n, buffer, register, true);
    } else {
      ChainCopies(n, register, buffer, false);
    }
  }

  /** The bytes moved by the chain of the chunk at offset o. */
  function ChunkMoves(chunkSize: nat, buffer: nat, register: nat, tx: bool, o: nat): (r: seq<Move>)
    ensures chunkSize > 0 ==> r == BufferCopy(Covered(chunkSize), buffer + o, register, tx)
  {
    if chunkSize == 0 then [] else
      ChainMoves(chunkSize, buffer + o, register, tx);
      Walk(BufferChain(chunkSize, buffer + o, register, tx), 0)
  }

  function MovesAt(chunkSize: nat, buffer: nat, register: nat, tx: bool): nat -> seq<Move> {
    (o: nat) => ChunkMoves(chunkSize, buffer, register, tx, o)
  }

  /** The bytes moved by the chains of chunks begun at the given offsets. */
  function MovesOf(chunkSize: nat, buffer: nat, register: nat, tx: bool, offsets: seq<nat>): seq<Move> {
    FlatMap(MovesAt(chunkSize, buffer, register, tx), offsets)
  }

  lemma {:induction false} MovesCount(chunkSize: nat, buffer: nat, register: nat, tx: bool, offsets: seq<nat>)
    requires chunkSize > 0
    ensures |MovesOf(chunkSize, buffer, register, tx, offsets)| == Times(Covered(chunkSize), |offsets|)
  {
    if offsets != [] {
      MovesCount(chunkSize, buffer, register, tx, offsets[1..]);
    }
  }

  lemma CopyJoin(m: nat, n: nat, buffer: nat, register: nat, tx: bool)
    ensures BufferCopy(m, buffer, register, tx) + BufferCopy(n, buffer + m, register, tx)
         == BufferCopy(m + n, buffer, register, tx)
  {}

  lemma OneMoreChunk(chunkSize: nat, buffer: nat, register: nat, tx: bool, offsets: seq<nat>, o: nat)
    requires chunkSize % 4095 != 0
    requires MovesOf(chunkSize, buffer, register, tx, offsets) == BufferCopy(o, buffer, register, tx)
    ensures MovesOf(chunkSize, buffer, register, tx, offsets + [o])
         == BufferCopy(o + chunkSize, buffer, register, tx)
  {
    var f := MovesAt(chunkSize, buffer, register, tx);
    FlatMapAppend(f, offsets, [o]);
    FlatMapOne(f, o);
    CopyJoin(o, chunkSize, buffer, register, tx);
  }

  /**
   Chains and chunks together: unless the chunk size is a multiple of 4095, the chunks of a pass move the
   buffer's bytes in either direction one after the other, none twice and none left out.
   */
  lemma {:induction false} PassMovesBuffer(chunkSize: nat, buffer: nat, register: nat, tx: bool, i: nat)
    requires chunkSize % 4095 != 0
    ensures MovesOf(chunkSize, buffer, register, tx, Offsets(chunkSize, i))
         == BufferCopy(Times(chunkSize, i), buffer, register, tx)
  {
    if i > 0 {
      PassMovesBuffer(chunkSize, buffer, register, tx, i - 1);
      OneMoreChunk(chunkSize, buffer, register, tx, Offsets(chunkSize, i - 1), Times(chunkSize, i - 1));
      OffsetsNext(chunkSize, i - 1);
    }
  }

  lemma {:induction false} PassesMoveBuffer(
      chunkSize: nat, chunks: nat, buffer: nat, register: nat, tx: bool, r: nat)
    requires chunkSize % 4095 != 0
    ensures MovesOf(chunkSize, buffer, register, tx, Repeated(Offsets(chunkSize, chunks), r))
         == Repeated(BufferCopy(Times(chunkSize, chunks), buffer, register, tx), r)
  {
    if r > 0 {
      PassesMoveBuffer(chunkSize, chunks, buffer, register, tx, r - 1);
      FlatMapAppend(MovesAt(chunkSize, buffer, register, tx), Repeated(Offsets(chunkSize, chunks), r - 1),
                    Offsets(chunkSize, chunks));
      PassMovesBuffer(chunkSize, buffer, register, tx, chunks);
    }
  }

  /**
   The chains of the transfers that a whole job begins: on a channel in use they move the chunks of the buffer in
   order, once for each repetition, if and only if the chunk size is not a multiple of 4095.
   */
  lemma JobMovesBuffer(j: Job, buffer: nat, register: nat, tx: bool)
    requires Proper(j) && Used(j, tx)
    ensures MovesOf(j.chunkSize, buffer, register, tx, Begins(WholeJob(j), tx))
         == Repeated(BufferCopy(Times(j.chunkSize, ChunksPerPass(j)), buffer, register, tx), j.repeat)
       <==> j.chunkSize % 4095 != 0
  {
    JobOffsets(j, tx);
    if j.chunkSize % 4095 != 0 {
      PassesMoveBuffer(j.chunkSize, ChunksPerPass(j), buffer, register, tx, j.repeat);
    } else {
      MovesCount(j.chunkSize, buffer, register, tx, Begins(WholeJob(j), tx));
      RepeatedLength(BufferCopy(Times(j.chunkSize, ChunksPerPass(j)), buffer, register, tx), j.repeat);
      RepeatedLength(Offsets(j.chunkSize, ChunksPerPass(j)), j.repeat);
      TurnsFit(j, 0);
      FewerMoves(Covered(j.chunkSize), j.chunkSize, ChunksPerPass(j), j.repeat);
    }
  }

  lemma {:induction false} FewerMoves(m: nat, n: nat, chunks: nat, repeat: nat)
    requires m < n && chunks > 0 && repeat > 0
    ensures Times(m, Times(chunks, repeat)) < Times(Times(n, chunks), repeat)
    decreases repeat
  {
    TimesSum(m, Times(chunks, repeat - 1), chunks);
    TimesLess(m, n, chunks);
    if repeat > 1 {
      FewerMoves(m, n, chunks, repeat - 1);
    }
  }

  lemma {:induction false} TimesSum(m: nat, a: nat, b: nat)
    ensures Times(m, a + b) == Times(m, a) + Times(m, b)
    decreases b
  {
    if b > 0 {
      TimesSum(m, a, b - 1);
    }
  }

  lemma {:induction false} TimesLess(m: nat, n: nat, k: nat)
    requires m < n && k > 0
    ensures Times(m, k) < Times(n, k)
    decreases k
  {
    if k > 1 {
      TimesLess(m, n, k - 1);
    }
  }
}
