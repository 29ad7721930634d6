/**
 The arbiter of the SPI bus in builtin/tessel.js as a state machine: transfers and locks queue up, callbacks
 given to setImmediate wait for the event loop, and the end of a transfer is an event from the hardware.
 */
module SpiArbiter {
  import opened Bytes

  /** A queued transfer. Every caller in the library passes raw = false. */
  datatype Transfer = Transfer(id: nat, raw: bool)

  datatype Immediate = Execute | ReadyHead | ReadyLock(lock: nat)

  /**
   The queue and its surroundings. `listeners` holds the transfers captured by callbacks registered for
   spi_async_complete; `held` is the lock whose ready event has fired and that has not been released; `stuck`
   records the "something went wrong" return, or a callback that finds its queue empty. The rest is history:
   transfers pushed, completed and called back; locks registered, given the bus, and released; and for each lock
   registered the number of transfers completed by then.
   */
  datatype Arbiter = Arbiter(
    transfers: seq<Transfer>, locks: seq<nat>, immediates: seq<Immediate>, listeners: seq<Transfer>,
    held: Option<nat>, stuck: bool,
    pushed: seq<Transfer>, completed: seq<Transfer>, called: seq<Transfer>,
    registered: seq<nat>, granted: seq<nat>, released: seq<nat>, since: seq<nat>)

  const START := Arbiter([], [], [], [], None, false, [], [], [], [], [], [], [])

  function SetImmediate(w: Arbiter, cb: Immediate): Arbiter {
    w.(immediates := w.immediates + [cb])
  }

  function ExecuteAsync(w: Arbiter): Arbiter {
    if w.transfers == [] then w.(stuck := true) else w.(listeners := w.listeners + [w.transfers[0]])
  }

  function PushTransfer(w: Arbiter, t: Transfer): Arbiter {
    var q := w.(transfers := w.transfers + [t], pushed := w.pushed + [t]);
    if q.locks == [] && |q.transfers| == 1 then ExecuteAsync(q) else q
  }

  function RegisterLock(w: Arbiter, lock: nat): Arbiter {
    var q := if w.locks == [] && w.transfers == [] then SetImmediate(w, ReadyLock(lock)) else w;
    q.(locks := q.locks + [lock], registered := q.registered + [lock], since := q.since + [|q.completed|])
  }

  function DeregisterLock(w: Arbiter): Arbiter
    requires w.locks != []
  {
    var q := w.(locks := w.locks[1..], held := None, released := w.released + [w.locks[0]]);
    if q.locks != [] then SetImmediate(q, ReadyHead)
    else if q.transfers != [] then ExecuteAsync(q)
    else q
  }

  /** The callback that _execute_async registered for `captured` runs. */
  function ProcessTransfer(w: Arbiter, captured: Transfer): Arbiter {
    if w.transfers == [] then w.(stuck := true) else
      var done := w.transfers[0];
      var q := w.(transfers := w.transfers[1..], completed := w.completed + [done], called := w.called + [captured]);
      if !done.raw && q.locks != [] then SetImmediate(q, ReadyHead)
      else if q.transfers != [] then SetImmediate(q, Execute)
      else q
  }

  function ProcessAll(w: Arbiter, captured: seq<Transfer>): Arbiter
    decreases captured
  {
    if captured == [] then w else ProcessAll(ProcessTransfer(w, captured[0]), captured[1..])
  }

  /** spi_async_complete is emitted; the listeners were registered for one emission. */
  function SpiComplete(w: Arbiter): Arbiter {
    ProcessAll(w.(listeners := []), w.listeners)
  }

  /** A lock's ready event fires: from now on it has the bus. */
  function EmitReady(w: Arbiter, lock: nat): Arbiter {
    w.(held := Some(lock), granted := w.granted + [lock])
  }

  function RunImmediate(w: Arbiter): Arbiter
    requires w.immediates != []
  {
    var q := w.(immediates := w.immediates[1..]);
    match w.immediates[0]
    case Execute => ExecuteAsync(q)
    case ReadyHead => if q.locks == [] then q.(stuck := true) else EmitReady(q, q.locks[0])
    case ReadyLock(l) => EmitReady(q, l)
  }

  datatype Action = Push(transfer: Transfer) | Acquire(lock: nat) | Release | Complete | Turn

  /** Only the lock that has been given the bus releases it; the hardware only ends what was started. */
  predicate Enabled(w: Arbiter, a: Action) {
    match a
    case Push(_) => true
    case Acquire(_) => true
    case Release => w.locks != [] && w.held == Some(w.locks[0])
    case Complete => w.listeners != []
    case Turn => w.immediates != []
  }

  function Step(w: Arbiter, a: Action): Arbiter
    requires Enabled(w, a)
  {
    match a
    case Push(t) => PushTransfer(w, t)
    case Acquire(l) => RegisterLock(w, l)
    case Release => DeregisterLock(w)
    case Complete => SpiComplete(w)
    case Turn => RunImmediate(w)
  }

  /** What callers of the library do: no transfer is raw. */
  predicate Ordinary(a: Action) {
    a.Push? ==> !a.transfer.raw
  }

  predicate AllOrdinary(actions: seq<Action>) {
    forall i :: 0 <= i < |actions| ==> Ordinary(actions[i])
  }

  // ---------------------------------------------------------------- who has the bus

  predicate Idle(w: Arbiter) {
    w.transfers == [] && w.locks == [] && w.listeners == [] && w.immediates == [] && w.held == None
  }

  predicate InFlight(w: Arbiter) {
    w.transfers != [] && w.listeners == [w.transfers[0]] && w.immediates == [] && w.held == None
  }

  predicate ExecuteScheduled(w: Arbiter) {
    w.transfers != [] && w.listeners == [] && w.immediates == [Execute] && w.held == None
  }

  predicate ReadyScheduled(w: Arbiter) {
    w.locks != [] && w.listeners == [] && w.held == None
    && (w.immediates == [ReadyHead] || w.immediates == [ReadyLock(w.locks[0])])
  }

  predicate LockHeld(w: Arbiter) {
    w.locks != [] && w.listeners == [] && w.immediates == [] && w.held == Some(w.locks[0])
  }

  /** Since any lock that is still queued was registered, at most n transfers have completed. */
  predicate WaitsAtMost(w: Arbiter, n: nat) {
    |w.since| == |w.registered|
    && forall i :: |w.released| <= i < |w.since| ==> w.since[i] <= |w.completed| <= w.since[i] + n
  }

  ghost predicate Invariant(w: Arbiter) {
    && !w.stuck
    && (forall i :: 0 <= i < |w.transfers| ==> !w.transfers[i].raw)
    && w.pushed == w.completed + w.transfers
    && w.called == w.completed
    && w.registered == w.released + w.locks
    && w.granted == w.released + (if w.held.Some? then [w.held.value] else [])
    && WaitsAtMost(w, 1)
    && (Idle(w) || (InFlight(w) && WaitsAtMost(w, 0)) || (ExecuteScheduled(w) && WaitsAtMost(w, 0))
        || ReadyScheduled(w) || LockHeld(w))
  }

  lemma PushKeeps(w: Arbiter, t: Transfer)
    requires Invariant(w) && !t.raw
    ensures Invariant(PushTransfer(w, t))
  {
    assert w.completed + (w.transfers + [t]) == w.completed + w.transfers + [t];
    assert w.transfers != [] ==> (w.transfers + [t])[0] == w.transfers[0];
  }

  lemma AcquireKeeps(w: Arbiter, lock: nat)
    requires Invariant(w)
    ensures Invariant(RegisterLock(w, lock))
  {
    assert w.locks != [] ==> (w.locks + [lock])[0] == w.locks[0];
    ConcatAssociates(w.released, w.locks, [lock]);
  }

  lemma ReleaseKeeps(w: Arbiter)
    requires Invariant(w) && Enabled(w, Release)
    ensures Invariant(DeregisterLock(w))
  {
    assert w.released + w.locks == w.released + [w.locks[0]] + w.locks[1..];
  }

  lemma OneListener(w: Arbiter, t: Transfer)
    requires w.listeners == [t]
    ensures SpiComplete(w) == ProcessTransfer(w.(listeners := []), t)
  {
    var r := ProcessTransfer(w.(listeners := []), t);
    assert [t][1..] == [] && ProcessAll(r, []) == r;
  }

  lemma CompleteKeeps(w: Arbiter)
    requires Invariant(w) && Enabled(w, Complete)
    ensures Invariant(SpiComplete(w))
  {
    var t := w.transfers[0];
    OneListener(w, t);
    assert w.completed + w.transfers == w.completed + [t] + w.transfers[1..];
  }

  lemma TurnKeeps(w: Arbiter)
    requires Invariant(w) && Enabled(w, Turn)
    ensures Invariant(RunImmediate(w))
  {}

  /** Every ordinary step keeps the invariant. */
  lemma StepKeeps(w: Arbiter, a: Action)
    requires Invariant(w) && Enabled(w, a) && Ordinary(a)
    ensures Invariant(Step(w, a))
  {
    match a
    case Push(t) => PushKeeps(w, t);
    case Acquire(l) => AcquireKeeps(w, l);
    case Release => ReleaseKeeps(w);
    case Complete => CompleteKeeps(w);
    case Turn => TurnKeeps(w);
  }

  predicate Runs(w: Arbiter, actions: seq<Action>)
    decreases actions
  {
    actions == [] || (Enabled(w, actions[0]) && Runs(Step(w, actions[0]), actions[1..]))
  }

  function After(w: Arbiter, actions: seq<Action>): Arbiter
    requires Runs(w, actions)
    decreases actions
  {
    if actions == [] then w else After(Step(w, actions[0]), actions[1..])
  }

  lemma {:induction false} RunKeeps(w: Arbiter, actions: seq<Action>)
    requires Invariant(w) && Runs(w, actions) && AllOrdinary(actions)
    ensures Invariant(After(w, actions))
    decreases actions
  {
    if actions != [] {
      StepKeeps(w, actions[0]);
      RunKeeps(Step(w, actions[0]), actions[1..]);
    }
  }

  function Count(b: bool): nat { if b then 1 else 0 }

  /**
   Mutual exclusion in every reachable state: exactly one of idle, transfer in flight, execution scheduled,
   ready scheduled and lock held is true; the bus is idle exactly when both queues are empty; and neither the
   "something went wrong" return nor an empty-queue callback is ever reached: a completion or an execution to come
   finds a transfer, and a ready event to come finds a lock.
   */
  lemma MutualExclusion(actions: seq<Action>)
    requires Runs(START, actions) && AllOrdinary(actions)
    ensures var w := After(START, actions);
            && Count(Idle(w)) + Count(InFlight(w)) + Count(ExecuteScheduled(w)) + Count(ReadyScheduled(w))
               + Count(LockHeld(w)) == 1
            && (Idle(w) <==> w.transfers == [] && w.locks == [])
            && !w.stuck
            && (w.listeners != [] || Execute in w.immediates ==> w.transfers != [])
            && (ReadyHead in w.immediates ==> w.locks != [])
  {
    RunKeeps(START, actions);
  }

  /**
   Ordering in every reachable state: transfers complete in the order pushed, each callback is that of the
   transfer completed, and since a lock was registered at most one transfer has completed while it is queued.
   */
  lemma CompletionOrder(actions: seq<Action>)
    requires Runs(START, actions) && AllOrdinary(actions)
    ensures var w := After(START, actions);
            && w.completed <= w.pushed && w.pushed[|w.completed|..] == w.transfers
            && w.called == w.completed
            && |w.since| == |w.registered|
            && (forall i :: |w.released| <= i < |w.since| ==> w.since[i] <= |w.completed| <= w.since[i] + 1)
  {
    RunKeeps(START, actions);
  }

  /**
   Locks get the bus in the order in which they were registered, and give it back in that order: in every reachable
   state those registered are those released and those queued, and those given the bus so far are the first of
   them, all released but the one that holds it. So a ready event always goes to the oldest lock not released.
   */
  lemma LockOrder(actions: seq<Action>)
    requires Runs(START, actions) && AllOrdinary(actions)
    ensures var w := After(START, actions);
            && w.registered == w.released + w.locks
            && w.released <= w.granted <= w.registered
            && |w.granted| == |w.released| + Count(w.held.Some?)
            && (w.held.Some? ==> w.held.value == w.registered[|w.released|])
  {
    RunKeeps(START, actions);
  }

  /** The five states of the bus. */
  datatype Bus = BusIdle | BusInFlight | BusExecuteScheduled | BusReadyScheduled | BusLockHeld

  predicate IsIn(w: Arbiter, b: Bus) {
    match b
    case BusIdle => Idle(w)
    case BusInFlight => InFlight(w)
    case BusExecuteScheduled => ExecuteScheduled(w)
    case BusReadyScheduled => ReadyScheduled(w)
    case BusLockHeld => LockHeld(w)
  }

  /**
   Where each action leads, from how many transfers and locks there are. A lock waiting goes before a transfer
   waiting; the next transfer is started by a callback of its own behind a completion, and at once behind a release.
   */
  function NextBus(b: Bus, a: Action, transfers: nat, locks: nat): Bus {
    match b
    case BusIdle => (match a case Push(_) => BusInFlight case Acquire(_) => BusReadyScheduled case _ => b)
    case BusInFlight =>
      if a != Complete then b
      else if locks > 0 then BusReadyScheduled
      else if transfers > 1 then BusExecuteScheduled
      else BusIdle
    case BusExecuteScheduled => if a == Turn then BusInFlight else b
    case BusReadyScheduled => if a == Turn then BusLockHeld else b
    case BusLockHeld =>
      if a != Release then b
      else if locks > 1 then BusReadyScheduled
      else if transfers > 0 then BusInFlight
      else BusIdle
  }

  lemma Transitions(w: Arbiter, a: Action, b: Bus)
    requires Invariant(w) && Enabled(w, a) && Ordinary(a) && IsIn(w, b)
    ensures IsIn(Step(w, a), NextBus(b, a, |w.transfers|, |w.locks|))
  {
    match a
    case Push(t) => PushMoves(w, t, b);
    case Acquire(l) => AcquireMoves(w, l, b);
    case Release => ReleaseMoves(w, b);
    case Complete => CompletionMoves(w, b);
    case Turn => TurnMoves(w, b);
  }

  lemma PushMoves(w: Arbiter, t: Transfer, b: Bus)
    requires Invariant(w) && IsIn(w, b)
    ensures IsIn(PushTransfer(w, t), NextBus(b, Push(t), |w.transfers|, |w.locks|))
  {
    assert w.transfers != [] ==> (w.transfers + [t])[0] == w.transfers[0];
  }

  lemma AcquireMoves(w: Arbiter, lock: nat, b: Bus)
    requires Invariant(w) && IsIn(w, b)
    ensures IsIn(RegisterLock(w, lock), NextBus(b, Acquire(lock), |w.transfers|, |w.locks|))
  {
    assert w.locks != [] ==> (w.locks + [lock])[0] == w.locks[0];
  }

  lemma ReleaseMoves(w: Arbiter, b: Bus)
    requires Invariant(w) && Enabled(w, Release) && IsIn(w, b)
    ensures IsIn(DeregisterLock(w), NextBus(b, Release, |w.transfers|, |w.locks|))
  {}

  lemma CompletionMoves(w: Arbiter, b: Bus)
    requires Invariant(w) && Enabled(w, Complete) && IsIn(w, b)
    ensures IsIn(SpiComplete(w), NextBus(b, Complete, |w.transfers|, |w.locks|))
  {
    OneListener(w, w.transfers[0]);
  }

  lemma TurnMoves(w: Arbiter, b: Bus)
    requires Invariant(w) && Enabled(w, Turn) && IsIn(w, b)
    ensures IsIn(RunImmediate(w), NextBus(b, Turn, |w.transfers|, |w.locks|))
  {}

  /** In every reachable state the bus goes where the table says. */
  lemma BusFollowsTable(actions: seq<Action>, a: Action, b: Bus)
    requires Runs(START, actions) && AllOrdinary(actions) && Ordinary(a)
    requires var w := After(START, actions); Enabled(w, a) && IsIn(w, b)
    ensures var w := After(START, actions); IsIn(Step(w, a), NextBus(b, a, |w.transfers|, |w.locks|))
  {
    RunKeeps(START, actions);
    Transitions(After(START, actions), a, b);
  }

  // ---------------------------------------------------------------- nothing waits for ever

  /** Steps that the hardware, the event loop and lock holders still owe. */
  function Owed(w: Arbiter): int {
    2 * |w.transfers| + 2 * |w.locks| - Count(w.listeners != []) - Count(w.held.Some?)
  }

  /** No lost wake-up: unless the bus is idle, a completion, a callback or the release of a lock is due. */
  lemma SomethingDue(w: Arbiter)
    requires Invariant(w) && !Idle(w)
    ensures Enabled(w, Complete) || Enabled(w, Turn) || Enabled(w, Release)
  {}

  /** Each such step brings the bus nearer to idle. */
  lemma DueStepsDrain(w: Arbiter, a: Action)
    requires Invariant(w) && Enabled(w, a) && (a == Complete || a == Turn || a == Release)
    ensures 0 <= Owed(Step(w, a)) < Owed(w)
  {
    StepKeeps(w, a);
    if a == Complete {
      OneListener(w, w.transfers[0]);
    }
  }

  // ---------------------------------------------------------------- raw transfers

  /** A lock waits, and nothing that could give it the bus is on its way. */
  predicate Stranded(w: Arbiter) {
    w.locks != [] && w.listeners == [] && w.immediates == [] && w.held == None
  }

  /** A raw transfer completes as the last one, with a lock waiting. */
  predicate RawEndsLast(w: Arbiter, a: Action) {
    a == Complete && |w.transfers| == 1 && w.transfers[0].raw && w.locks != []
  }

  /** With raw transfers allowed, being stranded is one more state of the bus. */
  ghost predicate RawInvariant(w: Arbiter) {
    && !w.stuck
    && Count(Idle(w)) + Count(InFlight(w)) + Count(ExecuteScheduled(w)) + Count(ReadyScheduled(w))
       + Count(LockHeld(w)) + Count(Stranded(w)) == 1
  }

  lemma RawStep(w: Arbiter, a: Action)
    requires RawInvariant(w) && Enabled(w, a)
    ensures RawInvariant(Step(w, a))
    ensures Stranded(Step(w, a)) <==> Stranded(w) || RawEndsLast(w, a)
  {
    if a == Complete {
      OneListener(w, w.transfers[0]);
    }
  }

  /** Somewhere in the run a raw transfer completes as the last one, with a lock waiting. */
  predicate Strands(w: Arbiter, actions: seq<Action>)
    requires Runs(w, actions)
    decreases actions
  {
    actions != [] && (RawEndsLast(w, actions[0]) || Strands(Step(w, actions[0]), actions[1..]))
  }

  lemma {:induction false} RawRun(w: Arbiter, actions: seq<Action>)
    requires RawInvariant(w) && Runs(w, actions)
    ensures RawInvariant(After(w, actions))
    ensures Stranded(After(w, actions)) <==> Stranded(w) || Strands(w, actions)
    decreases actions
  {
    if actions != [] {
      RawStep(w, actions[0]);
      RawRun(Step(w, actions[0]), actions[1..]);
    }
  }

  /**
   Why transfers must not be raw. In any run, raw transfers allowed, the bus keeps to one user; but it ends with a
   lock that nothing will ever give the bus to if and only if some raw transfer completed as the last one while
   a lock was waiting.
   */
  lemma StrandedExactly(actions: seq<Action>)
    requires Runs(START, actions)
    ensures Stranded(After(START, actions)) <==> Strands(START, actions)
    ensures !After(START, actions).stuck
  {
    RawRun(START, actions);
  }

  /** The shortest such run. */
  lemma RawTransferStrandsLock()
    ensures var actions := [Push(Transfer(0, true)), Acquire(1), Complete];
            Runs(START, actions) && Stranded(After(START, actions))
  {
    var actions := [Push(Transfer(0, true)), Acquire(1), Complete];
    assert actions[1..] == [Acquire(1), Complete] && actions[1..][1..] == [Complete] && actions[1..][1..][1..] == [];
    var w1 := Step(START, actions[0]);
    var w2 := Step(w1, Acquire(1));
    assert InFlight(w2);
    assert Runs(w2, [Complete]) && RawEndsLast(w2, Complete);
    assert Strands(w2, [Complete]);
    assert Runs(w1, actions[1..]) && Strands(w1, actions[1..]);
    RawRun(START, actions);
  }
}
