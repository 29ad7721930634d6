/** AsyncSPIQueue of builtin/tessel.js; every method refines a step of `SpiArbiter` and keeps its invariant. */
module SpiQueue {
  import opened Bytes
  import opened SpiArbiter

  class AsyncSPIQueue {
    var transfers: seq<Transfer>
    var locks: seq<nat>
    // the event loop and the hardware
    var immediates: seq<Immediate>
    var listeners: seq<Transfer>
    var held: Option<nat>
    var stuck: bool
    ghost var pushed: seq<Transfer>
    ghost var completed: seq<Transfer>
    ghost var called: seq<Transfer>
    ghost var registered: seq<nat>
    ghost var granted: seq<nat>
    ghost var released: seq<nat>
    ghost var since: seq<nat>

    ghost function State(): Arbiter
      reads this
    {
      Arbiter(transfers, locks, immediates, listeners, held, stuck, pushed, completed, called,
              registered, granted, released, since)
    }

    constructor ()
      ensures State() == START && Invariant(State())
    {
      transfers, locks, immediates, listeners, held, stuck := [], [], [], [], None, false;
      pushed, completed, called, registered, granted, released, since := [], [], [], [], [], [], [];
    }

    method ExecuteAsync() returns (rc: int)
      modifies this`listeners, this`stuck
      ensures State() == SpiArbiter.ExecuteAsync(old(State())) && rc == (if transfers == [] then -1 else 0)
    {
      if |transfers| == 0 {
        stuck := true;
        return -1;
      }
      listeners := listeners + [transfers[0]];
      return 0;
    }

    method PushTransfer(t: Transfer) returns (rc: int)
      requires Invariant(State()) && !t.raw
      modifies this
      ensures State() == SpiArbiter.PushTransfer(old(State()), t) && Invariant(State()) && rc == 0
    {
      PushKeeps(State(), t);
      transfers := transfers + [t];
      pushed := pushed + [t];
      rc := 0;
      if |locks| == 0 && |transfers| == 1 {
        rc := ExecuteAsync();
      }
    }

    /** acquireLock: the lock is registered, and told at once if the bus is free */
    method RegisterLock(lock: nat)
      requires Invariant(State())
      modifies this
      ensures State() == SpiArbiter.RegisterLock(old(State()), lock) && Invariant(State())
    {
      AcquireKeeps(State(), lock);
      if |locks| == 0 && |transfers| == 0 {
        immediates := immediates + [ReadyLock(lock)];
      }
      locks := locks + [lock];
      registered, since := registered + [lock], since + [|completed|];
    }

    method DeregisterLock()
      requires Invariant(State()) && Enabled(State(), Release)
      modifies this
      ensures State() == SpiArbiter.DeregisterLock(old(State())) && Invariant(State())
    {
      ReleaseKeeps(State());
      released := released + [locks[0]];
      locks := locks[1..];
      held := None;
      if |locks| > 0 {
        immediates := immediates + [ReadyHead];
      } else if |transfers| > 0 {
        var _ := ExecuteAsync();
      }
    }

    method ProcessTransfer(captured: Transfer)
      modifies this
      ensures State() == SpiArbiter.ProcessTransfer(old(State()), captured)
    {
      if |transfers| == 0 {
        stuck := true;
        return;
      }
      var done := transfers[0];
      transfers := transfers[1..];
      completed := completed + [done];
      if !done.raw && |locks| > 0 {
        immediates := immediates + [ReadyHead];
      } else if |transfers| > 0 {
        immediates := immediates + [Execute];
      }
      called := called + [captured];
    }

    method OnSpiComplete()
      requires Invariant(State()) && Enabled(State(), Complete)
      modifies this
      ensures State() == SpiComplete(old(State())) && Invariant(State())
    {
      CompleteKeeps(State());
      var due := listeners;
      listeners := [];
      while due != []
        invariant SpiComplete(old(State())) == ProcessAll(State(), due)
        decreases due
      {
        ProcessTransfer(due[0]);
        due := due[1..];
      }
    }

    /** lock.emit('ready') */
    method EmitReady(lock: nat)
      modifies this`held, this`granted
      ensures State() == SpiArbiter.EmitReady(old(State()), lock)
    {
      held := Some(lock);
      granted := granted + [lock];
    }

    /** self.locks[0].emit('ready') */
    method EmitReadyHead()
      modifies this`held, this`granted, this`stuck
      ensures State() == if locks == [] then old(State()).(stuck := true)
                         else SpiArbiter.EmitReady(old(State()), locks[0])
    {
      if |locks| == 0 {
        stuck := true;
      } else {
        EmitReady(locks[0]);
      }
    }

    method OnTurn()
      requires Invariant(State()) && Enabled(State(), Turn)
      modifies this
      ensures State() == RunImmediate(old(State())) && Invariant(State())
    {
      TurnKeeps(State());
      var cb := immediates[0];
      immediates := immediates[1..];
      match cb {
        case Execute => var _ := ExecuteAsync();
        case ReadyHead => EmitReadyHead();
        case ReadyLock(l) => EmitReady(l);
      }
    }
  }
}
