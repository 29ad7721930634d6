/**
 The incoming half of src/usb/msg_interface.c with its variables as fields. Every completion and every run of
 the event handler refines a step of `UsbReceive`; echoed messages go to the outgoing list.
 */
module UsbReceiver {
  import opened Bytes
  import opened UsbFrame
  import opened UsbReceive
  import opened UsbSend

  class MsgOut {
    const msgIn: MsgIn
    const initial: array<byte>
    var buf: array?<byte>
    var length: nat
    var pos: nat
    /** The size of the buffer that the endpoint holds; 0 if it holds none. */
    var posted: nat
    var eventPending: bool
    ghost var posts: nat
    ghost var dispatched: seq<Outcome>

    ghost function Arrays(): set<object>
      reads this`buf
    {
      {initial} + if buf == null then {} else {buf}
    }

    /** Every object that handling a transfer may change. */
    ghost function Footprint(): set<object>
      reads this`buf, msgIn`items
    {
      {this, msgIn} + Arrays() + msgIn.Objects()
    }

    ghost predicate Valid()
      reads this, Arrays(), msgIn`items
    {
      initial.Length == MSG_EPSIZE && (buf != null ==> buf != initial && buf.Length == length)
      && this !in msgIn.Objects() && initial !in msgIn.Objects() && (buf != null ==> buf !in msgIn.Objects())
      && this as object != msgIn
    }

    ghost function State(): (s: Reassembly)
      reads this, Arrays()
    {
      Reassembly(initial[..], if buf == null then None else Some(buf[..]), length, pos,
                 if posted == 0 then None else Some(posted), eventPending, posts, dispatched)
    }

    constructor (msgIn: MsgIn)
      requires msgIn.Valid()
      ensures Valid() && msgIn.Valid() && fresh(initial) && this.msgIn == msgIn && buf == null
      ensures Ready(State()) && posts == 1 && dispatched == []
    {
      this.msgIn := msgIn;
      initial := new byte[MSG_EPSIZE];
      buf, length, pos, eventPending, dispatched := null, 0, 0, false, [];
      posted, posts := MSG_EPSIZE, 1;
    }

    /** usb_ep_start_out: the endpoint holds one buffer at a time. */
    method StartOut(size: nat)
      requires posted == 0 && size > 0
      modifies this`posted, this`posts
      ensures State() == Post(old(State()), size)
    {
      posted := size;
      posts := posts + 1;
    }

    /** msg_out_rearm_ep */
    method RearmEp()
      requires posted == 0
      modifies this`posted, this`posts
      ensures State() == UsbReceive.RearmEp(old(State()))
    {
      StartOut(MSG_EPSIZE);
    }

    /** msg_out_start_ep */
    method StartEp()
      requires posted == 0 && pos <= length
      modifies this`posted, this`posts
      ensures State() == UsbReceive.StartEp(old(State()))
    {
      var size := MSG_MAX_BLOCKSIZE;
      var remaining := length - pos;
      if remaining < size {
        size := RoundToEndpointSize(remaining, MSG_EPSIZE);
      }
      StartOut(size);
    }

    /** The endpoint stores the bytes of a completed buffer. */
    method Store(into: array<byte>, at: nat, bytes: seq<byte>)
      requires at + |bytes| <= into.Length
      modifies into
      ensures into[..] == Overwrite(old(into[..]), at, bytes)
    {
      forall i | 0 <= i < |bytes| {
        into[at + i] := bytes[i];
      }
    }

    /** The posted buffer completes with these bytes: the OUT half of handle_msg_completion. */
    method HandleCompletion(bytes: seq<byte>)
      requires Valid() && posted != 0 && UsbReceive.Fits(State(), bytes)
      modifies this`posted, this`posts, this`pos, this`eventPending, Arrays()
      ensures Valid() && State() == Complete(old(State()), bytes)
      ensures !old(eventPending) ==> (posted == 0 <==> eventPending)
      ensures buf == old(buf) && Footprint() == old(Footprint())
    {
      posted := 0;
      if buf == null {
        Store(initial, 0, bytes);
        if |bytes| >= MSG_HEADER_SIZE {
          pos := |bytes| - MSG_HEADER_SIZE;
          eventPending := true;
        } else {
          RearmEp();
        }
      } else {
        Store(buf, pos, bytes);
        pos := pos + |bytes|;
        if |bytes| < MSG_MAX_BLOCKSIZE || pos > length {
          eventPending := true;
        } else {
          StartEp();
        }
      }
    }

    /** Reads the length from the header and moves the data behind it into a buffer of that length. */
    method Allocate()
      requires initial.Length == MSG_EPSIZE && buf == null && HandlerDefined(State())
      modifies this`length, this`buf
      ensures buf != null && fresh(buf) && buf.Length == length && State() == Allocated(old(State()))
    {
      length := FromLe32(initial[..4]);
      buf := new byte[length](_ => 0);
      assert buf[..] == Zeros(length);
      Store(buf, 0, initial[MSG_HEADER_SIZE..MSG_HEADER_SIZE + pos]);
    }

    /** A message of the right length goes where its tag says. */
    method Process(msg: Msg) returns (outcome: Outcome)
      requires msgIn.Valid()
      modifies msgIn, msgIn.Objects()
      ensures msgIn.Valid() && fresh(msgIn.Objects() - old(msgIn.Objects()))
      ensures outcome == Dispatch(msg) && GoesTo(msg, outcome) && msgIn.connected == old(msgIn.connected)
      ensures msgIn.history == if outcome.Echo? && msgIn.connected then old(msgIn.history) + [Frame(msg)]
                               else old(msgIn.history)
    {
      if msg.tag / 0x100_0000 == 0 {
        outcome := Command(msg.tag % 256, msg.data);
      } else if msg.tag / 0x100_0000 == 0xAA {
        var _ := msgIn.Send(msg);
        outcome := Echo(msg);
      } else {
        outcome := InvalidTag(msg.tag);
      }
    }

    /** Forgets the message and waits for the next one. */
    method Reset(ghost outcome: Outcome)
      requires posted == 0
      modifies this`buf, this`pos, this`length, this`dispatched, this`posted, this`posts
      ensures buf == null
      ensures State() == UsbReceive.RearmEp(old(State()).(
                           buf := None, pos := 0, length := 0, dispatched := old(dispatched) + [outcome]))
    {
      dispatched := dispatched + [outcome];
      buf, pos, length := null, 0, 0;
      RearmEp();
    }

    /** The end of msg_out_handler: the message is complete, or has the wrong length. */
    method Conclude() returns (outcome: Outcome)
      requires Valid() && msgIn.Valid() && posted == 0 && buf != null && length + MSG_HEADER_SIZE < 0x1_0000_0000
      modifies this`buf, this`pos, this`length, this`dispatched, this`posted, this`posts, msgIn, msgIn.Objects()
      ensures Valid() && msgIn.Valid() && State() == Finish(old(State())) && dispatched == old(dispatched) + [outcome] && buf == null
      ensures fresh(msgIn.Objects() - old(msgIn.Objects()))
      ensures msgIn.connected == old(msgIn.connected)
      ensures msgIn.history == if outcome.Echo? && msgIn.connected then old(msgIn.history) + [Frame(outcome.msg)]
                               else old(msgIn.history)
    {
      ghost var before := State();
      outcome := InvalidLength;
      if pos == length {
        outcome := Process(RawMsg(FromLe32(initial[4..8]), buf[..]));
      }
      assert State() == before;
      Reset(outcome);
    }

    /** The beginning of msg_out_handler: makes room for a new message, and asks for the rest of a long one. */
    method Prepare() returns (complete: bool)
      requires Valid() && posted == 0 && eventPending && HandlerDefined(State())
      modifies this`eventPending, this`length, this`buf, this`posted, this`posts
      ensures Valid() && buf != null && (buf == old(buf) || fresh(buf)) && (complete ==> posted == 0)
      ensures State() == if complete then Allocated(old(State()).(eventPending := false)) else Handle(old(State()))
      ensures complete ==> Handle(old(State())) == Finish(State())
    {
      eventPending := false;
      complete := true;
      if buf == null {
        Allocate();
        if length + MSG_HEADER_SIZE >= MSG_EPSIZE {
          StartEp();
          complete := false;
        }
      }
    }

    /** msg_out_handler, run when its event is dispatched */
    method OutHandler() returns (ghost done: Option<Outcome>)
      requires Valid() && msgIn.Valid() && posted == 0 && eventPending && HandlerDefined(State())
      modifies Footprint()
      ensures Valid() && msgIn.Valid() && State() == Handle(old(State()))
      ensures fresh(Footprint() - old(Footprint()))
      ensures dispatched == old(dispatched) + if done.Some? then [done.value] else []
      ensures msgIn.connected == old(msgIn.connected)
      ensures msgIn.history == if done.Some? && done.value.Echo? && msgIn.connected
                               then old(msgIn.history) + [Frame(done.value.msg)] else old(msgIn.history)
    {
      done := None;
      var complete := Prepare();
      if complete {
        var outcome := Conclude();
        done := Some(outcome);
      }
    }
  }

  /** The frames sent back for outcomes. */
  ghost function EchoFrames(outcomes: seq<Outcome>): seq<seq<byte>> {
    FlatMap((o: Outcome) => if o.Echo? then [Frame(o.msg)] else [], outcomes)
  }

  /** While the outcomes grew from some to others, exactly the echoed messages among the new ones were sent back. */
  ghost predicate Echoed(
    before: seq<Outcome>, after: seq<Outcome>, was: seq<seq<byte>>, history: seq<seq<byte>>, connected: bool)
  {
    before <= after && history == was + if connected then EchoFrames(after[|before|..]) else []
  }

  /** What one completed buffer leads to. */
  ghost function AfterBuffer(s: Reassembly, bytes: seq<byte>): Reassembly
    requires WellShaped(s) && UsbReceive.Fits(s, bytes)
    requires Complete(s, bytes).eventPending ==> HandlerDefined(Complete(s, bytes))
  {
    var t := Complete(s, bytes);
    if t.eventPending then Handle(t) else t
  }

  /** A buffer completes, and the event it triggers, if any, is handled. */
  method RunBuffer(o: MsgOut, bytes: seq<byte>)
    requires o.Valid() && o.msgIn.Valid() && o.posted != 0 && !o.eventPending && UsbReceive.Fits(o.State(), bytes)
    requires Complete(o.State(), bytes).eventPending ==> HandlerDefined(Complete(o.State(), bytes))
    modifies o.Footprint()
    ensures o.Valid() && o.msgIn.Valid() && o.State() == AfterBuffer(old(o.State()), bytes)
    ensures fresh(o.Footprint() - old(o.Footprint())) && o.msgIn.connected == old(o.msgIn.connected)
    ensures Echoed(old(o.dispatched), o.dispatched, old(o.msgIn.history), o.msgIn.history, o.msgIn.connected)
  {
    o.HandleCompletion(bytes);
    ServeEvent(o);
  }

  /** The event loop runs the handler, if its event is pending. */
  method ServeEvent(o: MsgOut)
    requires o.Valid() && o.msgIn.Valid() && (o.eventPending ==> o.posted == 0 && HandlerDefined(o.State()))
    modifies o.Footprint()
    ensures o.Valid() && o.msgIn.Valid()
    ensures o.State() == if old(o.eventPending) then Handle(old(o.State())) else old(o.State())
    ensures fresh(o.Footprint() - old(o.Footprint())) && o.msgIn.connected == old(o.msgIn.connected)
    ensures Echoed(old(o.dispatched), o.dispatched, old(o.msgIn.history), o.msgIn.history, o.msgIn.connected)
  {
    if o.eventPending {
      ghost var done := o.OutHandler();
      EchoedOne(old(o.dispatched), done, old(o.msgIn.history), o.msgIn.connected);
    } else {
      NothingEchoed(o.dispatched, o.msgIn.history, o.msgIn.connected);
    }
  }

  lemma NothingEchoed(before: seq<Outcome>, was: seq<seq<byte>>, connected: bool)
    ensures Echoed(before, before, was, was, connected)
  {}

  lemma EchoedOne(before: seq<Outcome>, done: Option<Outcome>, was: seq<seq<byte>>, connected: bool)
    ensures Echoed(before, before + if done.Some? then [done.value] else [], was,
                   if done.Some? && done.value.Echo? && connected then was + [Frame(done.value.msg)] else was, connected)
  {
    EchoOfOne(done);
    var more := if done.Some? then [done.value] else [];
    assert (before + more)[|before|..] == more && was + [] == was;
  }

  lemma EchoOfOne(done: Option<Outcome>)
    ensures EchoFrames([]) == []
    ensures done.Some? ==> EchoFrames([done.value]) == if done.value.Echo? then [Frame(done.value.msg)] else []
  {
    if done.Some? {
      assert [done.value][1..] == [];
    }
  }

  lemma EchoAppend(a: seq<Outcome>, b: seq<Outcome>)
    ensures EchoFrames(a + b) == EchoFrames(a) + EchoFrames(b)
  {
    FlatMapAppend((o: Outcome) => if o.Echo? then [Frame(o.msg)] else [], a, b);
  }

  lemma EchoedChain(
      a: seq<Outcome>, b: seq<Outcome>, c: seq<Outcome>,
      x: seq<seq<byte>>, y: seq<seq<byte>>, z: seq<seq<byte>>, connected: bool)
    requires Echoed(a, b, x, y, connected) && Echoed(b, c, y, z, connected)
    ensures Echoed(a, c, x, z, connected)
  {
    assert c[|a|..] == b[|a|..] + c[|b|..];
    EchoAppend(b[|a|..], c[|b|..]);
  }

  /** The endpoint and the event loop carry a transfer through on the device as `UsbReceive` says. */
  method RunTransfer(o: MsgOut, rest: seq<byte>, ghost final: Reassembly)
    requires o.Valid() && o.msgIn.Valid() && Transfers(o.State(), rest, final)
    modifies o.Footprint()
    ensures o.Valid() && o.msgIn.Valid() && o.State() == final && o.msgIn.connected == old(o.msgIn.connected)
    ensures Echoed(old(o.dispatched), o.dispatched, old(o.msgIn.history), o.msgIn.history, o.msgIn.connected)
    decreases |rest|
  {
    var n := Min(|rest|, o.posted);
    var full := |rest| >= o.posted;
    RunBuffer(o, rest[..n]);
    assert o.State() == AfterBuffer(old(o.State()), rest[..n]);
    if full {
      ghost var middle, history := o.dispatched, o.msgIn.history;
      RunTransfer(o, rest[n..], final);
      EchoedChain(old(o.dispatched), middle, o.dispatched, old(o.msgIn.history), history, o.msgIn.history,
                  o.msgIn.connected);
    }
  }

  /**
   A host's message is dispatched once, whole, to where its tag says; an echo, and nothing else, is sent back while
   connected. The device is then ready for the next message.
   */
  method ReceiveMessage(o: MsgOut, msg: Msg)
    requires o.Valid() && o.msgIn.Valid() && Ready(o.State())
    modifies o.Footprint()
    ensures o.Valid() && o.msgIn.Valid() && Ready(o.State()) && o.msgIn.connected == old(o.msgIn.connected)
    ensures |o.dispatched| == |old(o.dispatched)| + 1 && old(o.dispatched) <= o.dispatched
    ensures var outcome := o.dispatched[|o.dispatched| - 1];
            && (msg.tag < 0x100_0000 ==> outcome == Command(msg.tag % 0x100, msg.data))
            && (0xAA00_0000 <= msg.tag < 0xAB00_0000 ==> outcome == Echo(msg))
            && (0x100_0000 <= msg.tag < 0xAA00_0000 || 0xAB00_0000 <= msg.tag ==> outcome == InvalidTag(msg.tag))
    ensures o.msgIn.history == old(o.msgIn.history)
                               + if 0xAA00_0000 <= msg.tag < 0xAB00_0000 && o.msgIn.connected then [Frame(msg)] else []
    ensures o.posts == old(o.posts) + if |msg.data| < 504 then 1 else 2 + (|msg.data| - 504) / 16384
  {
    ghost var final := MessageReceived(o.State(), msg);
    RunTransfer(o, Frame(msg), final);
    EchoedMessage(final, msg, old(o.dispatched), old(o.msgIn.history), o.msgIn.history, o.msgIn.connected);
  }

  lemma EchoedMessage(
      s: Reassembly, msg: Msg, before: seq<Outcome>, was: seq<seq<byte>>, history: seq<seq<byte>>, connected: bool)
    requires Delivered(s, msg, before) && Echoed(before, s.dispatched, was, history, connected)
    ensures history == was + if 0xAA00_0000 <= msg.tag < 0xAB00_0000 && connected then [Frame(msg)] else []
  {
    var outcome := s.dispatched[|before|];
    EchoOfOne(Some(outcome));
    assert s.dispatched[|before|..] == [outcome];
  }
}
