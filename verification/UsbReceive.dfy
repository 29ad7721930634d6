/**
 The incoming half of src/usb/msg_interface.c as a step function, the bulk OUT endpoint of section 5.8.3 of
 the USB 2.0 specification, and the proof that a host's message is put together again.
 */
module UsbReceive {
  import opened Bytes
  import opened UsbFrame

  /** What a complete message leads to. */
  datatype Outcome =
    | Command(code: byte, data: seq<byte>)
    | Echo(msg: Msg)
    | InvalidTag(tag: nat)
    | InvalidLength

  function Dispatch(m: Msg): Outcome {
    if m.tag / 0x100_0000 == 0 then Command(m.tag % 256, m.data)
    else if m.tag / 0x100_0000 == 0xAA then Echo(m)
    else InvalidTag(m.tag)
  }

  /** Where a message goes: commands below 2^24, echoes from 0xAA000000 to 0xAAFFFFFF, no other tag is valid. */
  predicate GoesTo(m: Msg, outcome: Outcome) {
    && (m.tag < 0x100_0000 ==> outcome == Command(m.tag % 0x100, m.data))
    && (0xAA00_0000 <= m.tag < 0xAB00_0000 ==> outcome == Echo(m))
    && (0x100_0000 <= m.tag < 0xAA00_0000 || 0xAB00_0000 <= m.tag ==> outcome == InvalidTag(m.tag))
  }

  lemma DispatchGoes(m: Msg)
    ensures GoesTo(m, Dispatch(m))
  {}

  /**
   The receiver's variables. `posted` is the size of the buffer the endpoint holds, if any; `posts` counts the
   buffers posted so far.
   */
  datatype Reassembly = Reassembly(
    initial: seq<byte>, buf: Option<seq<byte>>, length: nat, pos: nat,
    posted: Option<nat>, eventPending: bool, posts: nat, dispatched: seq<Outcome>)

  ghost predicate WellShaped(s: Reassembly) {
    |s.initial| == MSG_EPSIZE && (s.buf.Some? ==> |s.buf.value| == s.length)
  }

  /** round_to_endpoint_size: the least multiple of epsize that exceeds size. */
  function RoundToEndpointSize(size: nat, epsize: nat): (r: nat)
    requires epsize > 0
    ensures r % epsize == 0 && size < r <= size + epsize
  {
    var n := (size + epsize) / epsize;
    assert n * epsize == size + epsize - (size + epsize) % epsize;
    DivModUnique(n * epsize, epsize, n, 0);
    n * epsize
  }

  function Post(s: Reassembly, size: nat): Reassembly {
    s.(posted := Some(size), posts := s.posts + 1)
  }

  function RearmEp(s: Reassembly): Reassembly {
    Post(s, MSG_EPSIZE)
  }

  /** The size that msg_out_start_ep asks for. */
  function NextSize(remaining: nat): nat {
    if remaining < MSG_MAX_BLOCKSIZE then RoundToEndpointSize(remaining, MSG_EPSIZE) else MSG_MAX_BLOCKSIZE
  }

  function StartEp(s: Reassembly): Reassembly
    requires s.pos <= s.length
  {
    Post(s, NextSize(s.length - s.pos))
  }

  /** Bytes written over the beginning of `into` at an offset. */
  function Overwrite(into: seq<byte>, at: nat, bytes: seq<byte>): (r: seq<byte>)
    requires at + |bytes| <= |into|
    ensures |r| == |into|
  {
    into[..at] + bytes + into[at + |bytes|..]
  }

  /** The bytes fit where the endpoint has been told to put them. */
  predicate Fits(s: Reassembly, bytes: seq<byte>) {
    s.posted.Some? && |bytes| <= s.posted.value
    && if s.buf.None? then |bytes| <= |s.initial| else s.pos + |bytes| <= |s.buf.value|
  }

  /** The endpoint completes the posted buffer with these bytes, and handle_msg_completion runs. */
  function Complete(s: Reassembly, bytes: seq<byte>): (t: Reassembly)
    requires WellShaped(s) && Fits(s, bytes)
    ensures WellShaped(t)
  {
    var idle := s.(posted := None);
    if s.buf.None? then
      var t := idle.(initial := Overwrite(s.initial, 0, bytes));
      if |bytes| >= MSG_HEADER_SIZE then t.(pos := |bytes| - MSG_HEADER_SIZE, eventPending := true)
      else RearmEp(t)
    else
      var t := idle.(buf := Some(Overwrite(s.buf.value, s.pos, bytes)), pos := s.pos + |bytes|);
      if |bytes| < MSG_MAX_BLOCKSIZE || t.pos > t.length then t.(eventPending := true) else StartEp(t)
  }

  function Zeros(n: nat): (r: seq<byte>)
    ensures |r| == n
  {
    seq(n, _ => 0)
  }

  /** What the handler finds allocated, or allocates from the first packet. */
  function Allocated(s: Reassembly): Reassembly
    requires WellShaped(s)
    requires s.buf.None? ==> s.pos <= FromLe32(s.initial[..4]) && s.pos + MSG_HEADER_SIZE <= MSG_EPSIZE
  {
    if s.buf.Some? then s else
      var length := FromLe32(s.initial[..4]);
      s.(length := length,
         buf := Some(Overwrite(Zeros(length), 0, s.initial[MSG_HEADER_SIZE..MSG_HEADER_SIZE + s.pos])))
  }

  predicate HandlerDefined(s: Reassembly)
    requires WellShaped(s)
  {
    if s.buf.None? then
      s.pos <= FromLe32(s.initial[..4]) < 0x1_0000_0000 - MSG_HEADER_SIZE && s.pos + MSG_HEADER_SIZE <= MSG_EPSIZE
    else
      s.length < 0x1_0000_0000 - MSG_HEADER_SIZE
  }

  /** Ends the message: dispatches it if its length is right, and waits for the next one. */
  function Finish(s: Reassembly): Reassembly
    requires WellShaped(s) && s.buf.Some? && s.length + MSG_HEADER_SIZE < 0x1_0000_0000
  {
    var outcome := if s.pos == s.length then Dispatch(RawMsg(FromLe32(s.initial[4..8]), s.buf.value))
                   else InvalidLength;
    RearmEp(s.(buf := None, pos := 0, length := 0, dispatched := s.dispatched + [outcome]))
  }

  /** msg_out_handler, run when its event is dispatched. */
  function Handle(s: Reassembly): Reassembly
    requires WellShaped(s) && HandlerDefined(s)
  {
    var t := Allocated(s.(eventPending := false));
    if s.buf.None? && t.length + MSG_HEADER_SIZE >= MSG_EPSIZE then StartEp(t) else Finish(t)
  }

  // ---------------------------------------------------------------- a conforming host

  /** Waiting for a message. */
  ghost predicate Ready(s: Reassembly) {
    WellShaped(s) && s.buf == None && s.pos == s.length == 0 && s.posted == Some(MSG_EPSIZE) && !s.eventPending
  }

  /** The posted buffer takes what it holds of the rest of a transfer, or all of it and the short packet behind. */
  function Taken(s: Reassembly, rest: seq<byte>): nat
    requires s.posted.Some?
  {
    Min(|rest|, s.posted.value)
  }

  ghost predicate EndpointReady(s: Reassembly) {
    WellShaped(s) && s.posted.Some? && s.posted.value > 0 && s.posted.value % MSG_EPSIZE == 0 && !s.eventPending
  }

  /**
   A bulk transfer with `rest` still to come. The endpoint completes a buffer when it is full, or when the
   short packet that ends the transfer arrives; then the pending event, if any, is handled.
   */
  ghost predicate Transfers(s: Reassembly, rest: seq<byte>, final: Reassembly)
    decreases |rest|
  {
    if !EndpointReady(s) || !Fits(s, rest[..Taken(s, rest)]) then
      false
    else
      var n := Taken(s, rest);
      var t := Complete(s, rest[..n]);
      if t.eventPending && !HandlerDefined(t) then
        false
      else
        var u := if t.eventPending then Handle(t) else t;
        if |rest| < s.posted.value then u == final else Transfers(u, rest[n..], final)
  }

  /** The buffers that a message takes up: one for a short message, else the first packet and the blocks after. */
  function BuffersFor(length: nat): nat {
    if length + MSG_HEADER_SIZE < MSG_EPSIZE then 1
    else 2 + (length + MSG_HEADER_SIZE - MSG_EPSIZE) / MSG_MAX_BLOCKSIZE
  }

  /** The state in which message m has been put together up to byte pos. */
  ghost predicate Assembling(s: Reassembly, m: Msg, pos: nat) {
    WellShaped(s) && pos <= |m.data| && s.buf.Some? && s.length == |m.data| && s.pos == pos
    && s.buf.value[..pos] == m.data[..pos] && FromLe32(s.initial[4..8]) == m.tag
    && s.posted == Some(NextSize(|m.data| - pos)) && !s.eventPending
  }

  /** What remains when message m has been dispatched. */
  ghost predicate Done(s: Reassembly, m: Msg, posts: nat, before: seq<Outcome>) {
    Ready(s) && s.posts == posts && s.dispatched == before + [Dispatch(m)]
  }

  lemma NextSizeFits(remaining: nat)
    ensures var n := NextSize(remaining);
            n > 0 && n % MSG_EPSIZE == 0 && n <= MSG_MAX_BLOCKSIZE
            && (n <= remaining <==> MSG_MAX_BLOCKSIZE <= remaining)
            && (MSG_MAX_BLOCKSIZE <= remaining ==> n == MSG_MAX_BLOCKSIZE)
  {
    if remaining < MSG_MAX_BLOCKSIZE {
      var n := RoundToEndpointSize(remaining, MSG_EPSIZE);
      assert n / MSG_EPSIZE * MSG_EPSIZE == n;
    }
  }

  /** One full block more. */
  lemma TakeBlock(s: Reassembly, m: Msg, pos: nat)
    requires Assembling(s, m, pos) && |m.data| - pos >= MSG_MAX_BLOCKSIZE
    ensures var bytes := m.data[pos..pos + MSG_MAX_BLOCKSIZE];
            Fits(s, bytes) && var t := Complete(s, bytes);
            Assembling(t, m, pos + MSG_MAX_BLOCKSIZE) && t.posts == s.posts + 1 && t.dispatched == s.dispatched
  {
    NextSizeFits(|m.data| - pos);
    var bytes := m.data[pos..pos + MSG_MAX_BLOCKSIZE];
    OverwriteExtends(s.buf.value, m.data, pos, bytes);
  }

  lemma OverwriteExtends(into: seq<byte>, data: seq<byte>, pos: nat, bytes: seq<byte>)
    requires |into| == |data| && pos + |bytes| <= |data| && bytes == data[pos..pos + |bytes|]
    requires into[..pos] == data[..pos]
    ensures Overwrite(into, pos, bytes)[..pos + |bytes|] == data[..pos + |bytes|]
  {
    assert data[..pos + |bytes|] == data[..pos] + bytes;
  }

  /** The last bytes and the short packet behind them. */
  lemma TakeLast(s: Reassembly, m: Msg, pos: nat)
    requires Assembling(s, m, pos) && |m.data| - pos < MSG_MAX_BLOCKSIZE
    ensures var bytes := m.data[pos..];
            Fits(s, bytes) && |bytes| < s.posted.value && var t := Complete(s, bytes);
            t.eventPending && HandlerDefined(t) && t.length == |m.data|
            && Done(Handle(t), m, s.posts + 1, s.dispatched)
  {
    NextSizeFits(|m.data| - pos);
    var bytes := m.data[pos..];
    OverwriteExtends(s.buf.value, m.data, pos, bytes);
    var t := Complete(s, bytes);
    assert t.buf.value == t.buf.value[..|m.data|] == m.data[..|m.data|] == m.data;
  }

  lemma {:induction false} AssembleRest(s: Reassembly, m: Msg, pos: nat) returns (final: Reassembly)
    requires Assembling(s, m, pos)
    ensures Transfers(s, m.data[pos..], final)
    ensures Done(final, m, s.posts + 1 + (|m.data| - pos) / MSG_MAX_BLOCKSIZE, s.dispatched)
    decreases |m.data| - pos
  {
    var rest := m.data[pos..];
    NextSizeFits(|rest|);
    if |rest| < MSG_MAX_BLOCKSIZE {
      TakeLast(s, m, pos);
      assert rest[..|rest|] == rest;
      final := Handle(Complete(s, rest));
    } else {
      TakeBlock(s, m, pos);
      var bytes := m.data[pos..pos + MSG_MAX_BLOCKSIZE];
      assert rest[..MSG_MAX_BLOCKSIZE] == bytes && rest[MSG_MAX_BLOCKSIZE..] == m.data[pos + MSG_MAX_BLOCKSIZE..];
      final := AssembleRest(Complete(s, bytes), m, pos + MSG_MAX_BLOCKSIZE);
    }
  }

  /** The parts of a packet that has been written over the beginning of the buffer for it. */
  lemma PacketParts(initial: seq<byte>, frame: seq<byte>, n: nat)
    requires 8 <= n <= |frame| && n <= |initial|
    ensures var into := Overwrite(initial, 0, frame[..n]);
            into[..4] == frame[..4] && into[4..8] == frame[4..8] && into[8..n] == frame[8..][..n - 8]
  {
    var into := Overwrite(initial, 0, frame[..n]);
    assert into == frame[..n] + initial[n..];
  }

  /** The first packet of a message, short or full. */
  lemma FirstPacket(s: Reassembly, m: Msg)
    requires Ready(s)
    ensures var n := Min(|Frame(m)|, MSG_EPSIZE);
            Fits(s, Frame(m)[..n]) && var t := Complete(s, Frame(m)[..n]);
            t.eventPending && HandlerDefined(t) && t.length == 0
            && if |Frame(m)| < MSG_EPSIZE then Done(Handle(t), m, s.posts + 1, s.dispatched)
               else var u := Handle(t);
                    Assembling(u, m, MSG_EPSIZE - MSG_HEADER_SIZE) && u.posts == s.posts + 1
                    && u.dispatched == s.dispatched
  {
    var frame := Frame(m);
    var n := Min(|frame|, MSG_EPSIZE);
    FrameParts(m);
    var t := Complete(s, frame[..n]);
    PacketParts(s.initial, frame, n);
    var head := t.initial[MSG_HEADER_SIZE..n];
    assert head == m.data[..n - 8];
    var a := Allocated(t.(eventPending := false));
    OverwriteExtends(Zeros(|m.data|), m.data, 0, head);
    if |frame| < MSG_EPSIZE {
      assert a.buf.value == a.buf.value[..|m.data|] == m.data[..|m.data|] == m.data;
    }
  }

  /** The buffers of a message in plain numbers. */
  lemma BuffersAre(length: nat)
    ensures BuffersFor(length) == if length + 8 < 512 then 1 else 2 + (length - 504) / 16384
  {}

  /** One outcome has been added, that of message m, and the receiver is ready again. */
  ghost predicate Delivered(s: Reassembly, m: Msg, before: seq<Outcome>) {
    Ready(s) && |s.dispatched| == |before| + 1 && before <= s.dispatched && GoesTo(m, s.dispatched[|before|])
  }

  /**
   Reassembly. A conforming host's transfer of any message is dispatched exactly once, with its own tag,
   length and bytes, taking one buffer if it is shorter than 504 bytes and otherwise two and one for each full 16384
   bytes behind the first 504, each posted when none is outstanding; the receiver is then ready for the next message.
   */
  lemma MessageReceived(s: Reassembly, m: Msg) returns (final: Reassembly)
    requires Ready(s)
    ensures Transfers(s, Frame(m), final)
    ensures Delivered(final, m, s.dispatched)
    ensures final.posts == s.posts + if |m.data| < 504 then 1 else 2 + (|m.data| - 504) / 16384
  {
    final := MessageAssembled(s, m);
    BuffersAre(|m.data|);
    DispatchGoes(m);
  }

  lemma MessageAssembled(s: Reassembly, m: Msg) returns (final: Reassembly)
    requires Ready(s)
    ensures Transfers(s, Frame(m), final)
    ensures Done(final, m, s.posts + BuffersFor(|m.data|), s.dispatched)
  {
    var frame := Frame(m);
    FirstPacket(s, m);
    if |frame| < MSG_EPSIZE {
      assert frame[..|frame|] == frame;
      final := Handle(Complete(s, frame));
    } else {
      var first := frame[..MSG_EPSIZE];
      FrameParts(m);
      assert frame[MSG_EPSIZE..] == m.data[MSG_EPSIZE - MSG_HEADER_SIZE..];
      final := AssembleRest(Handle(Complete(s, first)), m, MSG_EPSIZE - MSG_HEADER_SIZE);
    }
  }

  // ---------------------------------------------------------------- other hosts

  /** A packet too short for a header is dropped, and the receiver waits for the next message. */
  lemma ShortPacketDropped(s: Reassembly, bytes: seq<byte>)
    requires Ready(s) && |bytes| < 8
    ensures Fits(s, bytes) && var t := Complete(s, bytes);
            Ready(t) && t.dispatched == s.dispatched && t.posts == s.posts + 1
  {}

  /** A short packet that announces more data than it has is reported as of invalid length. */
  lemma ShortMessageRejected(s: Reassembly, packet: seq<byte>)
    requires Ready(s) && 8 <= |packet| < 512 && |packet| - 8 < FromLe32(packet[..4]) < 504
    ensures Fits(s, packet) && var t := Complete(s, packet);
            t.eventPending && HandlerDefined(t) && var u := Handle(t);
            Ready(u) && u.dispatched == s.dispatched + [InvalidLength] && u.posts == s.posts + 1
  {
    assert Overwrite(s.initial, 0, packet)[..4] == packet[..4];
  }

  /** A short packet that announces a long message: the rest is waited for, in buffers that would take it. */
  lemma ShortPacketOfLong(s: Reassembly, packet: seq<byte>)
    requires Ready(s) && 8 <= |packet| < 512 && 504 <= FromLe32(packet[..4]) < 0x1_0000_0000 - 8
    ensures Fits(s, packet) && var t := Complete(s, packet);
            t.eventPending && HandlerDefined(t) && var u := Handle(t);
            var left := FromLe32(packet[..4]) - (|packet| - 8);
            && !u.eventPending && u.dispatched == s.dispatched && u.posts == s.posts + 1
            && u.posted == Some(if left < 16384 then RoundToEndpointSize(left, 512) else 16384)
            && u.length == FromLe32(packet[..4]) && u.pos == |packet| - 8
            && u.buf.Some? && u.buf.value[..u.pos] == packet[8..]
  {
    assert Overwrite(s.initial, 0, packet)[..4] == packet[..4];
    assert Overwrite(s.initial, 0, packet)[8..|packet|] == packet[8..];
  }

  /** A long message that ends early is reported as of invalid length. */
  lemma TruncatedRejected(s: Reassembly, m: Msg, pos: nat, bytes: seq<byte>)
    requires Assembling(s, m, pos) && |bytes| < 16384 && pos + |bytes| < |m.data|
    ensures Fits(s, bytes) && |bytes| < s.posted.value && var t := Complete(s, bytes);
            t.eventPending && HandlerDefined(t) && var u := Handle(t);
            Ready(u) && u.dispatched == s.dispatched + [InvalidLength] && u.posts == s.posts + 1
  {
    NextSizeFits(|m.data| - pos);
    if |m.data| - pos < MSG_MAX_BLOCKSIZE {
      assert s.posted.value > |m.data| - pos;
    }
  }

  /** The run of a transfer is determined by its bytes. */
  lemma {:induction false} TransferDeterministic(s: Reassembly, rest: seq<byte>, t: Reassembly, u: Reassembly)
    requires Transfers(s, rest, t) && Transfers(s, rest, u)
    ensures t == u
    decreases |rest|
  {
    var n := Taken(s, rest);
    var c := Complete(s, rest[..n]);
    var v := if c.eventPending then Handle(c) else c;
    if |rest| >= s.posted.value {
      TransferDeterministic(v, rest[n..], t, u);
    }
  }

  /** Sending and receiving are inverse: the blocks that carry a message are, put together, its transfer. */
  lemma BlocksReceived(s: Reassembly, m: Msg) returns (final: Reassembly)
    requires Ready(s)
    ensures Transfers(s, Joined(Blocks(Frame(m), 0)), final)
    ensures Delivered(final, m, s.dispatched)
  {
    BlocksShape(Frame(m), 0);
    assert Frame(m)[0..] == Frame(m);
    final := MessageReceived(s, m);
  }
}
