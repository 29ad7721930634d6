/**
 The outgoing half of src/usb/msg_interface.c: a linked list of messages, each sent in blocks through the
 bulk IN endpoint. Completions of blocks and the message event interleave freely with new messages.
 */
module UsbSend {
  import opened Bytes
  import opened UsbFrame

  /** A list item: its link, and behind it in memory length | tag | data. */
  class ListItem {
    var next: ListItem?
    const bytes: seq<byte>

    constructor (bytes: seq<byte>)
      ensures this.bytes == bytes && next == null
    {
      this.bytes := bytes;
      next := null;
    }
  }

  ghost function ItemAt(items: seq<ListItem>, i: nat): ListItem? {
    if i < |items| then items[i] else null
  }

  ghost function FramesOf(items: seq<ListItem>): (fs: seq<seq<byte>>)
    ensures |fs| == |items|
  {
    seq(|items|, i requires 0 <= i < |items| => items[i].bytes)
  }

  /** What is still to be posted of the listed frames, the first being at byte pos. */
  function Unsent(frames: seq<seq<byte>>, pos: nat): seq<Block>
    requires frames != [] ==> pos <= |frames[0]|
  {
    if frames == [] then [] else Blocks(frames[0], pos) + AllBlocks(frames[1..])
  }

  lemma NextBlock(frame: seq<byte>, pos: nat, n: nat)
    requires pos + n <= |frame| && n == Min(|frame| - pos, MSG_MAX_BLOCKSIZE) && n > 0
    ensures Blocks(frame, pos) == [Block(frame[pos..pos + n], pos + n == |frame|)] + Blocks(frame, pos + n)
  {
    if n < MSG_MAX_BLOCKSIZE || pos + n == |frame| {
      assert frame[pos..pos + n] == frame[pos..];
      assert Blocks(frame, pos + n) == [];
    }
  }

  /** Posting the next block moves it from what is unsent to the wire. */
  lemma PostOne(wire: seq<Block>, frames: seq<seq<byte>>, pos: nat, n: nat)
    requires frames != [] && pos + n <= |frames[0]|
    requires n == Min(|frames[0]| - pos, MSG_MAX_BLOCKSIZE) && n > 0
    ensures var block := Block(frames[0][pos..pos + n], pos + n == |frames[0]|);
            wire + Unsent(frames, pos) == wire + [block] + Unsent(frames, pos + n)
            && |Unsent(frames, pos)| == 1 + |Unsent(frames, pos + n)|
  {
    NextBlock(frames[0], pos, n);
    var block := Block(frames[0][pos..pos + n], pos + n == |frames[0]|);
    var later, others := Blocks(frames[0], pos + n), AllBlocks(frames[1..]);
    ConcatAssociates([block], later, others);
    ConcatAssociates(wire, [block], later + others);
  }

  lemma FrameDone(frames: seq<seq<byte>>)
    requires frames != []
    ensures Unsent(frames, |frames[0]|) == Unsent(frames[1..], 0)
  {
    assert Blocks(frames[0], |frames[0]|) == [];
  }

  lemma FrameAdded(frames: seq<seq<byte>>, frame: seq<byte>, pos: nat)
    requires frames != [] ==> pos <= |frames[0]|
    ensures Unsent(frames + [frame], if frames == [] then 0 else pos) == Unsent(frames, pos) + Blocks(frame, 0)
  {
    if frames != [] {
      assert (frames + [frame])[1..] == frames[1..] + [frame];
      AllBlocksAppend(frames[1..], frame);
    } else {
      assert [frame][1..] == [];
      assert [] + [frame] == [frame];
    }
  }

  lemma FramesAppend(items: seq<ListItem>, item: ListItem)
    ensures FramesOf(items + [item]) == FramesOf(items) + [item.bytes]
  {}

  lemma Extend(wire: seq<Block>, frames: seq<seq<byte>>, pos: nat, history: seq<seq<byte>>, frame: seq<byte>)
    requires frames != [] ==> pos <= |frames[0]|
    requires wire + Unsent(frames, pos) == AllBlocks(history)
    ensures wire + Unsent(frames + [frame], if frames == [] then 0 else pos) == AllBlocks(history + [frame])
  {
    FrameAdded(frames, frame, pos);
    AllBlocksAppend(history, frame);
    assert wire + (Unsent(frames, pos) + Blocks(frame, 0)) == wire + Unsent(frames, pos) + Blocks(frame, 0);
  }

  class MsgIn {
    var connected: bool
    var inHead: ListItem?
    var inTail: ListItem?
    var inPos: nat
    /** A block has been posted to the endpoint and has not completed. */
    var posted: bool
    /** msg_in_event has been triggered and its handler has not run. */
    var eventPending: bool
    /** Every block posted so far. */
    ghost var wire: seq<Block>
    ghost var items: seq<ListItem>
    /** The frame of every message accepted so far. */
    ghost var history: seq<seq<byte>>

    /** The list items. */
    ghost function Objects(): set<object>
      reads this`items
    {
      set x | x in items :: x as object
    }

    /** in_head, in_tail and the links describe the list of items. */
    ghost predicate Linked()
      reads this`inHead, this`inTail, this`items, items
    {
      && (inHead == if items == [] then null else items[0])
      && (items != [] ==> inTail == items[|items| - 1])
      && (forall i, j :: 0 <= i < j < |items| ==> items[i] != items[j])
      && (forall i :: 0 <= i < |items| ==> items[i].next == ItemAt(items, i + 1))
    }

    /** What is still to be posted. */
    ghost function Remaining(): seq<Block>
      reads this`items, this`inPos
      requires items != [] ==> inPos <= |items[0].bytes|
    {
      Unsent(FramesOf(items), inPos)
    }

    /** The list is consistent, and the blocks posted and still to be posted are those of all messages. */
    ghost predicate Consistent()
      reads this`inHead, this`inTail, this`items, this`inPos, this`wire, this`history, items
    {
      && Linked()
      && (items != [] ==> inPos <= |items[0].bytes|)
      && wire + Remaining() == AllBlocks(history)
    }

    /** While a message is listed, exactly one of a posted block and a pending event drives it on. */
    ghost predicate Valid()
      reads this, items
    {
      && Consistent()
      && (items == [] ==> !posted && !eventPending)
      && (items != [] ==> posted != eventPending)
      && (eventPending ==> inPos == |items[0].bytes|)
    }

    constructor ()
      ensures Valid() && connected && history == [] && items == [] && wire == []
    {
      connected, inHead, inTail, inPos, posted, eventPending := true, null, null, 0, false, false;
      wire, items, history := [], [], [];
    }

    /** usb_ep_start_in: the endpoint takes one block at a time. */
    method StartIn(bytes: seq<byte>, last: bool)
      requires !posted
      modifies this`posted, this`wire
      ensures posted && wire == old(wire) + [Block(bytes, last)]
    {
      posted := true;
      wire := wire + [Block(bytes, last)];
    }

    /** Posts the next n bytes of the first message. */
    method PostBlock(n: nat)
      requires Consistent() && items != [] && !posted
      requires n > 0 && n == Min(|items[0].bytes| - inPos, MSG_MAX_BLOCKSIZE)
      modifies this`posted, this`wire, this`inPos
      ensures Consistent() && posted && |Remaining()| + 1 == |old(Remaining())|
    {
      PostOne(wire, FramesOf(items), inPos, n);
      var frame := inHead.bytes;
      StartIn(frame[inPos..inPos + n], inPos + n == |frame|);
      inPos := inPos + n;
    }

    /** msg_in_start_ep */
    method StartEp()
      requires Consistent() && items != [] && !posted && !eventPending
      modifies this`posted, this`wire, this`inPos, this`eventPending
      ensures Valid() && |Remaining()| + (if posted then 1 else 0) == |old(Remaining())|
    {
      var remaining := |inHead.bytes| - inPos;
      if remaining > MSG_MAX_BLOCKSIZE {
        PostBlock(MSG_MAX_BLOCKSIZE);
      } else if remaining > 0 {
        PostBlock(remaining);
      } else {
        eventPending := true;
      }
    }

    /** Starts on the first message of the list, if there is one. */
    method StartFirst()
      requires Consistent() && !posted && !eventPending
      modifies this`posted, this`wire, this`inPos, this`eventPending
      ensures Valid()
    {
      if inHead != null {
        StartEp();
      }
    }

    /** Hooks an item onto the end of the list. */
    method LinkLast(item: ListItem)
      requires Linked() && item !in items && item.next == null
      modifies this`inHead, this`inTail, this`items, Objects()
      ensures Linked() && items == old(items) + [item]
    {
      if inHead == null {
        inHead, inTail := item, item;
      } else {
        assert inTail in items && inTail in Objects();
        inTail.next := item;
        inTail := item;
      }
      items := items + [item];
    }

    /** A message joins the list and the history. */
    method Accept(item: ListItem)
      requires Consistent() && item !in items && item.next == null
      modifies this`inHead, this`inTail, this`items, this`inPos, this`history, Objects()
      ensures Consistent() && items == old(items) + [item] && history == old(history) + [item.bytes]
      ensures inPos == if old(items) == [] then 0 else old(inPos)
    {
      Extend(wire, FramesOf(items), inPos, history, item.bytes);
      FramesAppend(items, item);
      if inHead == null {
        inPos := 0;
      }
      LinkLast(item);
      history := history + [item.bytes];
    }

    /** Starts on a message that has just joined the list, if it is the only one. */
    method StartIfOnly(only: bool)
      requires Consistent() && items != [] && (only ==> !posted && !eventPending)
      requires !only ==> posted != eventPending && (eventPending ==> inPos == |items[0].bytes|)
      modifies this`posted, this`wire, this`inPos, this`eventPending
      ensures Valid()
    {
      if only {
        StartEp();
      }
    }

    /** hw_send_usb_msg */
    method Send(msg: Msg) returns (rc: int)
      requires Valid()
      modifies this, Objects()
      ensures Valid() && connected == old(connected) && rc == (if connected then 0 else -1)
      ensures history == if connected then old(history) + [Frame(msg)] else old(history)
      ensures fresh(Objects() - old(Objects()))
    {
      if !connected {
        return -1;
      }
      var item := new ListItem(Frame(msg));
      var only := inHead == null;
      Accept(item);
      StartIfOnly(only);
      return 0;
    }

    /** A posted block completes: the IN half of handle_msg_completion. */
    method HandleCompletion()
      requires Valid() && posted
      modifies this`posted, this`wire, this`inPos, this`eventPending
      ensures Valid() && (posted ==> |Remaining()| < |old(Remaining())|) && (!posted ==> Remaining() == old(Remaining()))
    {
      posted := false;
      StartEp();
    }

    /** in_head moves on to the next item. */
    method UnlinkFirst()
      requires Linked() && items != []
      modifies this`inHead, this`items
      ensures Linked() && items == old(items)[1..]
    {
      ghost var rest := items[1..];
      forall i | 0 <= i < |rest|
        ensures rest[i].next == ItemAt(rest, i + 1)
      {
        assert rest[i] == items[i + 1] && items[i + 1].next == ItemAt(items, i + 2);
      }
      assert items[0].next == ItemAt(items, 1) == ItemAt(rest, 0);
      inHead := inHead.next;
      items := rest;
    }

    /** Takes the message just sent off the list. */
    method Unlink()
      requires Consistent() && items != [] && inPos == |items[0].bytes|
      modifies this`inPos, this`inHead, this`items
      ensures Consistent() && items == old(items)[1..] && inPos == 0
    {
      FrameDone(FramesOf(items));
      assert FramesOf(items)[1..] == FramesOf(items[1..]);
      inPos := 0;
      UnlinkFirst();
    }

    /** msg_in_handler, run when its event is dispatched */
    method InHandler()
      requires Valid() && eventPending
      modifies this`posted, this`wire, this`inPos, this`eventPending, this`inHead, this`items
      ensures Valid() && items == old(items)[1..]
    {
      eventPending := false;
      Unlink();
      StartFirst();
    }

    /** With nothing listed, the wire has carried every accepted message whole and in order. */
    lemma NothingLost()
      requires Valid() && inHead == null
      ensures wire == AllBlocks(history)
    {
      assert wire + Remaining() == wire;
    }
  }

  /** The endpoint and the event loop by themselves send everything that was accepted. */
  method Flush(m: MsgIn)
    requires m.Valid()
    modifies m
    ensures m.Valid() && m.inHead == null && m.history == old(m.history) && m.wire == AllBlocks(m.history)
  {
    while m.inHead != null
      invariant m.Valid() && m.history == old(m.history)
      decreases |m.items|, |m.Remaining()|, m.posted
    {
      if m.posted {
        m.HandleCompletion();
      } else {
        m.InHandler();
      }
    }
    m.NothingLost();
  }
}
