/** Messages and their frames on the USB message endpoints of src/usb/msg_interface.c. */
module UsbFrame {
  import opened Bytes

  const MSG_EPSIZE := 512
  const MSG_MAX_BLOCKSIZE := 16384
  const MSG_HEADER_SIZE := 8

  /** A message; with its header it has a 32-bit length. */
  type Msg = m: RawMsg | m.tag < 0x1_0000_0000 && |m.data| + MSG_HEADER_SIZE < 0x1_0000_0000
    witness RawMsg(0, [])

  datatype RawMsg = RawMsg(tag: nat, data: seq<byte>)

  /** length | tag | data, as it lies in memory behind the link of a list item. */
  function Frame(m: Msg): (f: seq<byte>)
    ensures |f| == |m.data| + MSG_HEADER_SIZE
  {
    Le32(|m.data|) + Le32(m.tag) + m.data
  }

  /** The frame byte by byte: both words with the least significant byte first, then the data. */
  lemma FrameBytes(m: Msg)
    ensures var f := Frame(m);
            && |f| == 8 + |m.data|
            && f[0] == |m.data| % 256 && f[1] == |m.data| / 0x100 % 256
            && f[2] == |m.data| / 0x1_0000 % 256 && f[3] == |m.data| / 0x100_0000
            && f[4] == m.tag % 256 && f[5] == m.tag / 0x100 % 256
            && f[6] == m.tag / 0x1_0000 % 256 && f[7] == m.tag / 0x100_0000
            && f[8..] == m.data
  {}

  lemma FrameParts(m: Msg)
    ensures FromLe32(Frame(m)[..4]) == |m.data| && FromLe32(Frame(m)[4..8]) == m.tag && Frame(m)[8..] == m.data
  {
    assert Frame(m)[..4] == Le32(|m.data|) && Frame(m)[4..8] == Le32(m.tag);
    Le32RoundTrip(|m.data|);
    Le32RoundTrip(m.tag);
  }

  /** What was posted to the endpoint in one go, and whether it ends the transfer. */
  datatype Block = Block(bytes: seq<byte>, last: bool)

  /** The blocks in which a frame is sent from byte pos on. */
  function Blocks(frame: seq<byte>, pos: nat): seq<Block>
    requires pos <= |frame|
    decreases |frame| - pos
  {
    if |frame| - pos > MSG_MAX_BLOCKSIZE then
      [Block(frame[pos..pos + MSG_MAX_BLOCKSIZE], false)] + Blocks(frame, pos + MSG_MAX_BLOCKSIZE)
    else if pos < |frame| then [Block(frame[pos..], true)]
    else []
  }

  /** The blocks of a sequence of frames. */
  function AllBlocks(frames: seq<seq<byte>>): seq<Block> {
    if frames == [] then [] else Blocks(frames[0], 0) + AllBlocks(frames[1..])
  }

  lemma {:induction false} AllBlocksAppend(s: seq<seq<byte>>, frame: seq<byte>)
    ensures AllBlocks(s + [frame]) == AllBlocks(s) + Blocks(frame, 0)
  {
    if s == [] {
      assert [frame][1..] == [];
      assert AllBlocks([frame]) == Blocks(frame, 0) + AllBlocks([]);
    } else {
      assert (s + [frame])[1..] == s[1..] + [frame];
      AllBlocksAppend(s[1..], frame);
    }
  }

  function Joined(blocks: seq<Block>): seq<byte> {
    if blocks == [] then [] else blocks[0].bytes + Joined(blocks[1..])
  }

  /**
   Cutting into blocks: the fewest blocks that hold the bytes, none too long, exactly the last one ending
   the transfer, and together the bytes themselves.
   */
  lemma {:induction false} BlocksShape(frame: seq<byte>, pos: nat)
    requires pos <= |frame|
    ensures var bs := Blocks(frame, pos);
            && |bs| == (|frame| - pos + 16383) / 16384
            && (forall i :: 0 <= i < |bs| ==> bs[i].last == (i == |bs| - 1) && 0 < |bs[i].bytes| <= 16384)
            && Joined(bs) == frame[pos..]
    decreases |frame| - pos
  {
    if |frame| - pos > MSG_MAX_BLOCKSIZE {
      BlocksShape(frame, pos + MSG_MAX_BLOCKSIZE);
      assert frame[pos..] == frame[pos..pos + MSG_MAX_BLOCKSIZE] + frame[pos + MSG_MAX_BLOCKSIZE..];
    } else if pos < |frame| {
      assert Joined([Block(frame[pos..], true)]) == frame[pos..] + Joined([]);
    }
  }
}
