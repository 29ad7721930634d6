/**
 The DMA descriptor chains of src/hw/hw_spi_async.c: how a buffer is cut into linked list items, and which
 bytes the DMA controller moves when it walks the list.
 */
module SpiDma {
  import opened Bytes

  const SPI_MAX_DMA_SIZE := 0xFFF

  /** The fields of a control word: bits 11..0, then 24 to 27, and 31. */
  datatype Control = Control(
    transferSize: nat, sourceMaster: bool, destMaster: bool, sourceIncrement: bool, destIncrement: bool,
    terminalCount: bool)

  /** A linked list item; `next` is the index of the item linked to, 0 for the null link. */
  datatype Lli = Lli(source: nat, destination: nat, next: nat, control: Control)

  function NumLinkedLists(n: nat): nat {
    n / 4095 + if n % 4095 != 0 then 1 else 0
  }

  /** The number of items is the least that can hold n bytes, and a longer buffer never needs fewer. */
  lemma NumLinkedListsIsCeiling(n: nat, m: nat)
    ensures NumLinkedLists(n) == (n + 4094) / 4095
    ensures m <= n ==> NumLinkedLists(m) <= NumLinkedLists(n)
  {}

  /** A transmission reads from advancing addresses, a reception writes to advancing addresses. */
  function BaseControl(tx: bool): Control {
    if tx then Control(0, false, true, true, false, false) else Control(0, true, false, false, true, false)
  }

  /**
   A transmission reads advancing addresses through the first AHB master and writes to the register through the second;
   a reception reads the register through the second and writes advancing addresses through the first.
   */
  predicate InDirection(c: Control, tx: bool) {
    c.sourceMaster == !tx && c.destMaster == tx && c.sourceIncrement == tx && c.destIncrement == !tx
  }

  /** Item i of the chain for n bytes. */
  function Item(n: nat, source: nat, destination: nat, tx: bool, i: nat): Lli {
    var last := i + 1 == NumLinkedLists(n);
    Lli(if tx then source + 4095 * i else source, if tx then destination else destination + 4095 * i,
        if last then 0 else i + 1,
        BaseControl(tx).(transferSize := if last then n % 4095 else 4095, terminalCount := last))
  }

  function Chain(n: nat, source: nat, destination: nat, tx: bool): (c: seq<Lli>)
    ensures |c| == NumLinkedLists(n)
  {
    seq(NumLinkedLists(n), i requires 0 <= i => Item(n, source, destination, tx, i))
  }

  /** hw_spi_dma_packetize_step */
  method PacketizeStep(list: array<Lli>, n: nat, source: nat, destination: nat, tx: bool)
    requires NumLinkedLists(n) <= list.Length
    modifies list
    ensures list[..NumLinkedLists(n)] == Chain(n, source, destination, tx)
    ensures list[NumLinkedLists(n)..] == old(list[NumLinkedLists(n)..])
  {
    var count := NumLinkedLists(n);
    var remaining := n % 4095;
    var src, dst := source, destination;
    var i := 0;
    while i < count
      invariant 0 <= i <= count
      invariant i < count ==> src == (if tx then source + 4095 * i else source)
      invariant i < count ==> dst == (if tx then destination else destination + 4095 * i)
      invariant forall k :: 0 <= k < i ==> list[k] == Item(n, source, destination, tx, k)
      invariant forall k :: count <= k < list.Length ==> list[k] == old(list[k])
    {
      var control := BaseControl(tx);
      var next := 0;
      var itemSource, itemDestination := src, dst;
      if i == count - 1 {
        control := control.(terminalCount := true);
        if remaining != 0 {
          control := control.(transferSize := remaining);
        }
      } else {
        control := control.(transferSize := SPI_MAX_DMA_SIZE);
        next := i + 1;
        if tx {
          src := src + SPI_MAX_DMA_SIZE;
        } else {
          dst := dst + SPI_MAX_DMA_SIZE;
        }
      }
      list[i] := Lli(itemSource, itemDestination, next, control);
      i := i + 1;
    }
  }

  // ---------------------------------------------------------------- what the controller does with a chain

  /** A byte moved: where it was read and where it was written. */
  datatype Move = Move(source: nat, destination: nat)

  function Burst(item: Lli): seq<Move> {
    seq(item.control.transferSize, k requires 0 <= k =>
      Move(if item.control.sourceIncrement then item.source + k else item.source,
           if item.control.destIncrement then item.destination + k else item.destination))
  }

  /** Links lead onwards inside the list. */
  predicate Forward(list: seq<Lli>) {
    forall i :: 0 <= i < |list| ==> list[i].next == 0 || i < list[i].next < |list|
  }

  /** The moves made from item i on, in order. */
  function Walk(list: seq<Lli>, i: nat): seq<Move>
    requires Forward(list) && i < |list|
    decreases |list| - i
  {
    Burst(list[i]) + if list[i].next == 0 then [] else Walk(list, list[i].next)
  }

  /** The moves of a plain copy of n bytes to or from a device register. */
  function Copy(n: nat, source: nat, destination: nat, tx: bool): seq<Move> {
    seq(n, k requires 0 <= k => Move(if tx then source + k else source, if tx then destination else destination + k))
  }

  /** The bytes that the chain covers: a length that is a multiple of 4095 loses its last item. */
  function Covered(n: nat): nat
    requires n > 0
  {
    if n % 4095 != 0 then n else n - 4095
  }

  lemma ItemsBefore(n: nat, i: nat)
    requires n > 0 && i < NumLinkedLists(n)
    ensures 4095 * i <= Covered(n)
    ensures i + 1 == NumLinkedLists(n) ==> Covered(n) - 4095 * i == n % 4095
    ensures i + 1 < NumLinkedLists(n) ==> 4095 * i + 4095 <= Covered(n)
  {}

  /** Where item i reads from and writes to. */
  function SourceOf(source: nat, tx: bool, i: nat): nat { if tx then source + 4095 * i else source }

  function DestinationOf(destination: nat, tx: bool, i: nat): nat { if tx then destination else destination + 4095 * i }

  lemma {:induction false} WalkFrom(n: nat, source: nat, destination: nat, tx: bool, i: nat)
    requires n > 0 && i < NumLinkedLists(n) && Forward(Chain(n, source, destination, tx))
    ensures 4095 * i <= Covered(n)
    ensures Walk(Chain(n, source, destination, tx), i)
         == Copy(Covered(n) - 4095 * i, SourceOf(source, tx, i), DestinationOf(destination, tx, i), tx)
    decreases NumLinkedLists(n) - i
  {
    ItemsBefore(n, i);
    BurstCopies(n, source, destination, tx, i);
    if i + 1 < NumLinkedLists(n) {
      WalkFrom(n, source, destination, tx, i + 1);
      CopySplit(Covered(n) - 4095 * i, SourceOf(source, tx, i), DestinationOf(destination, tx, i), tx);
    }
  }

  /** One item copies as many bytes as its size says. */
  lemma BurstCopies(n: nat, source: nat, destination: nat, tx: bool, i: nat)
    requires i < NumLinkedLists(n)
    ensures var item := Chain(n, source, destination, tx)[i];
            && (item.next == 0 <==> i + 1 == NumLinkedLists(n)) && (item.next != 0 ==> item.next == i + 1)
            && Burst(item) == Copy(if i + 1 == NumLinkedLists(n) then n % 4095 else 4095, SourceOf(source, tx, i),
                                   DestinationOf(destination, tx, i), tx)
  {
    assert Chain(n, source, destination, tx)[i] == Item(n, source, destination, tx, i);
  }

  lemma CopySplit(n: nat, source: nat, destination: nat, tx: bool)
    requires n >= 4095
    ensures Copy(n, source, destination, tx)
         == Copy(4095, source, destination, tx)
            + Copy(n - 4095, if tx then source + 4095 else source, if tx then destination else destination + 4095, tx)
  {}

  /**
   The chain refines a copy: walking it moves the covered bytes in order, each once, and the interrupt bit and
   the null link are on the last item only; every item goes in the direction of the transfer.
   */
  lemma ChainCopies(n: nat, source: nat, destination: nat, tx: bool)
    requires n > 0
    ensures var chain := Chain(n, source, destination, tx);
            && |chain| == (n + 4094) / 4095 > 0 && Forward(chain)
            && Walk(chain, 0) == Copy(Covered(n), source, destination, tx)
            && (forall i :: 0 <= i < |chain| ==> chain[i].control.terminalCount == (i == |chain| - 1))
            && (forall i :: 0 <= i < |chain| ==> (chain[i].next == 0) == (i == |chain| - 1))
            && (forall i :: 0 <= i < |chain| ==> chain[i].control.transferSize <= 0xFFF)
            && (forall i :: 0 <= i < |chain| ==> InDirection(chain[i].control, tx))
  {
    NumLinkedListsIsCeiling(n, 0);
    WalkFrom(n, source, destination, tx, 0);
  }

  /** The whole buffer is copied exactly when its length is not a multiple of 4095. */
  lemma WholeBufferCopied(n: nat, source: nat, destination: nat, tx: bool)
    requires n > 0
    ensures Forward(Chain(n, source, destination, tx)) && NumLinkedLists(n) > 0
    ensures Walk(Chain(n, source, destination, tx), 0) == Copy(n, source, destination, tx) <==> n % 4095 != 0
  {
    ChainCopies(n, source, destination, tx);
    assert |Copy(n, source, destination, tx)| == n;
    assert |Copy(Covered(n), source, destination, tx)| == Covered(n);
  }
}
