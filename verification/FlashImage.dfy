/**
 Images of the SPI flash as sequences of bytes: erasing a sector, programming a page, and the writes that
 src/sys/spi_flash.c and boot/main.c make up of them.
 */
module FlashImage {
  import opened Bytes

  const FLASH_SECTOR_SIZE := 0x1_0000
  const FLASH_PAGE_SIZE := 256
  const FLASH_FW_START := 0x1_0000
  const FLASH_FW_SIZE := 0x1F_0000
  const FLASH_FS_START := 0x20_0000
  /** The chip: boot, firmware and file system partitions. */
  const FLASH_SIZE := 0x200_0000
  const DFU_TRANSFER_SIZE := 4096

  /** Whether two addresses lie in the same sector, or in the same page. */
  predicate SameSector(a: nat, b: nat) { a / 0x1_0000 == b / 0x1_0000 }

  predicate SamePage(a: nat, b: nat) { a / 256 == b / 256 }

  /** The sector that holds addr becomes all ones. */
  function EraseSector(m: seq<bv8>, addr: nat): (r: seq<bv8>)
    ensures |r| == |m|
  {
    seq(|m|, a requires 0 <= a < |m| => if SameSector(a, addr) then 0xFF else m[a])
  }

  /** How far behind addr the address a comes when counting wraps at the end of the page. */
  function PageOffset(a: nat, addr: nat): (d: nat)
    ensures d < 256 && (addr + d) % 256 == a % 256
  {
    (a + 256 - addr % 256) % 256
  }

  /** Whether programming n bytes at addr reaches the address a. */
  predicate Programmed(a: nat, addr: nat, n: nat) {
    SamePage(a, addr) && PageOffset(a, addr) < n
  }

  /**
   Programming can only clear bits. Data runs on from addr to the end of its page and then wraps to the
   beginning of the page.
   */
  function ProgramPage(m: seq<bv8>, addr: nat, data: seq<bv8>): (r: seq<bv8>)
    ensures |r| == |m|
  {
    seq(|m|, a requires 0 <= a < |m| =>
      if Programmed(a, addr, |data|) then m[a] & data[PageOffset(a, addr)] else m[a])
  }

  /** Erasing sector by sector from address addr + i on, until length bytes are covered. */
  function EraseSectors(m: seq<bv8>, addr: nat, length: nat, i: nat): (r: seq<bv8>)
    ensures |r| == |m|
    decreases length - i
  {
    if i < length then EraseSectors(EraseSector(m, addr + i), addr, length, i + 0x1_0000) else m
  }

  /** Programming page by page from data[i] on. */
  function ProgramPages(m: seq<bv8>, addr: nat, data: seq<bv8>, i: nat): (r: seq<bv8>)
    ensures |r| == |m|
    decreases |data| - i
  {
    if i < |data| then
      ProgramPages(ProgramPage(m, addr + i, data[i..Min(i + 256, |data|)]), addr, data, i + 256)
    else m
  }

  /** spiflash_write_buf */
  function WriteBuf(m: seq<bv8>, addr: nat, data: seq<bv8>): (r: seq<bv8>)
    ensures |r| == |m|
  {
    ProgramPages(EraseSectors(m, addr, |data|, 0), addr, data, 0)
  }

  /** length rounded up to whole sectors */
  function WholeSectors(length: nat): nat {
    (length + 0xFFFF) / 0x1_0000 * 0x1_0000
  }

  lemma {:induction false} ErasedRange(m: seq<bv8>, addr: nat, length: nat, i: nat, a: nat)
    requires addr % 0x1_0000 == 0 && i % 0x1_0000 == 0 && a < |m|
    ensures EraseSectors(m, addr, length, i)[a]
         == if addr + i <= a < addr + WholeSectors(length) then 0xFF else m[a]
    decreases length - i
  {
    if i < length {
      ErasedRange(EraseSector(m, addr + i), addr, length, i + 0x1_0000, a);
      SectorOf(addr + i, a);
    }
  }

  lemma SectorOf(start: nat, a: nat)
    requires start % 0x1_0000 == 0
    ensures SameSector(a, start) <==> start <= a < start + 0x1_0000
  {}

  lemma PageOf(start: nat, a: nat)
    requires start % 256 == 0
    ensures SamePage(a, start) <==> start <= a < start + 256
    ensures SamePage(a, start) ==> PageOffset(a, start) == a - start
  {}

  /** An aligned page program touches exactly the bytes that its data covers. */
  lemma ProgrammedPage(m: seq<bv8>, addr: nat, data: seq<bv8>, a: nat)
    requires addr % 256 == 0 && |data| <= 256 && a < |m|
    ensures ProgramPage(m, addr, data)[a] == if addr <= a < addr + |data| then m[a] & data[a - addr] else m[a]
  {
    PageOf(addr, a);
  }

  lemma ProgrammedNext(m: seq<bv8>, addr: nat, data: seq<bv8>, i: nat, a: nat)
    requires addr % 256 == 0 && i % 256 == 0 && i < |data| && a < |m|
    ensures ProgramPage(m, addr + i, data[i..Min(i + 256, |data|)])[a]
         == if addr + i <= a < addr + Min(i + 256, |data|) then m[a] & data[a - addr] else m[a]
  {
    ProgrammedPage(m, addr + i, data[i..Min(i + 256, |data|)], a);
  }

  lemma {:induction false} ProgrammedRange(m: seq<bv8>, addr: nat, data: seq<bv8>, i: nat, a: nat)
    requires addr % 256 == 0 && i % 256 == 0 && a < |m|
    ensures ProgramPages(m, addr, data, i)[a]
         == if addr + i <= a < addr + |data| then m[a] & data[a - addr] else m[a]
    decreases |data| - i
  {
    if i < |data| {
      ProgrammedNext(m, addr, data, i, a);
      ProgrammedRange(ProgramPage(m, addr + i, data[i..Min(i + 256, |data|)]), addr, data, i + 256, a);
    }
  }

  lemma SectorsBound(length: nat)
    ensures length <= WholeSectors(length)
  {}

  lemma AndOnes(b: bv8)
    ensures 0xFF & b == b
  {}

  /**
   Writing a buffer at the beginning of a sector: whatever was there before, the flash then holds the data,
   ones in the rest of the sectors it lies in, and everything else as it was.
   */
  lemma BufferWritten(m: seq<bv8>, addr: nat, data: seq<bv8>, a: nat)
    requires addr % 0x1_0000 == 0 && a < |m|
    ensures WriteBuf(m, addr, data)[a]
         == if addr <= a < addr + |data| then data[a - addr]
            else if addr <= a < addr + WholeSectors(|data|) then 0xFF
            else m[a]
  {
    var erased := EraseSectors(m, addr, |data|, 0);
    ErasedRange(m, addr, |data|, 0, a);
    SectorsBound(|data|);
    ProgrammedRange(erased, addr, data, 0, a);
    if addr <= a < addr + |data| {
      AndOnes(data[a - addr]);
    }
  }

  // ---------------------------------------------------------------- firmware download

  /** dfu_cb_dnload_block with the flash as target: whether block number n with len bytes is taken. */
  predicate Accepts(n: nat, len: nat) {
    len <= DFU_TRANSFER_SIZE && n * 4096 <= FLASH_FW_SIZE
  }

  function BlockAddr(n: nat): nat {
    FLASH_FW_START + n * 4096
  }

  /** length rounded up to whole pages */
  function WholePages(length: nat): nat {
    (length + 255) / 256 * 256
  }

  /** A block at the beginning of a sector erases it first. */
  function ErasedFor(m: seq<bv8>, addr: nat): (r: seq<bv8>)
    ensures |r| == |m|
  {
    if addr % 0x1_0000 == 0 then EraseSector(m, addr) else m
  }

  /** dfu_cb_dnload_block_completed: the transfer buffer is programmed in whole pages. */
  function BlockCompleted(m: seq<bv8>, ram: seq<bv8>, n: nat, length: nat): (r: seq<bv8>)
    requires length <= 4096 == |ram|
    ensures |r| == |m|
  {
    if length == 0 then m else
      ProgramPages(ErasedFor(m, BlockAddr(n)), BlockAddr(n), ram[..WholePages(length)], 0)
  }

  /** Data received at the beginning of the transfer buffer. */
  function Received(ram: seq<bv8>, payload: seq<bv8>): (r: seq<bv8>)
    requires |payload| <= |ram|
    ensures |r| == |ram|
  {
    payload + ram[|payload|..]
  }

  /** One accepted block: the image and the transfer buffer after it. */
  function Download(m: seq<bv8>, ram: seq<bv8>, n: nat, payload: seq<bv8>): (r: (seq<bv8>, seq<bv8>))
    requires Accepts(n, |payload|) && |ram| == 4096
    ensures |r.0| == |m| && |r.1| == 4096
  {
    var ram' := Received(ram, payload);
    (BlockCompleted(m, ram', n, |payload|), ram')
  }

  /** Blocks of up to 4096 bytes with numbers up to 496 are taken. */
  lemma AcceptsExactly(n: nat, len: nat)
    ensures Accepts(n, len) <==> len <= 4096 && n <= 496
  {}

  /** Rounding up to whole pages takes in the pages that begin before the end. */
  lemma PageReached(length: nat, d: nat)
    ensures d < WholePages(length) <==> d / 256 * 256 < length
  {}

  /**
   What one block does to each byte. Its sector is erased if the block begins one. Then every page in which the block
   has a byte is programmed whole: behind the block with what the transfer buffer held there before.
   */
  lemma BlockWritten(m: seq<bv8>, ram: seq<bv8>, n: nat, length: nat, a: nat)
    requires 0 < length <= 4096 == |ram| && a < |m|
    ensures var addr := BlockAddr(n);
            var before := if n % 16 == 0 && addr <= a < addr + 0x1_0000 then 0xFF else m[a];
            BlockCompleted(m, ram, n, length)[a]
            == if addr <= a && (a - addr) / 256 * 256 < length then before & ram[a - addr] else before
  {
    BlockChanges(m, ram, n, length, a);
    if BlockAddr(n) <= a {
      PageReached(length, a - BlockAddr(n));
    }
  }

  lemma ErasedBefore(m: seq<bv8>, addr: nat, a: nat)
    requires a < |m|
    ensures ErasedFor(m, addr)[a] == if addr % 0x1_0000 == 0 && addr <= a < addr + 0x1_0000 then 0xFF else m[a]
  {
    if addr % 0x1_0000 == 0 {
      SectorOf(addr, a);
    }
  }


  /** The same with the end rounded up. */
  lemma BlockChanges(m: seq<bv8>, ram: seq<bv8>, n: nat, length: nat, a: nat)
    requires 0 < length <= 4096 == |ram| && a < |m|
    ensures var addr := BlockAddr(n);
            var before := if n % 16 == 0 && addr <= a < addr + 0x1_0000 then 0xFF else m[a];
            BlockCompleted(m, ram, n, length)[a]
            == if addr <= a < addr + WholePages(length) then before & ram[a - addr] else before
  {
    BlockAligned(n);
    PagesBound(length);
    ErasedBefore(m, BlockAddr(n), a);
    ProgrammedRange(ErasedFor(m, BlockAddr(n)), BlockAddr(n), ram[..WholePages(length)], 0, a);
  }

  lemma BlockAligned(n: nat)
    ensures BlockAddr(n) % 256 == 0
    ensures BlockAddr(n) % 0x1_0000 == 0 <==> n % 16 == 0
  {}

  lemma PagesBound(length: nat)
    requires length <= 4096
    ensures length <= WholePages(length) <= 4096
  {}

  /** Block n of an image: 4096 bytes, or what is left of it. */
  function BlockOf(image: seq<bv8>, n: nat): (b: seq<bv8>)
    requires n * 4096 <= |image|
    ensures |b| <= 4096
  {
    image[n * 4096..Min(n * 4096 + 4096, |image|)]
  }

  /** A host sends an image in order, block after block, from block n on. */
  function DownloadFrom(m: seq<bv8>, ram: seq<bv8>, image: seq<bv8>, n: nat): (r: seq<bv8>)
    requires |image| <= FLASH_FW_SIZE && |ram| == 4096
    ensures |r| == |m|
    decreases |image| - n * 4096
  {
    if n * 4096 < |image| then
      var (m', ram') := Download(m, ram, n, BlockOf(image, n));
      DownloadFrom(m', ram', image, n + 1)
    else m
  }

  /** The bytes of the sectors in which the blocks below n lie. */
  function Begun(n: nat): nat {
    (n + 15) / 16 * 0x1_0000
  }

  lemma BegunNext(n: nat)
    ensures n % 16 == 0 ==> Begun(n) == n * 4096 && Begun(n + 1) == n * 4096 + 0x1_0000
    ensures n % 16 != 0 ==> Begun(n + 1) == Begun(n) >= n * 4096 + 4096
  {}

  /** Address a of the firmware partition before block n of the image is written. */
  ghost predicate WrittenUpTo(m: seq<bv8>, image: seq<bv8>, n: nat, a: nat)
    requires FLASH_FW_START <= a < |m|
  {
    (a < BlockAddr(n) && a - FLASH_FW_START < |image| ==> m[a] == image[a - FLASH_FW_START])
    && (a >= BlockAddr(n) && a < FLASH_FW_START + Begun(n) ==> m[a] == 0xFF)
  }

  lemma OneMoreBlock(m: seq<bv8>, ram: seq<bv8>, image: seq<bv8>, n: nat, a: nat)
    requires n * 4096 < |image| <= FLASH_FW_SIZE && |ram| == 4096
    requires FLASH_FW_START <= a < |m| && WrittenUpTo(m, image, n, a)
    ensures WrittenUpTo(Download(m, ram, n, BlockOf(image, n)).0, image, n + 1, a)
  {
    var block := BlockOf(image, n);
    BlockChanges(m, Received(ram, block), n, |block|, a);
    PagesBound(|block|);
    BegunNext(n);
    if BlockAddr(n) <= a < BlockAddr(n) + |block| {
      BlockData(ram, image, n, a - BlockAddr(n));
    }
  }

  /** Programmed over ones, the transfer buffer leaves the block. */
  lemma BlockData(ram: seq<bv8>, image: seq<bv8>, n: nat, k: nat)
    requires n * 4096 < |image| && |ram| == 4096 && k < |BlockOf(image, n)|
    ensures 0xFF & Received(ram, BlockOf(image, n))[k] == image[n * 4096 + k]
  {
    AndOnes(image[n * 4096 + k]);
  }

  lemma {:induction false} DownloadReaches(m: seq<bv8>, ram: seq<bv8>, image: seq<bv8>, n: nat, a: nat)
    requires |image| <= FLASH_FW_SIZE && |ram| == 4096
    requires FLASH_FW_START <= a < |m| && WrittenUpTo(m, image, n, a) && a - FLASH_FW_START < |image|
    ensures DownloadFrom(m, ram, image, n)[a] == image[a - FLASH_FW_START]
    decreases |image| - n * 4096
  {
    if n * 4096 < |image| {
      OneMoreBlock(m, ram, image, n, a);
      var (m', ram') := Download(m, ram, n, BlockOf(image, n));
      DownloadReaches(m', ram', image, n + 1, a);
    }
  }

  /** Every address that no block of the firmware partition can reach. */
  predicate OutsideFirmware(a: nat) {
    a < 0x1_0000 || a >= 0x20_0000
  }

  /** A block below number 496 stays inside the firmware partition. */
  lemma BlockConfined(m: seq<bv8>, ram: seq<bv8>, n: nat, payload: seq<bv8>, a: nat)
    requires Accepts(n, |payload|) && |ram| == 4096 && a < |m| && (n <= 495 || payload == [])
    requires OutsideFirmware(a)
    ensures Download(m, ram, n, payload).0[a] == m[a]
  {
    if payload != [] {
      BlockChanges(m, Received(ram, payload), n, |payload|, a);
    }
  }

  lemma {:induction false} DownloadConfined(m: seq<bv8>, ram: seq<bv8>, image: seq<bv8>, n: nat, a: nat)
    requires |image| <= FLASH_FW_SIZE && |ram| == 4096 && a < |m| && OutsideFirmware(a)
    ensures DownloadFrom(m, ram, image, n)[a] == m[a]
    decreases |image| - n * 4096
  {
    if n * 4096 < |image| {
      var (m', ram') := Download(m, ram, n, BlockOf(image, n));
      BlockConfined(m, ram, n, BlockOf(image, n), a);
      DownloadConfined(m', ram', image, n + 1, a);
    }
  }

  /**
   A firmware image downloaded in order: whatever the flash and the transfer buffer held before, the firmware
   partition then begins with exactly the image, every block having been accepted, and nothing outside the
   partition has changed.
   */
  lemma ImageDownloaded(m: seq<bv8>, ram: seq<bv8>, image: seq<bv8>, a: nat)
    requires |image| <= 0x1F_0000 && |ram| == 4096 && a < |m|
    ensures var r := DownloadFrom(m, ram, image, 0);
            && (0x1_0000 <= a < 0x1_0000 + |image| ==> r[a] == image[a - 0x1_0000])
            && (a < 0x1_0000 || a >= 0x20_0000 ==> r[a] == m[a])
  {
    if FLASH_FW_START <= a < FLASH_FW_START + |image| {
      DownloadReaches(m, ram, image, 0, a);
    }
    if OutsideFirmware(a) {
      DownloadConfined(m, ram, image, 0, a);
    }
  }

  // ---------------------------------------------------------------- blocks in any order

  datatype DfuBlock = DfuBlock(n: nat, payload: seq<bv8>)

  /** Any sequence of blocks; those not accepted are refused and change nothing. */
  function DownloadAny(m: seq<bv8>, ram: seq<bv8>, blocks: seq<DfuBlock>): (r: seq<bv8>)
    requires |ram| == 4096
    ensures |r| == |m|
    decreases blocks
  {
    if blocks == [] then m
    else if Accepts(blocks[0].n, |blocks[0].payload|) then
      var (m', ram') := Download(m, ram, blocks[0].n, blocks[0].payload);
      DownloadAny(m', ram', blocks[1..])
    else DownloadAny(m, ram, blocks[1..])
  }

  /** No sequence of blocks, in any order, changes the boot partition. */
  lemma {:induction false} BootloaderKept(m: seq<bv8>, ram: seq<bv8>, blocks: seq<DfuBlock>, a: nat)
    requires |ram| == 4096 && a < 0x1_0000 && a < |m|
    ensures DownloadAny(m, ram, blocks)[a] == m[a]
    decreases blocks
  {
    if blocks != [] {
      var b := blocks[0];
      if Accepts(b.n, |b.payload|) {
        var (m', ram') := Download(m, ram, b.n, b.payload);
        if b.payload != [] {
          BlockChanges(m, Received(ram, b.payload), b.n, |b.payload|, a);
        }
        BootloaderKept(m', ram', blocks[1..], a);
      } else {
        BootloaderKept(m, ram, blocks[1..], a);
      }
    }
  }

  /** A flash with every bit programmed. */
  function ZeroFlash(): (m: seq<bv8>)
    ensures |m| == FLASH_SIZE
  {
    seq(FLASH_SIZE, _ => 0)
  }

  /**
   The bound on block numbers lets one too many through: a nonempty block keeps the rest of the chip's 32 MB, whatever it
   holds, exactly when its number is below 496. Block 496 starts at the file system and erases its first sector.
   */
  lemma ConfinedExactly(ram: seq<bv8>, n: nat, payload: seq<bv8>)
    requires Accepts(n, |payload|) && |ram| == 4096 && payload != []
    ensures (forall m: seq<bv8>, a: nat :: |m| == 0x200_0000 && a < |m| && OutsideFirmware(a) ==>
               Download(m, ram, n, payload).0[a] == m[a])
       <==> n < 496
  {
    if n < 496 {
      forall m: seq<bv8>, a: nat | |m| == 0x200_0000 && a < |m| && OutsideFirmware(a)
        ensures Download(m, ram, n, payload).0[a] == m[a]
      {
        BlockConfined(m, ram, n, payload, a);
      }
    } else {
      var m, a := ZeroFlash(), FLASH_FS_START + 0xFFFF;
      BlockChanges(m, Received(ram, payload), n, |payload|, a);
      assert OutsideFirmware(a) && m[a] == 0 && Download(m, ram, n, payload).0[a] == 0xFF;
    }
  }
}
