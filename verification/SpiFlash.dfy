/**
 src/sys/spi_flash.c and the download callbacks of boot/main.c on a model of the flash chip: erase and program
 commands take effect only when the chip is not busy and writing has been enabled.
 */
module SpiFlash {
  import opened Bytes
  import opened FlashImage

  class FlashChip {
    const mem: array<bv8>
    /** How many more status reads will show a write in progress. */
    var busyFor: nat
    var writeEnabled: bool

    ghost predicate Valid() {
      mem.Length == FLASH_SIZE
    }

    constructor ()
      ensures Valid() && fresh(mem) && busyFor == 0 && !writeEnabled
    {
      mem := new bv8[FLASH_SIZE];
      busyFor, writeEnabled := 0, false;
    }

    /** Reading the status register; bit 0 is write in progress. */
    method Status() returns (busy: bool)
      modifies this`busyFor
      ensures busy == (old(busyFor) > 0) && busyFor == (if old(busyFor) > 0 then old(busyFor) - 1 else 0)
    {
      busy := busyFor > 0;
      if busy {
        busyFor := busyFor - 1;
      }
    }

    method WriteEnable()
      modifies this`writeEnabled
      ensures writeEnabled
    {
      writeEnabled := true;
    }

    /** A sector erase command. The chip ignores it while busy or write-protected; it then takes some time. */
    method EraseCommand(addr: nat, duration: nat)
      modifies this, mem
      ensures mem[..] == if old(busyFor) == 0 && old(writeEnabled) then FlashImage.EraseSector(old(mem[..]), addr)
                         else old(mem[..])
      ensures old(busyFor) == 0 && old(writeEnabled) ==> busyFor == duration && !writeEnabled
    {
      if busyFor == 0 && writeEnabled {
        forall a | 0 <= a < mem.Length && SameSector(a, addr) {
          mem[a] := 0xFF;
        }
        busyFor, writeEnabled := duration, false;
      }
    }

    /** A page program command, likewise. */
    method ProgramCommand(addr: nat, data: seq<bv8>, duration: nat)
      requires 0 < |data| <= 256
      modifies this, mem
      ensures mem[..] == if old(busyFor) == 0 && old(writeEnabled)
                         then FlashImage.ProgramPage(old(mem[..]), addr, data) else old(mem[..])
      ensures old(busyFor) == 0 && old(writeEnabled) ==> busyFor == duration && !writeEnabled
    {
      if busyFor == 0 && writeEnabled {
        forall a | 0 <= a < mem.Length && Programmed(a, addr, |data|) {
          mem[a] := mem[a] & data[PageOffset(a, addr)];
        }
        busyFor, writeEnabled := duration, false;
      }
    }
  }

  /** spiflash_wait */
  method Wait(f: FlashChip)
    modifies f`busyFor
    ensures f.busyFor == 0
  {
    var busy := f.Status();
    while busy
      invariant !busy ==> f.busyFor == 0
      decreases f.busyFor, busy
    {
      busy := f.Status();
    }
  }

  /** spiflash_erase_sector; `duration` is how long the chip will take */
  method EraseSectorAt(f: FlashChip, addr: nat, duration: nat)
    modifies f, f.mem
    ensures f.mem[..] == FlashImage.EraseSector(old(f.mem[..]), addr)
  {
    Wait(f);
    f.WriteEnable();
    f.EraseCommand(addr, duration);
  }

  /** spiflash_write_page */
  method WritePage(f: FlashChip, addr: nat, data: seq<bv8>, duration: nat)
    requires 0 < |data| <= 256
    modifies f, f.mem
    ensures f.mem[..] == FlashImage.ProgramPage(old(f.mem[..]), addr, data)
  {
    Wait(f);
    f.WriteEnable();
    f.ProgramCommand(addr, data, duration);
  }

  /** The first loop of spiflash_write_buf */
  method EraseLoop(f: FlashChip, addr: nat, length: nat, durations: nat -> nat)
    modifies f, f.mem
    ensures f.mem[..] == EraseSectors(old(f.mem[..]), addr, length, 0)
  {
    var i := 0;
    while i < length
      invariant EraseSectors(f.mem[..], addr, length, i) == EraseSectors(old(f.mem[..]), addr, length, 0)
    {
      EraseSectorAt(f, addr + i, durations(i));
      i := i + FLASH_SECTOR_SIZE;
    }
  }

  /** The page loops of spiflash_write_buf and dfu_cb_dnload_block_completed */
  method PageLoop(f: FlashChip, addr: nat, data: seq<bv8>, durations: nat -> nat)
    modifies f, f.mem
    ensures f.mem[..] == ProgramPages(old(f.mem[..]), addr, data, 0)
  {
    var i := 0;
    while i < |data|
      invariant ProgramPages(f.mem[..], addr, data, i) == ProgramPages(old(f.mem[..]), addr, data, 0)
    {
      WritePage(f, addr + i, data[i..Min(i + FLASH_PAGE_SIZE, |data|)], durations(i));
      i := i + FLASH_PAGE_SIZE;
    }
  }

  /** spiflash_write_buf: the address must begin a sector, and the sectors written must be on the chip. */
  method WriteBuffer(f: FlashChip, addr: nat, data: seq<bv8>, durations: nat -> nat)
    requires f.Valid() && addr % FLASH_SECTOR_SIZE == 0 && addr + WholeSectors(|data|) <= FLASH_SIZE
    modifies f, f.mem
    ensures f.mem[..] == WriteBuf(old(f.mem[..]), addr, data)
    ensures f.mem[addr..addr + |data|] == data
  {
    ghost var before := f.mem[..];
    EraseLoop(f, addr, |data|, durations);
    PageLoop(f, addr, data, durations);
    forall i | 0 <= i < |data|
      ensures f.mem[addr + i] == data[i]
    {
      BufferWritten(before, addr, data, addr + i);
      assert f.mem[..][addr + i] == f.mem[addr + i];
    }
  }

  datatype Target = TARGET_FLASH | TARGET_RAM

  datatype DfuStatus = OK | ErrUnknown | ErrAddress

  const RAM_DEST_SIZE := 0x600_0000

  /** dfu_cb_dnload_block: where the block goes, as an offset into RAM, or why it is refused. */
  method DnloadBlock(target: Target, n: nat, len: nat) returns (status: DfuStatus, offset: nat)
    ensures target.TARGET_FLASH? ==> (status == OK <==> len <= 4096 && n <= 496) && offset == 0
    ensures target.TARGET_RAM? ==>
              (status == OK <==> len <= 4096 && n <= 0x6000) && (status == OK ==> offset == n * 4096)
    ensures (status == ErrUnknown <==> len > 4096) && (status != OK ==> offset == 0)
  {
    AcceptsExactly(n, len);
    offset := 0;
    if len > DFU_TRANSFER_SIZE {
      return ErrUnknown, 0;
    }
    match target {
      case TARGET_FLASH =>
        if n * DFU_TRANSFER_SIZE > FLASH_FW_SIZE {
          return ErrAddress, 0;
        }
        return OK, 0;
      case TARGET_RAM =>
        if n * DFU_TRANSFER_SIZE > RAM_DEST_SIZE {
          return ErrAddress, 0;
        }
        return OK, n * DFU_TRANSFER_SIZE;
    }
  }

  class Bootloader {
    const flash: FlashChip
    /** The transfer buffer at DFU_DEST_BASE. */
    const ram: array<bv8>

    ghost predicate Valid() {
      flash.Valid() && ram.Length == DFU_TRANSFER_SIZE && ram != flash.mem
    }

    constructor (flash: FlashChip)
      requires flash.Valid()
      ensures Valid() && this.flash == flash && fresh(ram)
    {
      this.flash := flash;
      ram := new bv8[DFU_TRANSFER_SIZE];
    }

    /** dfu_cb_dnload_block_completed, with the flash as target */
    method BlockCompleted(n: nat, length: nat, durations: nat -> nat)
      requires Valid() && length <= DFU_TRANSFER_SIZE
      modifies flash, flash.mem
      ensures flash.mem[..] == FlashImage.BlockCompleted(old(flash.mem[..]), ram[..], n, length)
    {
      var addr := FLASH_FW_START + n * DFU_TRANSFER_SIZE;
      if length > 0 {
        if addr % FLASH_SECTOR_SIZE == 0 {
          EraseSectorAt(flash, addr, durations(0));
        }
        PagesBound(length);
        PageLoop(flash, addr, ram[..WholePages(length)], durations);
      }
    }

    /** A host sends a block: it is checked, received into the transfer buffer and, if it was taken, written. */
    method Download(n: nat, payload: seq<bv8>, durations: nat -> nat) returns (status: DfuStatus)
      requires Valid()
      modifies flash, flash.mem, ram
      ensures (status == OK) == Accepts(n, |payload|)
      ensures status == OK ==>
                (flash.mem[..], ram[..]) == FlashImage.Download(old(flash.mem[..]), old(ram[..]), n, payload)
      ensures status != OK ==> flash.mem[..] == old(flash.mem[..]) && ram[..] == old(ram[..])
      ensures flash.mem[..FLASH_FW_START] == old(flash.mem[..FLASH_FW_START])
    {
      var offset;
      status, offset := DnloadBlock(TARGET_FLASH, n, |payload|);
      if status == OK {
        ghost var before, ramBefore := flash.mem[..], ram[..];
        forall i | 0 <= i < |payload| {
          ram[i] := payload[i];
        }
        assert ram[..] == Received(ramBefore, payload) && flash.mem[..] == before;
        BlockCompleted(n, |payload|, durations);
        forall a | 0 <= a < FLASH_FW_START
          ensures flash.mem[a] == before[a]
        {
          BootloaderKept(before, ramBefore, [DfuBlock(n, payload)], a);
          assert DownloadAny(before, ramBefore, [DfuBlock(n, payload)]) == flash.mem[..];
          assert flash.mem[..][a] == flash.mem[a];
        }
      }
    }
  }
}
