/** app/http/utils_httpc.c: the 1024-byte re-blocking buffer between the HTTP body and the
    sector-erase flash (the configuration that writes the OTA partition directly). */
module HttpFlash {
  import opened Words
  import opened Flash
  import Ring

  const WR_BUF_MAX: nat := 1024

  /** A flash partition: bk_logic_partition_t. */
  datatype Partition = Partition(start: u32, length: u32)

  ghost predicate PartitionOk(pt: Partition, d: Dev) {
    && pt.start % SECTOR == 0 && pt.length % SECTOR == 0 && pt.length > 0
    && pt.start + pt.length <= |d.cells| && pt.start + pt.length < 0x100_0000
  }

  /** flash_address and the device. */
  datatype Writer = Writer(dev: Dev, addr: u32)

  /** http_flash_wr: erases first, then refuses a run that would reach the end of the partition. */
  function FlashWr(pt: Partition, w: Writer, src: seq<byte>): Writer
    requires |src| <= WR_BUF_MAX
  {
    var d := if w.addr % SECTOR == 0 then Erase(w.dev, w.addr) else w.dev;
    if w.addr >= pt.start && Wrap(w.addr + |src|) < Wrap(pt.start + pt.length)
    then Writer(Program(d, w.addr, src), Wrap(w.addr + |src|))
    else Writer(d, w.addr)
  }

  /** The writer after a whole number of blocks. */
  function Blocks(pt: Partition, w: Writer, bs: seq<byte>): Writer
    requires |bs| % WR_BUF_MAX == 0
    decreases |bs|
  {
    if bs == [] then w else
      var m := |bs| - WR_BUF_MAX;
      FlashWr(pt, Blocks(pt, w, bs[..m]), bs[m..])
  }

  /** The length of the part of an input of n bytes that fills whole blocks. */
  function WholeBlocks(n: nat): (m: nat)
    ensures m <= n && m % WR_BUF_MAX == 0 && n - m < WR_BUF_MAX
  {
    n - n % WR_BUF_MAX
  }

  /** The writer and the buffered tail after an input, which depend on the concatenation of
      the pieces only. */
  function Fed(pt: Partition, w: Writer, input: seq<byte>): (r: (Writer, seq<byte>))
    ensures |r.1| < WR_BUF_MAX
  {
    var m := WholeBlocks(|input|);
    (Blocks(pt, w, input[..m]), input[m..])
  }

  /** The final http_flash_wr of the download. */
  function Flushed(pt: Partition, w: Writer, input: seq<byte>): Writer {
    var (w1, tail) := Fed(pt, w, input);
    FlashWr(pt, w1, tail)
  }

  // ---------------------------------------------------------------- images

  /** The device after n bytes went in and all of them were written. */
  ghost predicate Holds(pt: Partition, d0: Dev, w: Writer, top: nat, image: seq<byte>) {
    && Writing(d0, w.dev, pt.start / SECTOR, top, image)
    && w.addr == pt.start + |image|
    && top * SECTOR <= pt.length
  }

  /** One block that ends before the end of the partition is written. */
  lemma BlockWritten(pt: Partition, d0: Dev, w: Writer, top: nat, image: seq<byte>, src: seq<byte>)
    returns (top': nat)
    requires PartitionOk(pt, d0) && Holds(pt, d0, w, top, image)
    requires top * SECTOR < |image| + SECTOR
    requires |image| % WR_BUF_MAX == 0 && |src| <= WR_BUF_MAX
    requires |image| + |src| < pt.length
    ensures Holds(pt, d0, FlashWr(pt, w, src), top', image + src)
    ensures |src| > 0 ==> top' * SECTOR < |image + src| + SECTOR
  {
    hide Writing, Erase, Program, Append, FlashWr;
    var first := pt.start / SECTOR;
    assert first * SECTOR == pt.start;
    SectorRoom(pt.start, pt.length, |image|);
    top' := AppendNext(d0, w.dev, first, top, image, src);
    WrIsAppend(pt, w, src);
    assert |image + src| == |image| + |src|;
  }

  /** A block that ends before the end of the partition. */
  lemma WrIsAppend(pt: Partition, w: Writer, src: seq<byte>)
    requires |src| <= WR_BUF_MAX && pt.start <= w.addr && w.addr + |src| < pt.start + pt.length < 0x1_0000_0000
    ensures FlashWr(pt, w, src) == Writer(Append(w.dev, w.addr, src), w.addr + |src|)
  {
    hide Erase, Program;
  }

  lemma SectorRoom(start: nat, length: nat, n: nat)
    requires start % SECTOR == 0 && length % SECTOR == 0 && n < length && n % WR_BUF_MAX == 0
    ensures (n / SECTOR + 1) * SECTOR <= length
    ensures (start / SECTOR + n / SECTOR + 1) * SECTOR <= start + length
    ensures n % SECTOR + WR_BUF_MAX <= SECTOR
  {
    var s, l, b := start / SECTOR, length / SECTOR, n / WR_BUF_MAX;
    assert start == s * SECTOR && length == l * SECTOR && n == b * WR_BUF_MAX;
    BlocksInSector(b);
    assert b / 4 < l by { assert b * 1024 < l * 4096; }
  }

  /** Whole blocks of an input that stays below the partition length are all written. */
  lemma {:induction false} BlocksWritten(pt: Partition, d0: Dev, bs: seq<byte>) returns (top: nat)
    requires PartitionOk(pt, d0) && |bs| % WR_BUF_MAX == 0 && |bs| < pt.length
    ensures Holds(pt, d0, Blocks(pt, Writer(d0, pt.start), bs), top, bs)
    ensures top * SECTOR < |bs| + SECTOR
    decreases |bs|
  {
    hide Writing, FlashWr;
    if bs == [] {
      top := 0;
      WritingStarts(d0, pt.start / SECTOR);
    } else {
      var m := |bs| - WR_BUF_MAX;
      var t := BlocksWritten(pt, d0, bs[..m]);
      top := BlockWritten(pt, d0, Blocks(pt, Writer(d0, pt.start), bs[..m]), t, bs[..m], bs[m..]);
      assert bs[..m] + bs[m..] == bs;
    }
  }

  /** At every moment of a download that fits, flash and buffer together are the input. */
  lemma FedHolds(pt: Partition, d0: Dev, input: seq<byte>) returns (top: nat)
    requires PartitionOk(pt, d0) && |input| < pt.length
    ensures var (w, tail) := Fed(pt, Writer(d0, pt.start), input);
      var image := input[..WholeBlocks(|input|)];
      image + tail == input && Holds(pt, d0, w, top, image)
  {
    hide Holds, Blocks;
    var m := WholeBlocks(|input|);
    top := BlocksWritten(pt, d0, input[..m]);
    assert input[..m] + input[m..] == input;
  }

  /** A block that would reach the end of the partition is dropped, and the address stays. */
  lemma WrAddress(pt: Partition, d0: Dev, w: Writer, src: seq<byte>)
    requires PartitionOk(pt, d0) && |src| <= WR_BUF_MAX && pt.start <= w.addr < pt.start + pt.length
    ensures FlashWr(pt, w, src).addr ==
      if w.addr + |src| < pt.start + pt.length then w.addr + |src| else w.addr
  {
    hide Erase, Program;
  }

  /** The address never runs ahead of the input, and falls behind for good once the input
      reaches the end of the partition. */
  lemma {:induction false} AddressLags(pt: Partition, d0: Dev, bs: seq<byte>)
    requires PartitionOk(pt, d0) && |bs| % WR_BUF_MAX == 0
    ensures var a := Blocks(pt, Writer(d0, pt.start), bs).addr;
      && pt.start <= a < pt.start + pt.length
      && (if |bs| < pt.length then a == pt.start + |bs| else a < pt.start + |bs|)
    decreases |bs|
  {
    hide FlashWr;
    if bs != [] {
      var m := |bs| - WR_BUF_MAX;
      AddressLags(pt, d0, bs[..m]);
      WrAddress(pt, d0, Blocks(pt, Writer(d0, pt.start), bs[..m]), bs[m..]);
    }
  }

  /** The image is complete in flash exactly when the input is shorter than the partition. */
  lemma ImageComplete(pt: Partition, d0: Dev, input: seq<byte>)
    requires PartitionOk(pt, d0)
    ensures var w := Flushed(pt, Writer(d0, pt.start), input);
      && (w.addr == pt.start + |input| <==> |input| < pt.length)
      && (|input| < pt.length ==> exists top :: Holds(pt, d0, w, top, input))
  {
    hide Writing, FlashWr;
    var m := WholeBlocks(|input|);
    AddressLags(pt, d0, input[..m]);
    WrAddress(pt, d0, Blocks(pt, Writer(d0, pt.start), input[..m]), input[m..]);
    if |input| < pt.length {
      var t := BlocksWritten(pt, d0, input[..m]);
      var top := BlockWritten(pt, d0, Blocks(pt, Writer(d0, pt.start), input[..m]), t, input[..m], input[m..]);
      assert input[..m] + input[m..] == input;
    }
  }

  /** What Holds means for a reader of the flash. */
  lemma HoldsMeans(pt: Partition, d0: Dev, w: Writer, top: nat, image: seq<byte>)
    requires PartitionOk(pt, d0) && Holds(pt, d0, w, top, image)
    ensures pt.start + |image| <= |w.dev.cells| && w.dev.cells[pt.start..pt.start + |image|] == image
    ensures w.dev.clean == d0.clean
    ensures SameOutside(d0, w.dev, pt.start, pt.start + pt.length)
    ensures forall s :: s in w.dev.erased && s !in d0.erased ==> pt.start <= s * SECTOR < pt.start + pt.length
  {
    var first := pt.start / SECTOR;
    assert first * SECTOR == pt.start;
    forall s | s in w.dev.erased && s !in d0.erased
      ensures pt.start <= s * SECTOR < pt.start + pt.length
    {
      InSectors(first, top, s);
    }
  }

  /** Whatever the input, even one that does not fit, no sector outside the partition is
      erased and no cell outside it changes. */
  lemma {:induction false} StaysInside(pt: Partition, d0: Dev, bs: seq<byte>)
    requires PartitionOk(pt, d0) && |bs| % WR_BUF_MAX == 0
    ensures Inside(pt, d0, Blocks(pt, Writer(d0, pt.start), bs).dev)
    decreases |bs|
  {
    hide Erase, Program, Inside;
    if bs == [] {
      InsideStarts(pt, d0);
    } else {
      var m := |bs| - WR_BUF_MAX;
      StaysInside(pt, d0, bs[..m]);
      AddressLags(pt, d0, bs[..m]);
      WrInside(pt, d0, Blocks(pt, Writer(d0, pt.start), bs[..m]), bs[m..]);
    }
  }

  ghost predicate Inside(pt: Partition, d0: Dev, d: Dev) {
    && SameOutside(d0, d, pt.start, pt.start + pt.length)
    && forall s :: s in d.erased && s !in d0.erased ==> pt.start <= s * SECTOR < pt.start + pt.length
  }

  lemma InsideStarts(pt: Partition, d0: Dev)
    ensures Inside(pt, d0, d0)
  {
  }

  lemma EraseInside(pt: Partition, d0: Dev, d: Dev, addr: u32)
    requires PartitionOk(pt, d0) && Inside(pt, d0, d)
    requires pt.start <= addr < pt.start + pt.length && addr % SECTOR == 0
    ensures Inside(pt, d0, Erase(d, addr))
  {
    assert addr % 0x100_0000 == addr && addr / SECTOR * SECTOR == addr;
    assert addr + SECTOR <= pt.start + pt.length;
  }

  lemma ProgramInside(pt: Partition, d0: Dev, d: Dev, addr: u32, src: seq<byte>)
    requires Inside(pt, d0, d) && pt.start <= addr && addr + |src| <= pt.start + pt.length
    ensures Inside(pt, d0, Program(d, addr, src))
  {
    hide ProgramCell;
  }

  lemma WrInside(pt: Partition, d0: Dev, w: Writer, src: seq<byte>)
    requires PartitionOk(pt, d0) && Inside(pt, d0, w.dev) && |src| <= WR_BUF_MAX
    requires pt.start <= w.addr < pt.start + pt.length
    ensures Inside(pt, d0, FlashWr(pt, w, src).dev)
  {
    hide Erase, Program, Inside;
    var d := w.dev;
    if w.addr % SECTOR == 0 {
      EraseInside(pt, d0, d, w.addr);
      d := Erase(d, w.addr);
    }
    if w.addr + |src| <= pt.start + pt.length {
      ProgramInside(pt, d0, d, w.addr, src);
    }
  }

  lemma DownloadStaysInside(pt: Partition, d0: Dev, input: seq<byte>)
    requires PartitionOk(pt, d0)
    ensures Inside(pt, d0, Flushed(pt, Writer(d0, pt.start), input).dev)
  {
    hide Erase, Program, Inside;
    var m := WholeBlocks(|input|);
    StaysInside(pt, d0, input[..m]);
    AddressLags(pt, d0, input[..m]);
    WrInside(pt, d0, Blocks(pt, Writer(d0, pt.start), input[..m]), input[m..]);
  }

  // ---------------------------------------------------------------- the code

  /** A piece that keeps the tail within one block either joins it or completes the block. */
  lemma FedGrows(pt: Partition, w: Writer, x: seq<byte>, d: seq<byte>)
    requires |Fed(pt, w, x).1| + |d| <= WR_BUF_MAX
    ensures var (w1, tail) := Fed(pt, w, x);
      Fed(pt, w, x + d) ==
        if |tail| + |d| < WR_BUF_MAX then (w1, tail + d) else (FlashWr(pt, w1, tail + d), [])
  {
    hide FlashWr, WholeBlocks, Blocks;
    var m := WholeBlocks(|x|);
    var y := x + d;
    assert y[..m] == x[..m] && y[m..] == x[m..] + d;
    if |x[m..]| + |d| < WR_BUF_MAX {
      WholeBlocksIs(|y|, m);
    } else {
      NextBlock(m);
      WholeBlocksIs(|y|, m + WR_BUF_MAX);
      assert y[..|y|] == y && y[|y|..] == [];
      BlocksNext(pt, w, y, m);
    }
  }

  lemma WholeBlocksIs(n: nat, m: nat)
    requires m <= n < m + WR_BUF_MAX && m % WR_BUF_MAX == 0
    ensures WholeBlocks(n) == m
  {
  }

  lemma NextBlock(m: nat)
    requires m % WR_BUF_MAX == 0
    ensures (m + WR_BUF_MAX) % WR_BUF_MAX == 0
  {
  }

  lemma BlocksNext(pt: Partition, w: Writer, y: seq<byte>, m: nat)
    requires |y| == m + WR_BUF_MAX && m % WR_BUF_MAX == 0 && |y| % WR_BUF_MAX == 0
    ensures Blocks(pt, w, y) == FlashWr(pt, Blocks(pt, w, y[..m]), y[m..])
  {
    hide FlashWr;
  }

  /** bk_http and its buffers. */
  class HttpData {
    const pt: Partition
    var wrBuf: array<byte>
    var wrLastLen: nat
    var flashAddress: u32
    var dev: Dev
    var doData: bool
    var httpTotal: u32
    /** The device at http_flash_init, and everything handed to http_wr_to_flash since. */
    ghost var origin: Dev
    ghost var input: seq<byte>

    ghost predicate Valid()
      reads `wrBuf, `wrLastLen, `dev, `flashAddress, `origin, `input, wrBuf
    {
      && wrBuf.Length == WR_BUF_MAX && wrLastLen < WR_BUF_MAX
      && Fed(pt, Writer(origin, pt.start), input) == (Writer(dev, flashAddress), wrBuf[..wrLastLen])
    }

    constructor (pt: Partition, dev: Dev)
      ensures this.pt == pt && this.dev == dev && !doData && fresh(wrBuf) && wrBuf.Length == WR_BUF_MAX
    {
      this.pt, this.dev, doData, httpTotal := pt, dev, false, 0;
      wrBuf := new byte[WR_BUF_MAX];
      wrLastLen, flashAddress, origin, input := 0, pt.start, dev, [];
    }

    method HttpFlashInit()
      modifies this
      ensures Valid() && fresh(wrBuf) && input == [] && origin == old(dev) && doData == old(doData)
    {
      wrBuf := new byte[WR_BUF_MAX];
      wrLastLen := 0;
      flashAddress := pt.start;
      origin, input := dev, [];
    }

    method HttpFlashWr(src: seq<byte>)
      requires |src| <= WR_BUF_MAX
      modifies this`dev, this`flashAddress
      ensures Writer(dev, flashAddress) == FlashWr(pt, Writer(old(dev), old(flashAddress)), src)
    {
      if flashAddress % SECTOR == 0 {
        dev := Erase(dev, flashAddress);
      }
      if flashAddress >= pt.start && Wrap(flashAddress + |src|) < Wrap(pt.start + pt.length) {
        dev := Program(dev, flashAddress, src);
        flashAddress := Wrap(flashAddress + |src|);
      }
    }

    /** http_wr_to_flash, through http_data_process. */
    method HttpWrToFlash(page: seq<byte>)
      requires Valid()
      modifies this`dev, this`flashAddress, this`wrLastLen, this`input, wrBuf
      ensures Valid() && input == old(input) + page
    {
      hide FlashWr, Fed;
      var i := 0;
      ghost var before := input;
      assert before + page[..0] == before;
      while i < |page|
        invariant 0 <= i <= |page| && input == before + page[..i]
        invariant Valid()
      {
        var wl := Min(|page| - i, WR_BUF_MAX - wrLastLen);
        var piece := page[i..i + wl];
        FedGrows(pt, Writer(origin, pt.start), input, piece);
        ghost var tail := wrBuf[..wrLastLen];
        Ring.MemCpy(wrBuf, wrLastLen, piece);
        assert page[..i + wl] == page[..i] + piece;
        assert before + (page[..i] + piece) == (before + page[..i]) + piece;
        i := i + wl;
        wrLastLen := wrLastLen + wl;
        assert wrBuf[..wrLastLen] == tail + piece;
        input := input + piece;
        if wrLastLen >= WR_BUF_MAX {
          assert wrBuf[..] == tail + piece;
          HttpFlashWr(wrBuf[..]);
          wrLastLen := 0;
        }
      }
      assert page[..|page|] == page;
    }

    /** The write of the left-over bytes at the end of the download. */
    method FlushTail()
      requires Valid()
      modifies this`dev, this`flashAddress
      ensures Writer(dev, flashAddress) == Flushed(pt, Writer(origin, pt.start), input)
    {
      HttpFlashWr(wrBuf[..wrLastLen]);
    }
  }
}
