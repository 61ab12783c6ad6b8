/** The TFTP upgrade end to end: what the protocol delivers is what the flash holds. */
module TftpOta {
  import opened Words
  import opened Seqs
  import Flash
  import P = TftpProtocol
  import S = TftpStore

  /** The store_block calls of a transfer, replayed on the image writer. */
  function Replay(f: S.CrcStep, s: S.Store, log: seq<(u32, seq<byte>)>): S.Store
    requires forall e :: e in log ==> |e.1| >= S.HD_LEN
    decreases |log|
  {
    if log == [] then s
    else S.Stored(f, Replay(f, s, log[..|log| - 1]), log[|log| - 1].0, log[|log| - 1].1)
  }

  lemma {:induction false} ReplayOfLog(f: S.CrcStep, s: S.Store, cs: seq<seq<byte>>, k: nat)
    requires k <= |cs| < 0x1_0000 && forall b :: b in cs ==> |b| >= S.HD_LEN
    ensures forall e :: e in P.Log(cs, k) ==> |e.1| >= S.HD_LEN
    ensures Replay(f, s, P.Log(cs, k)) == S.StoreAll(f, s, cs[..k])
    decreases k
  {
    hide S.Stored;
    if k > 0 {
      ReplayOfLog(f, s, cs, k - 1);
      P.LogSnoc(cs, k - 1);
      assert P.Log(cs, k)[..k - 1] == P.Log(cs, k - 1);
      assert cs[..k][..k - 1] == cs[..k - 1];
    } else {
      assert cs[..0] == [];
    }
  }

  /** On every run of the transfer, as long as block size and file make a good image: no image
      header was written before the last block, and flash holds the payloads of exactly the blocks
      stored so far, until one lies past the window. */
  lemma FlashFollowsTransfer(f: S.CrcStep, s0: S.Store, file: seq<byte>, steps: seq<P.Step>, first: nat)
    returns (top: nat)
    requires var c := P.Run(P.Init(file), steps).client;
      c.stored != [] && !c.done && c.blkSize > 0 && S.GoodImage(P.Chunks(file, c.blkSize), first)
    requires S.DeviceOk(s0.dev)
    ensures var c := P.Run(P.Init(file), steps).client;
      var cs, k := P.Chunks(file, c.blkSize), |c.stored|;
      && k < |cs| && (forall b :: b in cs ==> |b| >= S.HD_LEN)
      && (forall e :: e in c.stored ==> |e.1| >= S.HD_LEN)
      && Replay(f, s0, c.stored).headers == s0.headers
      && if first * Flash.SECTOR + (k - 1) * S.CHUNK < S.WINDOW_HIGH
         then S.Standing(f, Replay(f, s0, c.stored), s0.dev, first, top, cs, k)
         else Replay(f, s0, c.stored).addr >= S.WINDOW_HIGH
  {
    hide P.Run, P.Chunks, P.Log, S.Standing, S.Stored;
    P.TransferSafe(file, steps);
    var c := P.Run(P.Init(file), steps).client;
    var cs, k := P.Chunks(file, c.blkSize), |c.stored|;
    S.GoodBlocksAreLong(cs, first);
    ReplayOfLog(f, s0, cs, k);
    S.Overrun(f, s0, cs, first, k);
    top := 0;
    if first * Flash.SECTOR + (k - 1) * S.CHUNK < S.WINDOW_HIGH {
      top := S.PrefixStored(f, s0, cs, first, k);
    }
  }

  /** When the client reports success, the image header has been written if and only if the
      image fits the window and its CRC is right, and the whole image is in flash. */
  lemma UpgradeCorrect(f: S.CrcStep, s0: S.Store, file: seq<byte>, steps: seq<P.Step>, first: nat)
    requires var c := P.Run(P.Init(file), steps).client;
      c.done && c.blkSize > 0 && S.GoodImage(P.Chunks(file, c.blkSize), first)
    requires S.DeviceOk(s0.dev) && s0.dev.clean && s0.headers == []
    ensures var c := P.Run(P.Init(file), steps).client;
      var cs := P.Chunks(file, c.blkSize);
      && (forall b :: b in cs ==> |b| >= S.HD_LEN) && |Flat(cs)| >= S.ALL_CRC_LEN && Flat(cs) == file
      && (forall e :: e in c.stored ==> |e.1| >= S.HD_LEN)
      && var s := Replay(f, s0, c.stored);
      && (s.headers != [] <==> S.Fits(cs, first) && S.CrcOk(f, cs))
      && (S.Fits(cs, first) && (S.CrcOk(f, cs) ==> S.HeaderApart(cs, first, s0.dev)) ==>
            S.ImageInPlace(f, s.dev, cs, first))
  {
    hide P.Run, P.Chunks, P.Log, S.Stored, S.StoreAll, S.ImageInPlace, S.HeaderApart, S.Crc;
    P.TransferSafe(file, steps);
    var c := P.Run(P.Init(file), steps).client;
    var cs := P.Chunks(file, c.blkSize);
    S.GoodBlocksAreLong(cs, first);
    ReplayOfLog(f, s0, cs, |cs|);
    assert cs[..|cs|] == cs;
    P.ChunksMakeTheFile(file, c.blkSize);
    S.ImageCorrect(f, s0, cs, first);
  }

  lemma {:induction false} ChunksOfBlocks(blocks: seq<seq<byte>>, blk: nat)
    requires blk > 0 && |blocks| > 0 && |blocks[|blocks| - 1]| < blk
    requires forall k :: 0 <= k < |blocks| - 1 ==> |blocks[k]| == blk
    ensures P.Chunks(Flat(blocks), blk) == blocks
    decreases |blocks|
  {
    var rest := blocks[1..];
    FlatCons(blocks[0], rest);
    assert [blocks[0]] + rest == blocks;
    if |blocks| == 1 {
      assert Flat(rest) == [] && blocks[0] + [] == blocks[0];
    } else {
      var file := Flat(blocks);
      assert file[..blk] == blocks[0] && file[blk..] == Flat(rest);
      ChunksOfBlocks(rest, blk);
    }
  }

  /** The upgrade on bytes: the file on the server is the packets of an image in a row, ending with
      four bytes `crc`. When the client, transferring in blocks of 1048, reports success, the boot
      loader's header has been written to the address in the header field for it, exactly if the
      image fits below 0x200000 and the checksum of all other bytes of the file is `crc`; flash then
      holds the pieces in a row from the address in the last header field on, and that header. */
  lemma UpgradeFromBytes(f: S.CrcStep, s0: S.Store, steps: seq<P.Step>, blocks: seq<seq<byte>>,
                         pieces: seq<seq<byte>>, h: S.PacketHd, covered: seq<byte>, crc: u32)
    requires S.PacketsOf(blocks, pieces, h) && |pieces[|pieces| - 1]| < 1024
    requires h.os1FlashAddr % 0x1000 == 0 && h.os1FlashAddr >= 0x27000
    requires Flat(blocks) == covered + ToLe32(crc)
    requires S.DeviceOk(s0.dev) && s0.dev.clean && s0.headers == []
    requires var c := P.Run(P.Init(Flat(blocks)), steps).client; c.done && c.blkSize == 1048
    ensures var c := P.Run(P.Init(Flat(blocks)), steps).client;
      (forall e :: e in c.stored ==> |e.1| >= S.HD_LEN)
      && var s := Replay(f, s0, c.stored);
      var good := h.os1FlashAddr + (|blocks| - 1) * 1024 < 0x200000 && S.Crc(f, 0, covered) == crc;
      var hd := ToLe32(h.os1FlashAddr) + ToLe32(h.totalLen) + ToLe32(h.os0ExAddr) + ToLe32(h.os0FlashAddr)
                + ToLe32(h.osHdAddr) + ToLe32(crc) + [1, 0, 0, 0] + [0, 0, 0, 0];
      var sector, lastSector := h.osHdAddr / 0x1000, (h.os1FlashAddr + (|blocks| - 1) * 1024) / 0x1000;
      && s.headers == (if good then [(h.osHdAddr, hd)] else [])
      && (good && !(h.os1FlashAddr / 0x1000 <= sector <= lastSector) && h.osHdAddr % 0x1000 + 32 <= 0x1000
          && (sector + 1) * 0x1000 <= |s0.dev.cells| ==>
            && h.os1FlashAddr + |Flat(pieces)| <= |s.dev.cells| && h.osHdAddr + 32 <= |s.dev.cells|
            && s.dev.cells[h.os1FlashAddr..h.os1FlashAddr + |Flat(pieces)|] == Flat(pieces)
            && s.dev.cells[h.osHdAddr..h.osHdAddr + 32] == hd)
  {
    hide P.Run, P.Chunks, P.Log, S.Stored, S.StoreAll, S.Crc, S.HdBytes, ToLe32, Flat;
    var file := Flat(blocks);
    PacketSizes(blocks, pieces, h);
    ChunksOfBlocks(blocks, 1048);
    P.TransferSafe(file, steps);
    S.ImageFromBytes(f, s0, blocks, pieces, h, covered, crc);
    ReplayOfLog(f, s0, blocks, |blocks|);
    assert blocks[..|blocks|] == blocks;
  }

  lemma PacketSizes(blocks: seq<seq<byte>>, pieces: seq<seq<byte>>, h: S.PacketHd)
    requires S.PacketsOf(blocks, pieces, h)
    ensures forall k :: 0 <= k < |blocks| ==> |blocks[k]| == S.HD_LEN + |pieces[k]|
  {
    hide S.HdBytes;
  }

  // ---------------------------------------------------------------- which files make good packets

  lemma {:induction false} LastChunk(file: seq<byte>, blk: nat)
    requires blk > 0
    ensures var cs := P.Chunks(file, blk);
      && |cs[|cs| - 1]| == Mod(|file|, blk)
      && (forall k :: 0 <= k < |cs| - 1 ==> |cs[k]| == blk)
    decreases |file|
  {
    if |file| >= blk {
      LastChunk(file[blk..], blk);
      var rest := P.Chunks(file[blk..], blk);
      assert P.Chunks(file, blk) == [file[..blk]] + rest;
    }
  }

  /** The sizes that a good image asks of its packets. */
  ghost predicate SizesOk(cs: seq<seq<byte>>) {
    && (forall k :: 0 <= k < |cs| ==> S.HD_LEN <= |cs[k]| <= S.HD_LEN + S.CHUNK)
    && (forall k :: 0 <= k < |cs| - 1 ==> |cs[k]| == S.HD_LEN + S.CHUNK)
  }

  /** With the block size that the client asks for, the packets of a file have the sizes of a
      good image if and only if its last, short block still holds a packet header. */
  lemma SizesOfFile(file: seq<byte>)
    ensures SizesOk(P.Chunks(file, S.HD_LEN + S.CHUNK)) <==> |file| % (S.HD_LEN + S.CHUNK) >= S.HD_LEN
  {
    hide P.Chunks, Mod, SizesOk;
    LastChunk(file, S.HD_LEN + S.CHUNK);
    ModIsRemainder(|file|, S.HD_LEN + S.CHUNK);
    SizesOfChunks(P.Chunks(file, S.HD_LEN + S.CHUNK));
  }

  lemma SizesOfChunks(cs: seq<seq<byte>>)
    requires |cs| > 0 && |cs[|cs| - 1]| <= S.HD_LEN + S.CHUNK
    requires forall k :: 0 <= k < |cs| - 1 ==> |cs[k]| == S.HD_LEN + S.CHUNK
    ensures SizesOk(cs) <==> |cs[|cs| - 1]| >= S.HD_LEN
  {
  }

  lemma GoodImageSizes(cs: seq<seq<byte>>, first: nat)
    requires S.GoodImage(cs, first)
    ensures SizesOk(cs)
  {
    forall k | 0 <= k < |cs|
      ensures S.GoodBlock(cs[k], k, |cs|)
    {
    }
  }

  /** For every other file, exact multiples of the block size included, the last packet is
      shorter than its header, and the length that store_block computes for the flash write
      has wrapped around. */
  lemma ShortLastPacket(file: seq<byte>, blk: nat)
    requires blk > 0 && |file| % blk < S.HD_LEN
    ensures var cs := P.Chunks(file, blk);
      && |cs[|cs| - 1]| == |file| % blk
      && Wrap(|cs[|cs| - 1]| - S.HD_LEN) >= 0xFFFF_FFE8
      && forall first :: !S.GoodImage(cs, first)
  {
    hide P.Chunks, Mod;
    var cs := P.Chunks(file, blk);
    LastChunk(file, blk);
    ModIsRemainder(|file|, blk);
    forall first
      ensures !S.GoodImage(cs, first)
    {
      if S.GoodImage(cs, first) {
        GoodImageSizes(cs, first);
      }
    }
  }
}
