/** app/tftp/tftpclient.c, store_block: the OTA image writer behind the TFTP client. Every
    packet carries a 24-byte header followed by the image bytes; a CRC runs over all of it. */
module TftpStore {
  import opened Words
  import opened Seqs
  import opened Flash

  const HD_LEN: nat := 24
  const ALL_CRC_LEN: nat := 4
  const IMG_HD_LEN: nat := 32
  const WINDOW_LOW: u32 := 0x27000
  const WINDOW_HIGH: u32 := 0x200000
  const CHUNK: nat := 1024

  /** SEND_PTK_HD, the header at the front of every packet. */
  datatype PacketHd = PacketHd(totalLen: u32, seqNo: u16, totalSeq: u16,
                               os0ExAddr: u32, osHdAddr: u32, os0FlashAddr: u32, os1FlashAddr: u32)

  function ParseHd(src: seq<byte>): PacketHd
    requires |src| >= HD_LEN
  {
    PacketHd(Le32(src[0..4]), Le16(src[4..6]), Le16(src[6..8]),
             Le32(src[8..12]), Le32(src[12..16]), Le32(src[16..20]), Le32(src[20..24]))
  }

  /** IMG_HEAD as written to flash for the boot loader; `status` is 1 and `bk` is 0. */
  function ImgHd(h: PacketHd, crc: u32): (b: seq<byte>)
    ensures |b| == IMG_HD_LEN
  {
    ToLe32(h.os1FlashAddr) + ToLe32(h.totalLen) + ToLe32(h.os0ExAddr) + ToLe32(h.os0FlashAddr)
    + ToLe32(h.osHdAddr) + ToLe32(crc) + ToLe32(1) + ToLe32(0)
  }

  /** A packet header field by field, as send_data_hd lays it out. */
  function HdBytes(h: PacketHd): (b: seq<byte>)
    ensures |b| == HD_LEN
  {
    ToLe32(h.totalLen) + [h.seqNo % 0x100, h.seqNo / 0x100] + [h.totalSeq % 0x100, h.totalSeq / 0x100]
    + ToLe32(h.os0ExAddr) + ToLe32(h.osHdAddr) + ToLe32(h.os0FlashAddr) + ToLe32(h.os1FlashAddr)
  }

  /** Where in a packet the fields lie: every header is read back, whatever follows it. */
  lemma HeaderLayout(totalLen: u32, seqNo: u16, totalSeq: u16, ex: u32, hd: u32, os0: u32, os1: u32, rest: seq<byte>)
    ensures var src := ToLe32(totalLen) + [seqNo % 0x100, seqNo / 0x100] + [totalSeq % 0x100, totalSeq / 0x100]
                       + ToLe32(ex) + ToLe32(hd) + ToLe32(os0) + ToLe32(os1) + rest;
      && |src| >= HD_LEN && src[HD_LEN..] == rest
      && ParseHd(src) == PacketHd(totalLen, seqNo, totalSeq, ex, hd, os0, os1)
  {
    hide ToLe32, Le32;
    var a := ToLe32(totalLen) + [seqNo % 0x100, seqNo / 0x100] + [totalSeq % 0x100, totalSeq / 0x100];
    var src := a + ToLe32(ex) + ToLe32(hd) + ToLe32(os0) + ToLe32(os1) + rest;
    assert src[0..4] == ToLe32(totalLen) && src[8..12] == ToLe32(ex) && src[12..16] == ToLe32(hd);
    assert src[16..20] == ToLe32(os0) && src[20..24] == ToLe32(os1);
    ToLe32RoundTrip(totalLen);
    ToLe32RoundTrip(ex);
    ToLe32RoundTrip(hd);
    ToLe32RoundTrip(os0);
    ToLe32RoundTrip(os1);
  }

  /** The eight words that the boot loader finds, in its order. */
  lemma ImgHdWords(h: PacketHd, crc: u32)
    ensures ImgHd(h, crc) == ToLe32(h.os1FlashAddr) + ToLe32(h.totalLen) + ToLe32(h.os0ExAddr) + ToLe32(h.os0FlashAddr)
                             + ToLe32(h.osHdAddr) + ToLe32(crc) + [1, 0, 0, 0] + [0, 0, 0, 0]
    ensures var b := ImgHd(h, crc);
      && Le32(b[0..4]) == h.os1FlashAddr && Le32(b[4..8]) == h.totalLen && Le32(b[8..12]) == h.os0ExAddr
      && Le32(b[12..16]) == h.os0FlashAddr && Le32(b[16..20]) == h.osHdAddr && Le32(b[20..24]) == crc
      && Le32(b[24..28]) == 1 && Le32(b[28..32]) == 0
  {
    hide ToLe32, Le32;
    var b := ImgHd(h, crc);
    assert ToLe32(1) == [1, 0, 0, 0] && ToLe32(0) == [0, 0, 0, 0] by { LittleEndian(1, 0, 0, 0); LittleEndian(0, 0, 0, 0); }
    assert b[0..4] == ToLe32(h.os1FlashAddr) && b[4..8] == ToLe32(h.totalLen) && b[8..12] == ToLe32(h.os0ExAddr);
    assert b[12..16] == ToLe32(h.os0FlashAddr) && b[16..20] == ToLe32(h.osHdAddr) && b[20..24] == ToLe32(crc);
    assert b[24..28] == ToLe32(1) && b[28..32] == ToLe32(0);
    ToLe32RoundTrip(h.os1FlashAddr);
    ToLe32RoundTrip(h.totalLen);
    ToLe32RoundTrip(h.os0ExAddr);
    ToLe32RoundTrip(h.os0FlashAddr);
    ToLe32RoundTrip(h.osHdAddr);
    ToLe32RoundTrip(crc);
    ToLe32RoundTrip(1);
    ToLe32RoundTrip(0);
  }

  /** One byte of co_crc32, left abstract. */
  type CrcStep = (u32, byte) -> u32

  /** co_crc32 over a run of bytes. */
  function Crc(f: CrcStep, init: u32, bytes: seq<byte>): u32 {
    if bytes == [] then init else f(Crc(f, init, bytes[..|bytes| - 1]), bytes[|bytes| - 1])
  }

  /** The statics os_data_addr and tftp_crc, the device, and the history of image-header writes. */
  datatype Store = Store(dev: Dev, addr: u32, crc: u32, headers: seq<(u32, seq<byte>)>)

  function Trailer(src: seq<byte>): u32
    requires |src| >= ALL_CRC_LEN
  {
    Le32(src[|src| - ALL_CRC_LEN..])
  }

  function WriteHeader(s: Store, h: PacketHd): Store {
    s.(dev := Program(Erase(s.dev, h.osHdAddr), h.osHdAddr, ImgHd(h, s.crc)),
       headers := s.headers + [(h.osHdAddr, ImgHd(h, s.crc))])
  }

  /** Block 0 restarts the image at the address in its header. */
  function Address(s: Store, block: u32, src: seq<byte>): u32
    requires |src| >= HD_LEN
  {
    if block == 0 then ParseHd(src).os1FlashAddr else s.addr
  }

  predicate InWindow(addr: u32) {
    WINDOW_LOW <= addr < WINDOW_HIGH
  }

  predicate IsLast(src: seq<byte>)
    requires |src| >= HD_LEN
  {
    ParseHd(src).seqNo == ParseHd(src).totalSeq
  }

  /** The part of the packet the CRC runs over: all of it, or all but the trailer. */
  function Covered(src: seq<byte>): seq<byte>
    requires |src| >= HD_LEN
  {
    if IsLast(src) then src[..|src| - ALL_CRC_LEN] else src
  }

  /** A packet inside the window: erase if a sector starts, program, run the CRC, advance. */
  function Accept(f: CrcStep, s: Store, block: u32, src: seq<byte>): Store
    requires |src| >= HD_LEN
  {
    var addr := Address(s, block, src);
    s.(dev := Append(s.dev, addr, src[HD_LEN..]),
       addr := Wrap(addr + (|src| - HD_LEN)),
       crc := Crc(f, if block == 0 then 0 else s.crc, Covered(src)))
  }

  /** store_block, with its erase-before-check order and its silent refusal outside the window. */
  function Stored(f: CrcStep, s: Store, block: u32, src: seq<byte>): Store
    requires |src| >= HD_LEN
  {
    var addr := Address(s, block, src);
    if !InWindow(addr) then
      s.(dev := if addr % SECTOR == 0 then Erase(s.dev, addr) else s.dev,
         addr := addr, crc := if block == 0 then 0 else s.crc)
    else
      var s1 := Accept(f, s, block, src);
      if IsLast(src) && s1.crc == Trailer(src) then WriteHeader(s1, ParseHd(src)) else s1
  }

  /** The first k blocks stored in order, block numbers counting from 0. */
  function StoreAll(f: CrcStep, s: Store, blocks: seq<seq<byte>>): Store
    requires forall b :: b in blocks ==> |b| >= HD_LEN
    requires |blocks| < 0x1_0000_0000
  {
    if blocks == [] then s else
      var k := |blocks| - 1;
      Stored(f, StoreAll(f, s, blocks[..k]), k, blocks[k])
  }

  // ---------------------------------------------------------------- what a good image is

  /** The image proper: the packets without their headers. */
  function Payload(blocks: seq<seq<byte>>): seq<byte>
    requires forall b :: b in blocks ==> |b| >= HD_LEN
  {
    if blocks == [] then [] else Payload(blocks[..|blocks| - 1]) + blocks[|blocks| - 1][HD_LEN..]
  }

  /** Packet k of n: numbered k + 1, full unless it is the last. */
  ghost predicate GoodBlock(b: seq<byte>, k: nat, n: nat) {
    && HD_LEN <= |b| <= HD_LEN + CHUNK
    && (k + 1 < n ==> |b| == HD_LEN + CHUNK)
    && ParseHd(b).seqNo == k + 1
    && ParseHd(b).totalSeq == n
  }

  /** A numbered sequence of packets for an image that starts at sector `first`. */
  ghost predicate GoodImage(blocks: seq<seq<byte>>, first: nat) {
    && 0 < |blocks| < 0x1_0000
    && (forall k :: 0 <= k < |blocks| ==> GoodBlock(blocks[k], k, |blocks|))
    && ParseHd(blocks[0]).os1FlashAddr == first * SECTOR
    && WINDOW_LOW <= first * SECTOR
  }

  /** The last packet still starts inside the window. */
  ghost predicate Fits(blocks: seq<seq<byte>>, first: nat) {
    first * SECTOR + (|blocks| - 1) * CHUNK < WINDOW_HIGH
  }

  ghost predicate DeviceOk(d: Dev) {
    WINDOW_HIGH <= |d.cells| < 0x100_0000
  }

  /** The CRC over all packets but the final four bytes equals those four bytes. */
  ghost predicate CrcOk(f: CrcStep, blocks: seq<seq<byte>>)
    requires |Flat(blocks)| >= ALL_CRC_LEN
  {
    Crc(f, 0, Flat(blocks)[..|Flat(blocks)| - ALL_CRC_LEN]) == Trailer(Flat(blocks))
  }

  // ---------------------------------------------------------------- the CRC runs over everything

  /** Folding block by block is folding once, and one byte is one step. */
  lemma {:induction false} CrcSplit(f: CrcStep, init: u32, a: seq<byte>, b: seq<byte>)
    ensures Crc(f, init, a + b) == Crc(f, Crc(f, init, a), b)
    ensures Crc(f, init, []) == init && forall x: byte :: Crc(f, init, [x]) == f(init, x)
    decreases |b|
  {
    forall x: byte
      ensures Crc(f, init, [x]) == f(init, x)
    {
      assert [x][..0] == [];
    }
    if b == [] {
      assert a + b == a;
    } else {
      var m := |b| - 1;
      assert (a + b)[..|a + b| - 1] == a + b[..m];
      CrcSplit(f, init, a, b[..m]);
    }
  }

  // ---------------------------------------------------------------- one packet

  /** Where the writer stands before packet k of a good image. */
  ghost predicate Standing(f: CrcStep, s: Store, d0: Dev, first: nat, top: nat, blocks: seq<seq<byte>>, k: nat)
    requires k <= |blocks| && forall b :: b in blocks ==> |b| >= HD_LEN
  {
    && Writing(d0, s.dev, first, top, Payload(blocks[..k]))
    && |Payload(blocks[..k])| == k * CHUNK && top * SECTOR < k * CHUNK + SECTOR
    && (k > 0 ==> s.addr == first * SECTOR + k * CHUNK && s.crc == Crc(f, 0, Flat(blocks[..k])))
  }

  lemma GoodBlocksAreLong(blocks: seq<seq<byte>>, first: nat)
    requires GoodImage(blocks, first)
    ensures forall b :: b in blocks ==> |b| >= HD_LEN
    ensures |Flat(blocks)| >= HD_LEN
  {
    var k := |blocks| - 1;
    assert Flat(blocks) == Flat(blocks[..k]) + blocks[k];
    assert GoodBlock(blocks[k], k, |blocks|);
    forall b | b in blocks
      ensures |b| >= HD_LEN
    {
      var i :| 0 <= i < |blocks| && blocks[i] == b;
      assert GoodBlock(blocks[i], i, |blocks|);
    }
  }

  lemma Unfold(blocks: seq<seq<byte>>, k: nat)
    requires k < |blocks| && forall b :: b in blocks ==> |b| >= HD_LEN
    ensures Payload(blocks[..k + 1]) == Payload(blocks[..k]) + blocks[k][HD_LEN..]
    ensures Flat(blocks[..k + 1]) == Flat(blocks[..k]) + blocks[k]
  {
    assert blocks[..k + 1][..k] == blocks[..k];
  }

  /** One packet inside the window is appended to the image. */
  lemma AcceptAppends(f: CrcStep, s: Store, d0: Dev, first: nat, top: nat, blocks: seq<seq<byte>>, k: nat)
    returns (top': nat)
    requires GoodImage(blocks, first) && DeviceOk(d0) && k < |blocks|
    requires forall b :: b in blocks ==> |b| >= HD_LEN
    requires Standing(f, s, d0, first, top, blocks, k)
    requires first * SECTOR + k * CHUNK < WINDOW_HIGH
    ensures InWindow(Address(s, k, blocks[k]))
    ensures var s1 := Accept(f, s, k, blocks[k]);
      && Writing(d0, s1.dev, first, top', Payload(blocks[..k + 1]))
      && s1.addr == first * SECTOR + |Payload(blocks[..k + 1])|
      && s1.crc == Crc(f, 0, Flat(blocks[..k]) + Covered(blocks[k]))
      && s1.headers == s.headers
    ensures top' == k * CHUNK / SECTOR + 1
  {
    hide Writing, Append, Crc, ParseHd;
    var b, image := blocks[k], Payload(blocks[..k]);
    assert GoodBlock(b, k, |blocks|);
    assert k == 0 ==> Address(s, k, b) == first * SECTOR;
    Unfold(blocks, k);
    RoomForSector(first, k);
    top' := AppendNext(d0, s.dev, first, top, image, b[HD_LEN..]);
    assert Flat<byte>([]) == [];
    assert blocks[..0] == [];
    CrcOfNothing(f);
    CrcSplit(f, 0, Flat(blocks[..k]), Covered(b));
  }

  lemma CrcOfNothing(f: CrcStep)
    ensures Crc(f, 0, []) == 0
  {
  }

  lemma RoomForSector(first: nat, k: nat)
    requires first * SECTOR + k * CHUNK < WINDOW_HIGH
    ensures (first + k * CHUNK / SECTOR + 1) * SECTOR <= WINDOW_HIGH
    ensures k * CHUNK % SECTOR + CHUNK <= SECTOR
  {
    BlocksInSector(k);
  }

  // ---------------------------------------------------------------- whole images

  /** A packet inside the window that is not the last is just accepted. */
  lemma StoredIsAccept(f: CrcStep, s: Store, block: u32, src: seq<byte>)
    requires |src| >= HD_LEN && InWindow(Address(s, block, src)) && !IsLast(src)
    ensures Stored(f, s, block, src) == Accept(f, s, block, src)
  {
  }

  /** The packets before the last one: flash holds their payloads, the CRC covers them. */
  lemma {:induction false} PrefixStored(f: CrcStep, s0: Store, blocks: seq<seq<byte>>, first: nat, k: nat)
    returns (top: nat)
    requires GoodImage(blocks, first) && DeviceOk(s0.dev) && k < |blocks|
    requires forall b :: b in blocks ==> |b| >= HD_LEN
    requires k > 0 ==> first * SECTOR + (k - 1) * CHUNK < WINDOW_HIGH
    requires k == 0 ==> first * SECTOR < WINDOW_HIGH
    ensures Standing(f, StoreAll(f, s0, blocks[..k]), s0.dev, first, top, blocks, k)
    ensures StoreAll(f, s0, blocks[..k]).headers == s0.headers
    decreases k
  {
    hide Writing, Append, Crc, ParseHd, Stored, Accept, Address, IsLast, Covered, InWindow;
    if k == 0 {
      top := 0;
      WritingStarts(s0.dev, first);
      assert blocks[..0] == [];
    } else {
      var j := k - 1;
      var t := PrefixStored(f, s0, blocks, first, j);
      var s := StoreAll(f, s0, blocks[..j]);
      top := AcceptAppends(f, s, s0.dev, first, t, blocks, j);
      FullChunk(f, blocks, first, j);
      StoredIsAccept(f, s, j, blocks[j]);
      assert blocks[..k][..j] == blocks[..j];
      Unfold(blocks, j);
    }
  }

  /** A packet that is not the last is full and entirely covered by the CRC. */
  lemma FullChunk(f: CrcStep, blocks: seq<seq<byte>>, first: nat, j: nat)
    requires GoodImage(blocks, first) && j + 1 < |blocks|
    ensures |blocks[j]| == HD_LEN + CHUNK && !IsLast(blocks[j]) && Covered(blocks[j]) == blocks[j]
    ensures (j * CHUNK / SECTOR + 1) * SECTOR < (j + 1) * CHUNK + SECTOR
  {
    assert GoodBlock(blocks[j], j, |blocks|);
  }

  /** The last packet, before the decision about the image header. */
  lemma LastAccepted(f: CrcStep, s0: Store, blocks: seq<seq<byte>>, first: nat)
    returns (s1: Store, top: nat)
    requires GoodImage(blocks, first) && DeviceOk(s0.dev) && Fits(blocks, first)
    requires forall b :: b in blocks ==> |b| >= HD_LEN
    ensures |Flat(blocks)| >= ALL_CRC_LEN
    ensures Writing(s0.dev, s1.dev, first, top, Payload(blocks))
    ensures s1.headers == s0.headers && s1.crc == Crc(f, 0, Flat(blocks)[..|Flat(blocks)| - ALL_CRC_LEN])
    ensures StoreAll(f, s0, blocks) ==
      if CrcOk(f, blocks) then WriteHeader(s1, ParseHd(blocks[|blocks| - 1])) else s1
    ensures top == (|blocks| - 1) * CHUNK / SECTOR + 1
  {
    hide Writing, Append, Crc, ParseHd, WriteHeader, Accept, Stored, Address, InWindow, Standing, GoodImage, DeviceOk,
      Flat, Payload, IsLast, Covered, Trailer;
    LastFacts(blocks, first);
    var k := |blocks| - 1;
    var t := PrefixStored(f, s0, blocks, first, k);
    var s := StoreAll(f, s0, blocks[..k]);
    top := AcceptAppends(f, s, s0.dev, first, t, blocks, k);
    s1 := Accept(f, s, k, blocks[k]);
    StoredLast(f, s, k, blocks[k]);
  }

  /** The last packet of a good image, and what its trailer is to all packets. */
  lemma LastFacts(blocks: seq<seq<byte>>, first: nat)
    requires GoodImage(blocks, first)
    ensures var k := |blocks| - 1; var b := blocks[k];
      && k >= 0 && blocks[..k + 1] == blocks && |b| >= HD_LEN && IsLast(b) && |Flat(blocks)| >= ALL_CRC_LEN
      && Flat(blocks)[..|Flat(blocks)| - ALL_CRC_LEN] == Flat(blocks[..k]) + Covered(b)
      && Trailer(Flat(blocks)) == Trailer(b)
  {
    hide ParseHd, Le32;
    var k := |blocks| - 1;
    assert GoodBlock(blocks[k], k, |blocks|);
    SplitTrailer(Flat(blocks[..k]), blocks[k]);
  }

  /** The last packet inside the window. */
  lemma StoredLast(f: CrcStep, s: Store, block: u32, src: seq<byte>)
    requires |src| >= HD_LEN && InWindow(Address(s, block, src)) && IsLast(src)
    ensures Stored(f, s, block, src) ==
      var s1 := Accept(f, s, block, src);
      if s1.crc == Trailer(src) then WriteHeader(s1, ParseHd(src)) else s1
  {
    hide ParseHd, Accept, WriteHeader, Address, InWindow;
  }

  lemma SplitTrailer(a: seq<byte>, b: seq<byte>)
    requires |b| >= ALL_CRC_LEN
    ensures (a + b)[..|a + b| - ALL_CRC_LEN] == a + b[..|b| - ALL_CRC_LEN]
    ensures (a + b)[|a + b| - ALL_CRC_LEN..] == b[|b| - ALL_CRC_LEN..]
  {
  }

  /** Past the end of the window every packet is refused and the writer stays there. */
  lemma {:induction false} Overrun(f: CrcStep, s0: Store, blocks: seq<seq<byte>>, first: nat, k: nat)
    requires GoodImage(blocks, first) && DeviceOk(s0.dev) && 0 < k <= |blocks|
    requires forall b :: b in blocks ==> |b| >= HD_LEN
    requires k < |blocks| || !Fits(blocks, first)
    ensures var s := StoreAll(f, s0, blocks[..k]);
      s.headers == s0.headers && (first * SECTOR + k * CHUNK >= WINDOW_HIGH ==> s.addr >= WINDOW_HIGH)
    decreases k
  {
    hide Writing, Append, Crc, ParseHd, WriteHeader, Erase;
    var j := k - 1;
    assert blocks[..k][..j] == blocks[..j];
    assert GoodBlock(blocks[j], j, |blocks|);
    if first * SECTOR + j * CHUNK < WINDOW_HIGH {
      var top := PrefixStored(f, s0, blocks, first, k);
    } else if j > 0 {
      Overrun(f, s0, blocks, first, j);
    } else {
      assert blocks[..0] == [];
    }
  }

  /** The image header's sector is none of the image's, and the header fits in it. */
  ghost predicate HeaderApart(blocks: seq<seq<byte>>, first: nat, d: Dev)
    requires |blocks| > 0 && forall b :: b in blocks ==> |b| >= HD_LEN
  {
    var hd := ParseHd(blocks[|blocks| - 1]).osHdAddr;
    && !(first <= hd / SECTOR < first + (|blocks| - 1) * CHUNK / SECTOR + 1)
    && hd % SECTOR + IMG_HD_LEN <= SECTOR
    && (hd / SECTOR + 1) * SECTOR <= |d.cells|
  }

  /** Writing the image header leaves an image in other sectors alone. */
  lemma HeaderKeepsImage(d0: Dev, d: Dev, first: nat, top: nat, image: seq<byte>, hd: u32, bytes: seq<byte>)
    requires Writing(d0, d, first, top, image) && |d0.cells| < 0x100_0000
    requires !(first <= hd / SECTOR < first + top)
    requires |bytes| == IMG_HD_LEN && hd % SECTOR + IMG_HD_LEN <= SECTOR && (hd / SECTOR + 1) * SECTOR <= |d0.cells|
    ensures var d' := Program(Erase(d, hd), hd, bytes);
      && first * SECTOR + |image| <= |d'.cells|
      && d'.cells[first * SECTOR..first * SECTOR + |image|] == image
      && hd + IMG_HD_LEN <= |d'.cells| && d'.cells[hd..hd + IMG_HD_LEN] == bytes
      && d'.clean == d0.clean
  {
    hide Sectors, ProgramCell;
    var e := Erase(d, hd);
    assert hd % 0x100_0000 == hd;
    var base := hd / SECTOR * SECTOR;
    assert base <= hd && hd + IMG_HD_LEN <= base + SECTOR;
    var d' := Program(e, hd, bytes);
    forall i | hd <= i < hd + IMG_HD_LEN
      ensures e.cells[i] == 0xFF && i / SECTOR in e.erased && d'.cells[i] == bytes[i - hd]
    {
      ProgramBlank(bytes[i - hd]);
      assert i / SECTOR == hd / SECTOR;
    }
    var start := first * SECTOR;
    forall i | start <= i < start + |image|
      ensures d'.cells[i] == image[i - start]
    {
      assert d.cells[i] == d.cells[start..start + |image|][i - start];
    }
  }

  /** OTA image correctness. For a good sequence of packets: the image header is written
      exactly when the packets fit the window and the CRC, folded block by block, equals the
      trailer; and if they fit, flash holds the concatenated payloads with every byte written
      to a blank cell of a sector erased in this run, header included. */
  lemma ImageCorrect(f: CrcStep, s0: Store, blocks: seq<seq<byte>>, first: nat)
    requires GoodImage(blocks, first) && DeviceOk(s0.dev) && s0.dev.clean
    requires (forall b :: b in blocks ==> |b| >= HD_LEN) && |Flat(blocks)| >= ALL_CRC_LEN
    ensures var s, hd := StoreAll(f, s0, blocks), ParseHd(blocks[|blocks| - 1]);
      s.headers == s0.headers + (if Fits(blocks, first) && CrcOk(f, blocks)
                                 then [(hd.osHdAddr, ImgHd(hd, Trailer(Flat(blocks))))] else [])
    ensures Fits(blocks, first) && (CrcOk(f, blocks) ==> HeaderApart(blocks, first, s0.dev)) ==>
      ImageInPlace(f, StoreAll(f, s0, blocks).dev, blocks, first)
  {
    hide Writing, Crc, ParseHd, Erase, Program, ImgHd, Payload, Flat, StoreAll, Stored, Accept, Append, Trailer;
    if !Fits(blocks, first) {
      Overrun(f, s0, blocks, first, |blocks|);
      assert blocks[..|blocks|] == blocks;
    } else {
      var s1, top := LastAccepted(f, s0, blocks, first);
      var h := ParseHd(blocks[|blocks| - 1]);
      WritingHoldsImage(s0.dev, s1.dev, first, top, Payload(blocks));
      if CrcOk(f, blocks) && HeaderApart(blocks, first, s0.dev) {
        HeaderKeepsImage(s0.dev, s1.dev, first, top, Payload(blocks), h.osHdAddr, ImgHd(h, s1.crc));
      }
    }
  }

  lemma WritingHoldsImage(d0: Dev, d: Dev, first: nat, top: nat, image: seq<byte>)
    requires Writing(d0, d, first, top, image)
    ensures first * SECTOR + |image| <= |d.cells|
    ensures d.cells[first * SECTOR..first * SECTOR + |image|] == image && d.clean == d0.clean
  {
  }

  ghost predicate ImageInPlace(f: CrcStep, d: Dev, blocks: seq<seq<byte>>, first: nat)
    requires |blocks| > 0 && (forall b :: b in blocks ==> |b| >= HD_LEN) && |Flat(blocks)| >= ALL_CRC_LEN
  {
    var image, h := Payload(blocks), ParseHd(blocks[|blocks| - 1]);
    && d.clean
    && first * SECTOR + |image| <= |d.cells|
    && d.cells[first * SECTOR..first * SECTOR + |image|] == image
    && (CrcOk(f, blocks) ==>
          h.osHdAddr + IMG_HD_LEN <= |d.cells|
          && d.cells[h.osHdAddr..h.osHdAddr + IMG_HD_LEN] == ImgHd(h, Trailer(Flat(blocks))))
  }

  // ---------------------------------------------------------------- the image from its bytes

  /** The packets of an image: each has the header of the image with its own number, followed by a
      piece of 1024 bytes, the last one possibly shorter. */
  ghost predicate PacketsOf(blocks: seq<seq<byte>>, pieces: seq<seq<byte>>, h: PacketHd) {
    && 0 < |blocks| == |pieces| < 0x1_0000
    && (forall k :: 0 <= k < |blocks| ==>
          blocks[k] == HdBytes(h.(seqNo := k + 1, totalSeq := |blocks|)) + pieces[k])
    && (forall k :: 0 <= k < |pieces| ==> |pieces[k]| <= 1024 && (k + 1 < |pieces| ==> |pieces[k]| == 1024))
  }

  lemma PacketOf(h: PacketHd, piece: seq<byte>)
    ensures var src := HdBytes(h) + piece; src[HD_LEN..] == piece && ParseHd(src) == h
  {
    hide ToLe32, Le32, ParseHd;
    HeaderLayout(h.totalLen, h.seqNo, h.totalSeq, h.os0ExAddr, h.osHdAddr, h.os0FlashAddr, h.os1FlashAddr, piece);
  }

  lemma PacketsAreGood(blocks: seq<seq<byte>>, pieces: seq<seq<byte>>, h: PacketHd)
    requires PacketsOf(blocks, pieces, h) && h.os1FlashAddr % 0x1000 == 0 && h.os1FlashAddr >= 0x27000
    ensures GoodImage(blocks, h.os1FlashAddr / 0x1000)
    ensures ParseHd(blocks[|blocks| - 1]) == h.(seqNo := |blocks|, totalSeq := |blocks|)
    ensures forall k :: 0 <= k < |blocks| ==> |blocks[k]| >= HD_LEN && blocks[k][HD_LEN..] == pieces[k]
  {
    hide ParseHd, HdBytes;
    forall k | 0 <= k < |blocks|
      ensures GoodBlock(blocks[k], k, |blocks|) && blocks[k][HD_LEN..] == pieces[k]
      ensures ParseHd(blocks[k]) == h.(seqNo := k + 1, totalSeq := |blocks|)
    {
      PacketOf(h.(seqNo := k + 1, totalSeq := |blocks|), pieces[k]);
    }
    assert GoodBlock(blocks[0], 0, |blocks|);
  }

  lemma {:induction false} PayloadIsFlat(blocks: seq<seq<byte>>, pieces: seq<seq<byte>>, k: nat)
    requires k <= |blocks| == |pieces|
    requires forall i :: 0 <= i < |blocks| ==> |blocks[i]| >= HD_LEN && blocks[i][HD_LEN..] == pieces[i]
    ensures Payload(blocks[..k]) == Flat(pieces[..k])
  {
    if k > 0 {
      PayloadIsFlat(blocks, pieces, k - 1);
      Unfold(blocks, k - 1);
      FlatNext(pieces, k - 1);
    }
  }

  /** OTA image correctness on bytes. The packets of an image, whose last one ends with four bytes
      `crc`: the image starts at the address in the last header field. The boot loader's header goes
      to the address in the field before the last but one, exactly if the image fits below 0x200000
      and the checksum of all packets but those four bytes is `crc`; and then flash holds the
      pieces in a row, and the header, word by word. */
  lemma ImageFromBytes(f: CrcStep, s0: Store, blocks: seq<seq<byte>>, pieces: seq<seq<byte>>, h: PacketHd,
                       covered: seq<byte>, crc: u32)
    requires PacketsOf(blocks, pieces, h) && h.os1FlashAddr % 0x1000 == 0 && h.os1FlashAddr >= 0x27000
    requires Flat(blocks) == covered + ToLe32(crc)
    requires DeviceOk(s0.dev) && s0.dev.clean
    ensures forall b :: b in blocks ==> |b| >= HD_LEN
    ensures var s := StoreAll(f, s0, blocks);
      var good := h.os1FlashAddr + (|blocks| - 1) * 1024 < 0x200000 && Crc(f, 0, covered) == crc;
      var hd := ToLe32(h.os1FlashAddr) + ToLe32(h.totalLen) + ToLe32(h.os0ExAddr) + ToLe32(h.os0FlashAddr)
                + ToLe32(h.osHdAddr) + ToLe32(crc) + [1, 0, 0, 0] + [0, 0, 0, 0];
      var sector, lastSector := h.osHdAddr / 0x1000, (h.os1FlashAddr + (|blocks| - 1) * 1024) / 0x1000;
      && s.headers == s0.headers + (if good then [(h.osHdAddr, hd)] else [])
      && (good && !(h.os1FlashAddr / 0x1000 <= sector <= lastSector) && h.osHdAddr % 0x1000 + 32 <= 0x1000
          && (sector + 1) * 0x1000 <= |s0.dev.cells| ==>
            && s.dev.clean && |s.dev.cells| == |s0.dev.cells|
            && h.os1FlashAddr + |Flat(pieces)| <= |s.dev.cells|
            && s.dev.cells[h.os1FlashAddr..h.os1FlashAddr + |Flat(pieces)|] == Flat(pieces)
            && h.osHdAddr + 32 <= |s.dev.cells| && s.dev.cells[h.osHdAddr..h.osHdAddr + 32] == hd)
  {
    hide ParseHd, HdBytes, Crc, ToLe32, Le32, StoreAll, Payload, Flat, HeaderApart, GoodImage, ImgHd, Trailer, ImageInPlace;
    var first := h.os1FlashAddr / 0x1000;
    PacketsAreGood(blocks, pieces, h);
    GoodBlocksAreLong(blocks, first);
    PayloadIsFlat(blocks, pieces, |blocks|);
    assert blocks[..|blocks|] == blocks && pieces[..|pieces|] == pieces;
    TrailerBehind(covered, crc);
    ImageCorrect(f, s0, blocks, first);
    var hd, d := ParseHd(blocks[|blocks| - 1]), StoreAll(f, s0, blocks).dev;
    ImgHdWords(hd, crc);
    StoreKeepsSize(f, s0, blocks);
    SectorsApart(blocks, h, s0.dev);
    if ImageInPlace(f, d, blocks, first) && CrcOk(f, blocks) {
      InPlaceMeans(f, d, blocks, first, Flat(pieces), hd, crc);
    }
  }

  lemma InPlaceMeans(f: CrcStep, d: Dev, blocks: seq<seq<byte>>, first: nat, image: seq<byte>, h: PacketHd, crc: u32)
    requires |blocks| > 0 && (forall b :: b in blocks ==> |b| >= HD_LEN) && |Flat(blocks)| >= ALL_CRC_LEN
    requires ImageInPlace(f, d, blocks, first) && CrcOk(f, blocks)
    requires Payload(blocks) == image && ParseHd(blocks[|blocks| - 1]) == h && Trailer(Flat(blocks)) == crc
    ensures d.clean && first * SECTOR + |image| <= |d.cells| && h.osHdAddr + IMG_HD_LEN <= |d.cells|
    ensures d.cells[first * SECTOR..first * SECTOR + |image|] == image
    ensures d.cells[h.osHdAddr..h.osHdAddr + IMG_HD_LEN] == ImgHd(h, crc)
  {
    hide ParseHd, Crc, ImgHd, Trailer, Payload, Flat;
  }

  lemma TrailerBehind(covered: seq<byte>, crc: u32)
    ensures var all := covered + ToLe32(crc); Trailer(all) == crc && all[..|all| - ALL_CRC_LEN] == covered
  {
    hide ToLe32, Le32;
    var all := covered + ToLe32(crc);
    assert all[|all| - ALL_CRC_LEN..] == ToLe32(crc);
    ToLe32RoundTrip(crc);
  }

  lemma SectorsApart(blocks: seq<seq<byte>>, h: PacketHd, d: Dev)
    requires |blocks| > 0 && (forall b :: b in blocks ==> |b| >= HD_LEN) && h.os1FlashAddr % 0x1000 == 0
    requires ParseHd(blocks[|blocks| - 1]).osHdAddr == h.osHdAddr
    ensures var sector, lastSector := h.osHdAddr / 0x1000, (h.os1FlashAddr + (|blocks| - 1) * 1024) / 0x1000;
      (!(h.os1FlashAddr / 0x1000 <= sector <= lastSector) && h.osHdAddr % 0x1000 + 32 <= 0x1000
       && (sector + 1) * 0x1000 <= |d.cells|) ==> HeaderApart(blocks, h.os1FlashAddr / 0x1000, d)
  {
    hide ParseHd;
    BlocksInSector(|blocks| - 1);
    var q, k := h.os1FlashAddr / 0x1000, |blocks| - 1;
    SectorSplit(q + k / 4, k % 4 * 1024, h.os1FlashAddr + k * 1024);
  }

  lemma {:induction false} StoreKeepsSize(f: CrcStep, s0: Store, blocks: seq<seq<byte>>)
    requires |blocks| < 0x1_0000_0000 && forall b :: b in blocks ==> |b| >= HD_LEN
    ensures |StoreAll(f, s0, blocks).dev.cells| == |s0.dev.cells|
    decreases |blocks|
  {
    hide ParseHd, Crc, ImgHd, Erase, Program;
    if blocks != [] {
      StoreKeepsSize(f, s0, blocks[..|blocks| - 1]);
    }
  }

  // ---------------------------------------------------------------- the code

  class OtaWriter {
    const crcStep: CrcStep
    var dev: Dev
    var osDataAddr: u32
    var tftpCrc: u32
    ghost var headers: seq<(u32, seq<byte>)>

    ghost function State(): Store
      reads this
    {
      Store(dev, osDataAddr, tftpCrc, headers)
    }

    constructor (crcStep: CrcStep, dev: Dev, addr: u32)
      ensures this.crcStep == crcStep && State() == Store(dev, addr, 0, [])
    {
      this.crcStep := crcStep;
      this.dev, osDataAddr, tftpCrc, headers := dev, addr, 0, [];
    }

    method StoreBlock(block: u32, src: seq<byte>)
      requires HD_LEN <= |src| <= HD_LEN + CHUNK
      modifies this
      ensures State() == Stored(crcStep, old(State()), block, src)
      ensures var addr := if block == 0 then Le32(src[20..24]) else old(osDataAddr);
        addr < 0x27000 || addr >= 0x20_0000 ==>
          && osDataAddr == addr && headers == old(headers) && tftpCrc == (if block == 0 then 0 else old(tftpCrc))
          && dev == if addr % 0x1000 == 0 then Erase(old(dev), addr) else old(dev)
    {
      hide Erase, Program, Crc, ImgHd, Le32, Le16, ToLe32;
      var sendHd := ParseHd(src);
      if block == 0 {
        osDataAddr := sendHd.os1FlashAddr;
        tftpCrc := 0;
      }
      if osDataAddr % SECTOR == 0 {
        dev := Erase(dev, osDataAddr);
      }
      if osDataAddr >= WINDOW_HIGH || osDataAddr < WINDOW_LOW {
        return;
      }
      dev := Program(dev, osDataAddr, src[HD_LEN..]);
      if sendHd.seqNo != sendHd.totalSeq {
        tftpCrc := Crc(crcStep, tftpCrc, src);
      } else {
        var orCrc := Le32(src[|src| - ALL_CRC_LEN..]);
        tftpCrc := Crc(crcStep, tftpCrc, src[..|src| - ALL_CRC_LEN]);
        if tftpCrc == orCrc {
          dev := Erase(dev, sendHd.osHdAddr);
          dev := Program(dev, sendHd.osHdAddr, ImgHd(sendHd, orCrc));
          headers := headers + [(sendHd.osHdAddr, ImgHd(sendHd, orCrc))];
        }
      }
      osDataAddr := Wrap(osDataAddr + (|src| - HD_LEN));
    }
  }
}
