/** The NOR flash behind flash_ctrl / flash_write (driver/flash/flash.c) as an abstract
    device, and the theory of an image that is appended to it sector by sector. */
module Flash {
  import opened Words

  const SECTOR: nat := 0x1000

  /** Both updaters write blocks of 1024 bytes, four to a sector. */
  lemma BlocksInSector(b: nat)
    ensures b * 1024 / SECTOR == b / 4
    ensures b * 1024 % SECTOR == b % 4 * 1024
  {
    var q, r := b / 4, b % 4;
    assert b == 4 * q + r;
    assert b * 1024 == q * 4096 + r * 1024;
    SectorSplit(q, r * 1024, b * 1024);
  }

  lemma SectorSplit(q: nat, r: nat, n: nat)
    requires n == q * 4096 + r && r < 4096
    ensures n / 4096 == q && n % 4096 == r
  {
  }

  /** The cells, the sectors erased during this run, and whether every byte programmed in
      this run went to a cell that was blank and in such a sector. */
  datatype Dev = Dev(cells: seq<byte>, erased: set<nat>, clean: bool)

  lemma {:induction false} AndBelow(a: nat, b: nat)
    ensures And(a, b) <= a
  {
    if a > 0 && b > 0 {
      AndBelow(a / 2, b / 2);
    }
  }

  /** Programming can only clear bits, so the value of a cell never grows. */
  function ProgramCell(cell: byte, value: byte): (r: byte)
    ensures r <= cell
  {
    AndBelow(cell, value);
    And(cell, value)
  }

  lemma {:induction false} AndSym(a: nat, b: nat)
    ensures And(a, b) == And(b, a)
  {
    if a > 0 && b > 0 {
      AndSym(a / 2, b / 2);
    }
  }

  /** A blank cell takes any value as it is. */
  lemma ProgramBlank(b: byte)
    ensures ProgramCell(0xFF, b) == b
  {
    hide And, Mod;
    AndSym(0xFF, b);
    AndMask(b, 8);
    ModIsRemainder(b, 256);
    assert Pow2(8) == 256;
  }

  /** Bit by bit, a cell keeps a one only where the value has one as well. */
  lemma ProgramBits(cell: byte, value: byte, k: nat)
    ensures Bit(ProgramCell(cell, value), k) == if Bit(cell, k) == 1 && Bit(value, k) == 1 then 1 else 0
  {
    AndBits(cell, value, k);
  }

  /** flash_erase_sector: the address selects its sector; addresses beyond the device are refused. */
  function Erase(d: Dev, address: u32): (r: Dev)
    ensures |r.cells| == |d.cells|
  {
    var base := address % 0x100_0000 / SECTOR * SECTOR;
    if base >= |d.cells| then d
    else Dev(seq(|d.cells|, i requires 0 <= i < |d.cells| => if base <= i < base + SECTOR then 0xFF else d.cells[i]),
             d.erased + {base / SECTOR}, d.clean)
  }

  /** Whatever address in it is given, the sector is blank afterwards and nothing else changed;
      addresses count modulo 16 MiB, and sectors beyond the device are refused. */
  lemma EraseMeans(d: Dev, address: u32, s: nat)
    requires s == address % 0x100_0000 / 0x1000
    ensures if s * 0x1000 >= |d.cells| then Erase(d, address) == d
            else var e := Erase(d, address);
              && e.clean == d.clean && e.erased == d.erased + {s}
              && (forall i :: 0 <= i < |d.cells| ==> e.cells[i] == if i / 0x1000 == s then 0xFF else d.cells[i])
  {
    hide And;
    forall i: nat
      ensures s * 0x1000 <= i < s * 0x1000 + 0x1000 <==> i / 0x1000 == s
    {
    }
  }

  /** flash_write: refused when the run leaves the device. */
  function Program(d: Dev, address: u32, data: seq<byte>): (r: Dev)
    ensures |r.cells| == |d.cells|
  {
    var base := address / 32 * 32;
    if base >= |d.cells| || base + |data| > |d.cells| then d
    else Dev(seq(|d.cells|, i requires 0 <= i < |d.cells| =>
               if address <= i < address + |data| then ProgramCell(d.cells[i], data[i - address]) else d.cells[i]),
             d.erased,
             d.clean && forall i :: address <= i < address + |data| && i < |d.cells| ==>
               d.cells[i] == 0xFF && i / SECTOR in d.erased)
  }

  /** A device that is still clean after a write reads back what was written. */
  lemma CleanReadsBack(d: Dev, address: u32, data: seq<byte>)
    requires address + |data| <= |d.cells| && data != [] && Program(d, address, data).clean
    ensures Program(d, address, data).cells[address..address + |data|] == data
    ensures forall i :: address <= i < address + |data| ==> i / SECTOR in d.erased
    ensures d.clean && SameOutside(d, Program(d, address, data), address, address + |data|)
  {
    hide ProgramCell;
    var p := Program(d, address, data);
    forall i | address <= i < address + |data|
      ensures p.cells[i] == data[i - address] && i / SECTOR in d.erased
    {
      ProgramBlank(data[i - address]);
    }
  }

  /** The common step of both OTA writers: erase when a sector starts, then program. */
  function Append(d: Dev, address: u32, data: seq<byte>): (r: Dev)
    ensures |r.cells| == |d.cells|
  {
    Program(if address % SECTOR == 0 then Erase(d, address) else d, address, data)
  }

  ghost predicate SameOutside(d0: Dev, d: Dev, lo: nat, hi: nat) {
    && |d.cells| == |d0.cells|
    && forall i :: 0 <= i < |d.cells| && !(lo <= i < hi) ==> d.cells[i] == d0.cells[i]
  }

  /** The sectors first, ..., first + n - 1. */
  ghost function Sectors(first: nat, n: nat): set<nat> {
    if n == 0 then {} else Sectors(first, n - 1) + {first + n - 1}
  }

  lemma {:induction false} InSectors(first: nat, n: nat, s: nat)
    ensures s in Sectors(first, n) <==> first <= s < first + n
  {
    if n > 0 {
      InSectors(first, n - 1, s);
    }
  }

  /** An image being appended from the start of sector `first`, `top` sectors of which have
      been erased: it is in the cells so far, the rest of those sectors is blank, only they
      were erased, nothing outside them changed, and every byte went to a blank cell. */
  ghost predicate Writing(d0: Dev, d: Dev, first: nat, top: nat, image: seq<byte>) {
    var start, limit := first * SECTOR, (first + top) * SECTOR;
    && limit <= |d0.cells| && limit < 0x100_0000
    && start + |image| <= limit
    && SameOutside(d0, d, start, limit)
    && d.cells[start..start + |image|] == image
    && (forall i :: start + |image| <= i < limit ==> d.cells[i] == 0xFF)
    && d.erased == d0.erased + Sectors(first, top)
    && d.clean == d0.clean
  }

  lemma WritingStarts(d0: Dev, first: nat)
    requires first * SECTOR <= |d0.cells| && first * SECTOR < 0x100_0000
    ensures Writing(d0, d0, first, 0, [])
  {
  }

  /** Erasing the next sector. */
  lemma EraseNext(d0: Dev, d: Dev, first: nat, top: nat, image: seq<byte>)
    requires Writing(d0, d, first, top, image) && |image| == top * SECTOR
    requires (first + top + 1) * SECTOR <= |d0.cells| && (first + top + 1) * SECTOR < 0x100_0000
    ensures Writing(d0, Erase(d, (first + top) * SECTOR), first, top + 1, image)
  {
    var address := (first + top) * SECTOR;
    var e := Erase(d, address);
    assert address % 0x100_0000 / SECTOR * SECTOR == address && address / SECTOR == first + top;
    assert Sectors(first, top + 1) == Sectors(first, top) + {first + top};
    assert e.cells[first * SECTOR..address] == d.cells[first * SECTOR..address];
  }

  /** Programming blank cells of erased sectors. */
  lemma ProgramOnBlank(d: Dev, address: u32, data: seq<byte>)
    requires data != [] && address + |data| <= |d.cells|
    requires forall i :: address <= i < address + |data| ==> d.cells[i] == 0xFF && i / SECTOR in d.erased
    ensures var p := Program(d, address, data);
      && p.cells[address..address + |data|] == data && p.clean == d.clean && p.erased == d.erased
      && SameOutside(d, p, address, address + |data|)
  {
    hide ProgramCell;
    var p := Program(d, address, data);
    forall i | address <= i < address + |data|
      ensures p.cells[i] == data[i - address]
    {
      ProgramBlank(data[i - address]);
    }
  }

  lemma ProgramNothing(d: Dev, address: u32)
    ensures Program(d, address, []) == d
  {
  }

  /** Programming a chunk into the blank rest of the erased sectors. */
  lemma ProgramNext(d0: Dev, d: Dev, first: nat, top: nat, image: seq<byte>, data: seq<byte>)
    requires Writing(d0, d, first, top, image) && |image| + |data| <= top * SECTOR
    ensures Writing(d0, Program(d, first * SECTOR + |image|, data), first, top, image + data)
  {
    hide Program, Sectors;
    var address := first * SECTOR + |image|;
    var p := Program(d, address, data);
    if data == [] {
      ProgramNothing(d, address);
      assert image + data == image;
    } else {
      forall i | address <= i < address + |data|
        ensures d.cells[i] == 0xFF && i / SECTOR in d.erased
      {
        InSectors(first, top, i / SECTOR);
      }
      ProgramOnBlank(d, address, data);
      assert p.cells[first * SECTOR..address] == d.cells[first * SECTOR..address] == image;
      assert p.cells[first * SECTOR..address + |data|] == p.cells[first * SECTOR..address] + p.cells[address..address + |data|];
    }
  }

  /** One step of an OTA writer keeps the image growing, provided the chunk stays within the
      current sector and the device has room for the sector. */
  lemma AppendNext(d0: Dev, d: Dev, first: nat, top: nat, image: seq<byte>, data: seq<byte>) returns (top': nat)
    requires Writing(d0, d, first, top, image) && top * SECTOR < |image| + SECTOR
    requires |image| % SECTOR + |data| <= SECTOR
    requires (first + |image| / SECTOR + 1) * SECTOR <= |d0.cells|
    requires (first + |image| / SECTOR + 1) * SECTOR < 0x100_0000
    ensures Writing(d0, Append(d, first * SECTOR + |image|, data), first, top', image + data)
    ensures data != [] ==> top' * SECTOR < |image + data| + SECTOR
    ensures top' == |image| / SECTOR + 1
  {
    hide Writing, Erase, Program, Sectors;
    WritingBounds(d0, d, first, top, image);
    SectorCount(|image|, top);
    var address := first * SECTOR + |image|;
    assert address % SECTOR == |image| % SECTOR;
    top' := top;
    var e := d;
    if address % SECTOR == 0 {
      EraseNext(d0, d, first, top, image);
      e := Erase(d, address);
      top' := top + 1;
    }
    ProgramNext(d0, e, first, top', image, data);
  }

  lemma WritingBounds(d0: Dev, d: Dev, first: nat, top: nat, image: seq<byte>)
    requires Writing(d0, d, first, top, image)
    ensures |image| <= top * SECTOR
  {
  }

  /** How many sectors an image of a given size has begun. */
  lemma SectorCount(size: nat, top: nat)
    requires size <= top * SECTOR < size + SECTOR
    ensures top == if size % SECTOR == 0 then size / SECTOR else size / SECTOR + 1
  {
  }
}
