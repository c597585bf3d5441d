/** partition_format: the layout it works out, the bit it clears too many, the empty tree it
    leaves, and that mounting the partition afterwards takes the layout back from the super
    block and gives a file system in order. */
module Format {
  import opened Bytes
  import opened Bitmaps
  import opened Inodes
  import opened Volumes
  import opened FsSteps
  import opened FsState
  import opened DirSector
  import FsCalls
  import DT = DirTree

  const BITS_PER_SECTOR := 4096

  function DivRoundUp(x: nat, step: nat): nat
    requires step > 0
  {
    (x + step - 1) / step
  }

  /** Sectors left after the boot sector, the super block, the inode map and the table. */
  function FreeSects(secCnt: nat): nat
    requires secCnt >= 611
  {
    secCnt - 611
  }

  function BitLen(secCnt: nat): nat
    requires secCnt >= 611
  {
    FreeSects(secCnt) - DivRoundUp(FreeSects(secCnt), BITS_PER_SECTOR)
  }

  /** block_bitmap_sects, worked out a second time from what is left for the map to cover. */
  function MapSects(secCnt: nat): nat
    requires secCnt >= 611
  {
    DivRoundUp(BitLen(secCnt), BITS_PER_SECTOR)
  }

  /** Bits of the map that are left clear, and bit 0: one more than there are sectors,
      unless the map's last sector is full. */
  function Usable(secCnt: nat): nat
    requires secCnt >= 611
  {
    if BitLen(secCnt) % BITS_PER_SECTOR == 0 then BitLen(secCnt) else BitLen(secCnt) + 1
  }

  /** The map's last sector is not full and the second reckoning of its size came to the same as
      the first: then the bit cleared too many is that of the sector after the partition. */
  predicate Extra(secCnt: nat)
    requires secCnt >= 611
  {
    BitLen(secCnt) % BITS_PER_SECTOR != 0 && MapSects(secCnt) == DivRoundUp(FreeSects(secCnt), BITS_PER_SECTOR)
  }

  /** The sectors the map offers, as far as the disk goes. */
  function Layout(start: nat, secCnt: nat, sectors: nat): Geo
    requires secCnt >= 611
  {
    var inodeMap := start + 2 + MapSects(secCnt);
    Geo(start + 2, inodeMap, inodeMap + 1, inodeMap + 609,
        if inodeMap + 609 + Usable(secCnt) <= sectors then Usable(secCnt) else BitLen(secCnt), sectors)
  }

  lemma ExtraSector(start: nat, secCnt: nat, sectors: nat)
    requires secCnt >= 613
    ensures var g := Layout(start, secCnt, sectors);
            && g.dataLba + BitLen(secCnt) <= start + secCnt
            && (g.dataLba + Usable(secCnt) > start + secCnt <==> Extra(secCnt))
            && (Extra(secCnt) ==> g.dataLba + Usable(secCnt) == start + secCnt + 1)
  {
  }

  lemma MapSize(secCnt: nat)
    requires secCnt >= 613
    ensures 1 <= BitLen(secCnt) && 1 <= MapSects(secCnt) && (BitLen(secCnt) >= 8 <==> secCnt >= 620)
    ensures 4096 * (MapSects(secCnt) - 1) < BitLen(secCnt) <= 4096 * MapSects(secCnt)
  {
  }

  lemma LayoutValid(start: nat, secCnt: nat, sectors: nat)
    requires secCnt >= 613 && start + secCnt <= sectors < MINUS_ONE
    ensures Layout(start, secCnt, sectors).Valid()
    ensures 1 <= BitLen(secCnt) && 1 <= MapSects(secCnt) && (BitLen(secCnt) >= 8 <==> secCnt >= 620)
    ensures 4096 * (MapSects(secCnt) - 1) < BitLen(secCnt) <= 4096 * MapSects(secCnt)
    ensures var g := Layout(start, secCnt, sectors);
            && g.blockMapLba == start + 2 && g.inodeMapLba == start + 2 + MapSects(secCnt) && g.tableLba == g.inodeMapLba + 1
            && g.dataLba == g.tableLba + INODE_TABLE_SECTS && g.sectors == sectors && g.usable > 0
            && (if Extra(secCnt) && start + secCnt == sectors then g.usable == BitLen(secCnt) < 4096 * MapSects(secCnt)
                else g.usable > BitLen(secCnt) || g.usable == 4096 * MapSects(secCnt))
  {
    MapSize(secCnt);
    ExtraSector(start, secCnt, sectors);
  }

  /** With no sector left for the map nothing is written for it, which ide_write refuses. */
  lemma NoMap(secCnt: nat)
    requires secCnt >= 611
    ensures MapSects(secCnt) == 0 <==> secCnt < 613
  {
  }

  /** The bytes of `buf`, which is allocated in whole pages. */
  function BufSize(secCnt: nat): nat
    requires secCnt >= 611
  {
    4096 * DivRoundUp(512 * (if MapSects(secCnt) >= INODE_TABLE_SECTS then MapSects(secCnt) else INODE_TABLE_SECTS), 4096)
  }

  /** The run of ones that is written after the map goes past the buffer. */
  predicate Overruns(secCnt: nat)
    requires secCnt >= 611
  {
    BitLen(secCnt) / 8 + (512 - BitLen(secCnt) / 8 % 512) > BufSize(secCnt)
  }

  /** It does so exactly for a map that is full, as long as the inode table or longer, and a
      whole number of pages. */
  lemma WhenOverrun(secCnt: nat)
    requires secCnt >= 613
    ensures Overruns(secCnt) <==>
              BitLen(secCnt) % BITS_PER_SECTOR == 0 && MapSects(secCnt) % 8 == 0 && MapSects(secCnt) >= INODE_TABLE_SECTS
    ensures BufSize(secCnt) >= 512 * MapSects(secCnt) && BufSize(secCnt) >= 512 * INODE_TABLE_SECTS
  {
    hide BitLen, MapSects;
    MapSize(secCnt);
    RunEnd(BitLen(secCnt), MapSects(secCnt));
    WholePages(if MapSects(secCnt) >= INODE_TABLE_SECTS then MapSects(secCnt) else INODE_TABLE_SECTS);
  }

  lemma RunEnd(b: nat, m: nat)
    requires 4096 * (m - 1) < b <= 4096 * m
    ensures b % 4096 == 0 <==> b == 4096 * m
    ensures b == 4096 * m ==> b / 8 + (512 - b / 8 % 512) == 512 * m + 512
    ensures b < 4096 * m ==> b / 8 + (512 - b / 8 % 512) <= 512 * m
  {
    var q := b / 8;
    assert q == 512 * (q / 512) + q % 512;
  }

  lemma WholePages(x: nat)
    ensures var size := 4096 * DivRoundUp(512 * x, 4096);
            if x % 8 == 0 then size == 512 * x else size >= 512 * x + 512
  {
    assert x == 8 * (x / 8) + x % 8;
    assert DivRoundUp(512 * x, 4096) == if x % 8 == 0 then x / 8 else x / 8 + 1;
  }

  /** The block map: bit 0 for the root's block, and the bits past `bitLen` for good. With
      fewer than eight sectors the run of ones overwrites bit 0 and its clearing clears it. */
  method BlockMapImage(bitLen: nat, sects: nat, bufSize: nat) returns (buf: seq<byte>)
    requires 1 <= bitLen && 4096 * (sects - 1) < bitLen <= 4096 * sects && 512 * sects <= bufSize
    requires bitLen / 8 + (512 - bitLen / 8 % 512) <= bufSize
    ensures |buf| == bufSize
    ensures forall i: nat :: i < 4096 * sects ==> (Bit(buf, i) <==> (i == 0 && bitLen >= 8) || i > bitLen)
  {
    buf := Zeros(bufSize);
    buf := buf[0 := buf[0] | 0x80];
    var lastByte, lastBit := bitLen / 8, bitLen % 8;
    var lastSize := 512 - lastByte % 512;
    buf := Splice(buf, lastByte, seq(lastSize, _ => 0xff));
    ghost var was := buf;
    var bitIdx := 0;
    assert forall j: nat :: j < 8 ==> ByteBit(0xff, j);
    while bitIdx <= lastBit
      invariant bitIdx <= lastBit + 1
      invariant |buf| == bufSize && forall i: nat :: i < bufSize && i != lastByte ==> buf[i] == was[i]
      invariant forall j: nat :: j < 8 ==> (ByteBit(buf[lastByte], j) <==> j >= bitIdx)
    {
      ghost var b := buf[lastByte];
      buf := buf[lastByte := buf[lastByte] & !(BITMAP_MASK >> bitIdx)];
      forall j: nat | j < 8
        ensures ByteBit(buf[lastByte], j) <==> j >= bitIdx + 1
      {
        ByteWithBit(b, bitIdx, false, j);
      }
      bitIdx := bitIdx + 1;
    }
    MapBits(buf, bitLen, sects);
  }

  lemma MapBits(buf: seq<byte>, bitLen: nat, sects: nat)
    requires 1 <= bitLen && 4096 * (sects - 1) < bitLen <= 4096 * sects && 512 * sects <= |buf|
    requires bitLen / 8 + (512 - bitLen / 8 % 512) <= |buf|
    requires forall j: nat :: j < bitLen / 8 ==> buf[j] == if j == 0 then 0x80 else 0
    requires forall j: nat :: j < 8 ==> (ByteBit(buf[bitLen / 8], j) <==> j > bitLen % 8)
    requires forall j: nat :: bitLen / 8 < j < bitLen / 8 + (512 - bitLen / 8 % 512) ==> buf[j] == 0xff
    ensures forall i: nat :: i < 4096 * sects ==> (Bit(buf, i) <==> (i == 0 && bitLen >= 8) || i > bitLen)
  {
    assert forall j: nat :: j < 8 ==> ByteBit(0xff, j) && !ByteBit(0, j) && (ByteBit(0x80, j) <==> j == 0);
    hide ByteBit;
    forall i: nat | i < 4096 * sects
      ensures Bit(buf, i) <==> (i == 0 && bitLen >= 8) || i > bitLen
    {
      MapByte(bitLen, sects, i);
    }
  }

  lemma MapByte(bitLen: nat, sects: nat, i: nat)
    requires 1 <= bitLen && 4096 * (sects - 1) < bitLen <= 4096 * sects && i < 4096 * sects
    ensures i / 8 == bitLen / 8 ==> (i % 8 > bitLen % 8 <==> i > bitLen)
    ensures i / 8 < bitLen / 8 ==> i < bitLen
    ensures i / 8 > bitLen / 8 ==> i > bitLen && i / 8 < bitLen / 8 + (512 - bitLen / 8 % 512)
  {
  }

  /** The table's first bytes: inode 0, a directory of 48 bytes with its one block. */
  method RootInodeImage(bufSize: nat, dataLba: u32) returns (buf: seq<byte>)
    requires bufSize >= 76
    ensures |buf| == bufSize
    ensures Decode(buf[..76]) == DirInode(0, dataLba)
  {
    buf := Zeros(bufSize);
    buf := Splice(buf, 4, Le32(48));
    buf := Splice(buf, 0, Le32(0));
    buf := Splice(buf, 16, Le32(dataLba));
    RootWords(bufSize, dataLba);
  }

  lemma RootWords(bufSize: nat, dataLba: u32)
    requires bufSize >= 76
    ensures var buf := Splice(Splice(Splice(Zeros(bufSize), 4, Le32(48)), 0, Le32(0)), 16, Le32(dataLba));
            Decode(buf[..76]) == DirInode(0, dataLba)
  {
    hide Splice, Le32, Un32;
    var b0 := Zeros(bufSize);
    var b1 := Splice(b0, 4, Le32(48));
    var b2 := Splice(b1, 0, Le32(0));
    var buf := Splice(b2, 16, Le32(dataLba));
    var i := DirInode(0, dataLba);
    forall w: nat | w < 19
      ensures WordAt(buf[..76], w) == i.Words()[w]
    {
      WordOfPrefix(buf, 76, 4 * w);
      WordOfSplice(b2, 16, dataLba, 4 * w);
      WordOfSplice(b1, 0, 0, 4 * w);
      WordOfSplice(b0, 4, 48, 4 * w);
      WordOfZeros(bufSize, 4 * w);
    }
    DecodeByWords(buf[..76], i);
  }

  lemma WordOfPrefix(s: seq<byte>, n: nat, at: nat)
    requires at + 4 <= n <= |s|
    ensures Un32(s[..n], at) == Un32(s, at)
  {
  }

  lemma WordOfZeros(n: nat, at: nat)
    requires at + 4 <= n
    ensures Un32(Zeros(n), at) == 0
  {
  }

  /** The root's block: "." and "..", both the root. */
  method RootBlockImage() returns (buf: seq<byte>)
    ensures Holds(buf, DT.NewDir(0, 0).slots) && |buf| == 512
  {
    buf := Zeros(512);
    buf := Splice(Splice(Splice(buf, 0, DT.DOT), 16, Le32(0)), 20, Le32(2));
    buf := Splice(Splice(Splice(buf, 24, DT.DOTDOT), 40, Le32(0)), 44, Le32(2));
    FsCalls.DirBlockHolds(0, 0);
  }

  /** The inode map: the root's bit alone. */
  method InodeMapImage(bufSize: nat) returns (buf: seq<byte>)
    requires bufSize >= 512
    ensures |buf| == bufSize && forall i: nat :: i < 4096 ==> (Bit(buf[..512], i) <==> i == 0)
  {
    buf := Zeros(bufSize);
    buf := buf[0 := buf[0] | 0x80];
    assert buf[0] == 0x80;
    InodeMapBits(buf[..512]);
  }

  const FS_MAGIC := 0x19590318

  /** struct super_block before its padding. */
  function SuperWords(start: nat, secCnt: nat): (w: seq<u32>)
    requires secCnt >= 613 && start + secCnt < MINUS_ONE
    ensures |w| == 13
  {
    LayoutValid(start, secCnt, start + secCnt);
    var g := Layout(start, secCnt, start + secCnt);
    [FS_MAGIC, secCnt, MAX_FILES_PER_PART, start, g.blockMapLba, MapSects(secCnt), g.inodeMapLba, 1,
     g.tableLba, INODE_TABLE_SECTS, g.dataLba, 0, DT.ENTRY_SIZE]
  }

  /** Formats a partition of the disk. The call stops in ide_write if no sector is left for the
      map, and past its buffer if the map is such. Otherwise the super block is in place, nothing
      outside the partition's own sectors changes, and the partition holds the tree of the root
      alone exactly if it has 620 sectors or more, so that the root's block stays marked, and the
      sector offered too many, if there is one, is on the disk. */
  method PartitionFormat(start: nat, secCnt: nat, pad: seq<byte>, disk: seq<byte>) returns (d: seq<byte>, halted: bool)
    requires secCnt >= 611 && start + secCnt <= |disk| / 512 < MINUS_ONE && |disk| % 512 == 0 && |pad| == 460
    ensures halted <==> secCnt < 613 || Overruns(secCnt)
    ensures !halted ==> |d| == |disk| && SuperIn(start, secCnt, pad, d)
    ensures !halted ==> (Formatted(start, secCnt, d) <==> secCnt >= 620 && (Extra(secCnt) ==> start + secCnt < |disk| / 512))
    ensures !halted ==>
      var last := 512 * Layout(start, secCnt, |disk| / 512).dataLba + 512;
      last <= |disk| && d[..512 * (start + 1)] == disk[..512 * (start + 1)] && d[last..] == disk[last..]
  {
    hide Splice, Stored, Holds, DT.NewDir, Decode, DirInode, Bit, Sec, TableOf, BitLen, MapSects, Layout, DT.EmptyTree, SuperWords, Formatted, BufSize, Overruns, Extra, SuperIn,
         WordsImage, Usable, FreeSects, DivRoundUp, ByteBit;
    NoMap(secCnt);
    var sects := MapSects(secCnt);
    if sects == 0 || Overruns(secCnt) {
      return disk, true;
    }
    halted := false;
    LayoutValid(start, secCnt, |disk| / 512);
    WhenOverrun(secCnt);
    ghost var geo := Layout(start, secCnt, |disk| / 512);
    var blockMapLba := start + 2;
    var inodeMapLba := blockMapLba + sects;
    var tableLba := inodeMapLba + 1;
    var dataLba := tableLba + INODE_TABLE_SECTS;
    var bufSize := BufSize(secCnt);
    var sb := WordsImage(SuperWords(start, secCnt)) + pad;
    d := Splice(disk, 512 * (start + 1), sb);
    MapFits(secCnt);
    var bitmap := BlockMapImage(BitLen(secCnt), sects, bufSize);
    d := Splice(d, 512 * blockMapLba, bitmap[..512 * sects]);
    var inodes := InodeMapImage(bufSize);
    d := Splice(d, 512 * inodeMapLba, inodes[..512]);
    var table := RootInodeImage(bufSize, dataLba);
    d := Splice(d, 512 * tableLba, table[..512 * INODE_TABLE_SECTS]);
    var block := RootBlockImage();
    d := Splice(d, 512 * dataLba, block);
    forall i: nat | i < 4096 * sects
      ensures Bit(bitmap[..512 * sects], i) <==> (i == 0 && BitLen(secCnt) >= 8) || i > BitLen(secCnt)
    {
      BitOfPrefix(bitmap, 512 * sects, i);
    }
    assert table[..512 * INODE_TABLE_SECTS][..76] == table[..76];
    AllWritten(start, secCnt, pad, disk, bitmap[..512 * sects], inodes[..512], table[..512 * INODE_TABLE_SECTS], block, d);
  }

  lemma AllWritten(start: nat, secCnt: nat, pad: seq<byte>, disk: seq<byte>, bb: seq<byte>, ib: seq<byte>, table: seq<byte>, block: seq<byte>, d: seq<byte>)
    requires secCnt >= 613 && start + secCnt <= |disk| / 512 < MINUS_ONE && |disk| % 512 == 0 && |pad| == 460
    requires |bb| == 512 * MapSects(secCnt) && |ib| == 512 && |table| == 512 * INODE_TABLE_SECTS && |block| == 512
    requires var g := Layout(start, secCnt, |disk| / 512);
             && g.Valid() && g.blockMapLba == start + 2 && |disk| == 512 * g.sectors
             && Decode(table[..76]) == DirInode(0, g.dataLba)
             && var d1 := Splice(disk, 512 * (start + 1), WordsImage(SuperWords(start, secCnt)) + pad);
             && 512 * g.dataLba + 512 <= |d1| && g.inodeMapLba == g.blockMapLba + MapSects(secCnt) && g.dataLba == g.tableLba + INODE_TABLE_SECTS
             && d == Splice(Splice(Splice(Splice(d1, 512 * g.blockMapLba, bb), 512 * g.inodeMapLba, ib), 512 * g.tableLba, table), 512 * g.dataLba, block)
    requires forall i: nat :: i < 8 * |bb| ==> (Bit(bb, i) <==> (i == 0 && BitLen(secCnt) >= 8) || i > BitLen(secCnt))
    requires forall i: nat :: i < 4096 ==> (Bit(ib, i) <==> i == 0)
    requires Holds(block, DT.NewDir(0, 0).slots)
    ensures |d| == |disk| && SuperIn(start, secCnt, pad, d)
    ensures Formatted(start, secCnt, d) <==> secCnt >= 620 && (Extra(secCnt) ==> start + secCnt < |disk| / 512)
    ensures var last := 512 * Layout(start, secCnt, |disk| / 512).dataLba + 512;
            last <= |disk| && d[..512 * (start + 1)] == disk[..512 * (start + 1)] && d[last..] == disk[last..]
  {
    hide Splice, Stored, Holds, DT.NewDir, Decode, DirInode, Bit, Sec, TableOf, BitLen, MapSects, Layout, DT.EmptyTree, SuperWords, Formatted, Extra, SuperIn, WordsImage;
    LayoutValid(start, secCnt, |disk| / 512);
    var g := Layout(start, secCnt, |disk| / 512);
    var sb := WordsImage(SuperWords(start, secCnt)) + pad;
    var d1 := Splice(disk, 512 * (start + 1), sb);
    PartsWritten(g, d1, bb, ib, table, block);
    OutsideKept(g, d1, bb, ib, table, block);
    SuperWritten(disk, start, sb, g, d1, d);
    FormattedHere(start, secCnt, pad, d, g, bb, ib, block);
  }

  lemma MapFits(secCnt: nat)
    requires secCnt >= 613 && !Overruns(secCnt)
    ensures BitLen(secCnt) / 8 + (512 - BitLen(secCnt) / 8 % 512) <= BufSize(secCnt)
  {
  }

  predicate SuperIn(start: nat, secCnt: nat, pad: seq<byte>, d: seq<byte>) {
    && secCnt >= 613 && start + secCnt < MINUS_ONE
    && Sec(d, start + 1) == WordsImage(SuperWords(start, secCnt)) + pad
  }

  /** The partition holds the tree of the root alone. */
  ghost predicate Formatted(start: nat, secCnt: nat, d: seq<byte>) {
    && secCnt >= 613
    && var geo := Layout(start, secCnt, |d| / 512);
    && geo.Valid() && |d| == 512 * geo.sectors
    && Stored(geo, d, TableOf(geo, d), d[512 * geo.blockMapLba..512 * geo.inodeMapLba],
              d[512 * geo.inodeMapLba..512 * geo.tableLba], DT.EmptyTree())
  }

  lemma FormattedHere(start: nat, secCnt: nat, pad: seq<byte>, d: seq<byte>, geo: Geo, bb: seq<byte>, ib: seq<byte>, block: seq<byte>)
    requires secCnt >= 613 && start + secCnt <= |d| / 512 < MINUS_ONE && |d| % 512 == 0
    requires Sec(d, start + 1) == WordsImage(SuperWords(start, secCnt)) + pad && geo == Layout(start, secCnt, |d| / 512)
    requires geo.Valid() && |d| == 512 * geo.sectors && |bb| == 512 * MapSects(secCnt) && |ib| == 512
    requires bb == d[512 * geo.blockMapLba..512 * geo.inodeMapLba] && ib == d[512 * geo.inodeMapLba..512 * geo.tableLba]
    requires forall i: nat :: i < 8 * |bb| ==> (Bit(bb, i) <==> (i == 0 && BitLen(secCnt) >= 8) || i > BitLen(secCnt))
    requires forall i: nat :: i < 4096 ==> (Bit(ib, i) <==> i == 0)
    requires Decode(d[512 * geo.tableLba..512 * geo.tableLba + 76]) == DirInode(0, geo.dataLba)
    requires Sec(d, geo.dataLba) == block && Holds(block, DT.NewDir(0, 0).slots)
    ensures SuperIn(start, secCnt, pad, d)
    ensures Formatted(start, secCnt, d) <==> secCnt >= 620 && (Extra(secCnt) ==> start + secCnt < |d| / 512)
  {
    hide Stored, Layout, SuperWords, Sec, Bit, BitLen, MapSects, Extra, Decode, DirInode, Holds, TableOf, DT.NewDir, DT.EmptyTree;
    LayoutValid(start, secCnt, |d| / 512);
    if secCnt >= 620 && (Extra(secCnt) ==> start + secCnt < |d| / 512) {
      EmptyStored(geo, d, bb, ib, block);
    } else if secCnt < 620 {
      UnmarkedRoot(geo, d, bb, ib);
    } else {
      assert !Bit(bb, BitLen(secCnt));
      OfferedPastEnd(geo, d, bb, ib, BitLen(secCnt));
    }
  }

  /** A root whose block is not marked is not in order. */
  lemma UnmarkedRoot(geo: Geo, d: seq<byte>, bb: seq<byte>, ib: seq<byte>)
    requires geo.Valid() && |d| == 512 * geo.sectors && |ib| == 512 && Bit(ib, 0) && |bb| > 0 && !Bit(bb, 0)
    requires Decode(d[512 * geo.tableLba..512 * geo.tableLba + 76]) == DirInode(0, geo.dataLba)
    ensures !Stored(geo, d, TableOf(geo, d), bb, ib, DT.EmptyTree())
  {
    hide Decode, Sec, Bit, DT.TreeOk;
    var table := TableOf(geo, d);
    assert table[0] == TableInode(geo, d, 0) == DirInode(0, geo.dataLba);
    RootRefs(geo, d);
    if Links(geo, d, table, bb, ib) {
      assert Allocated(ib, 0);
      assert Marked(geo, bb, Ref(d, table[0], 0));
    }
  }

  /** Nor is a map that offers what is not there. */
  lemma OfferedPastEnd(geo: Geo, d: seq<byte>, bb: seq<byte>, ib: seq<byte>, x: nat)
    requires geo.Valid() && |d| == 512 * geo.sectors && geo.usable <= x < 8 * |bb| && !Bit(bb, x)
    ensures !Stored(geo, d, TableOf(geo, d), bb, ib, DT.EmptyTree())
  {
    hide Bit, DT.TreeOk, TableOf;
  }

  /** The super block stays where it was written, below the map. */
  lemma SuperWritten(disk: seq<byte>, start: nat, sb: seq<byte>, geo: Geo, d1: seq<byte>, d: seq<byte>)
    requires |sb| == 512 && 512 * (start + 2) <= |disk| && d1 == Splice(disk, 512 * (start + 1), sb)
    requires geo.blockMapLba == start + 2 && |d| == |d1| && d[..512 * geo.blockMapLba] == d1[..512 * geo.blockMapLba]
    ensures Sec(d, start + 1) == sb && d[..512 * (start + 1)] == disk[..512 * (start + 1)]
    ensures forall n: nat :: 512 * (start + 2) <= n <= |d1| ==> d1[n..] == disk[n..]
  {
    var p, q := 512 * (start + 1), 512 * (start + 2);
    SliceOfSplice(disk, p, sb, p, q);
    SliceOfSplice(disk, p, sb, 0, p);
    assert d[p..q] == d[..q][p..q] == d1[..q][p..q] == d1[p..q];
    assert d[..p] == d[..q][..p] == d1[..q][..p] == d1[..p];
  }

  /** filesys_init and mount_partition take the layout from the super block. */
  function SuperLayout(sb: seq<byte>, sectors: nat): Geo
    requires |sb| == 512 && WordAt(sb, 1) >= 611
  {
    var secCnt, dataLba := WordAt(sb, 1), WordAt(sb, 10);
    Geo(WordAt(sb, 4), WordAt(sb, 6), WordAt(sb, 8), dataLba,
        if dataLba + Usable(secCnt) <= sectors then Usable(secCnt) else BitLen(secCnt), sectors)
  }

  /** What was formatted is recognised and read back as it was laid out. */
  lemma LayoutReadsBack(start: nat, secCnt: nat, pad: seq<byte>, d: seq<byte>)
    requires SuperIn(start, secCnt, pad, d)
    ensures var sb := Sec(d, start + 1);
            && WordAt(sb, 0) == FS_MAGIC && WordAt(sb, 1) == secCnt
            && SuperLayout(sb, |d| / 512) == Layout(start, secCnt, |d| / 512)
    ensures var sb, g := Sec(d, start + 1), Layout(start, secCnt, |d| / 512);
            && WordAt(sb, 2) == 4096 && WordAt(sb, 3) == start
            && WordAt(sb, 4) == start + 2 && WordAt(sb, 4) + WordAt(sb, 5) == WordAt(sb, 6) == g.inodeMapLba
            && WordAt(sb, 6) + WordAt(sb, 7) == WordAt(sb, 8) == g.tableLba
            && WordAt(sb, 8) + WordAt(sb, 9) == WordAt(sb, 10) == g.dataLba
            && WordAt(sb, 11) == 0 && WordAt(sb, 12) == 24
  {
    hide Sec, WordAt, WordsImage, BitLen, MapSects, Usable, FreeSects;
    var sb, words := Sec(d, start + 1), SuperWords(start, secCnt);
    WordsRead(words, pad, sb);
    assert WordAt(sb, 0) == words[0] && WordAt(sb, 1) == words[1] && WordAt(sb, 4) == words[4] && WordAt(sb, 6) == words[6]
        && WordAt(sb, 8) == words[8] && WordAt(sb, 10) == words[10];
    assert WordAt(sb, 2) == words[2] && WordAt(sb, 3) == words[3] && WordAt(sb, 5) == words[5] && WordAt(sb, 7) == words[7]
        && WordAt(sb, 9) == words[9] && WordAt(sb, 11) == words[11] && WordAt(sb, 12) == words[12];
  }

  lemma WordsRead(words: seq<u32>, more: seq<byte>, sb: seq<byte>)
    requires sb == WordsImage(words) + more
    ensures forall w: nat :: w < |words| ==> WordAt(sb, w) == words[w]
  {
    forall w: nat | w < |words|
      ensures WordAt(sb, w) == words[w]
    {
      assert sb[..4 * |words|] == WordsImage(words);
      WordOfPrefix(sb, 4 * |words|, 4 * w);
      WordOfImage(words, w);
    }
  }

  /** Formatting and then mounting: a file system with the root alone, in order on the same
      condition. */
  method FormatAndMount(start: nat, secCnt: nat, pad: seq<byte>, disk: seq<byte>) returns (fs: FsCalls.FileSystem?)
    requires secCnt >= 611 && start + secCnt <= |disk| / 512 < MINUS_ONE && |disk| % 512 == 0 && |pad| == 460
    ensures fs == null <==> secCnt < 613 || Overruns(secCnt)
    ensures fs != null ==> fresh(fs) && fs.tree == DT.EmptyTree() && fs.cwd == 0
    ensures fs != null ==> (fs.Valid() <==> secCnt >= 620 && (Extra(secCnt) ==> start + secCnt < |disk| / 512))
  {
    hide Stored, Layout, SuperLayout, Overruns, Extra, SuperIn;
    var d, halted := PartitionFormat(start, secCnt, pad, disk);
    if halted {
      return null;
    }
    LayoutValid(start, secCnt, |disk| / 512);
    LayoutReadsBack(start, secCnt, pad, d);
    var sb := d[512 * (start + 1)..512 * (start + 2)];
    assert sb == Sec(d, start + 1);
    var geo := SuperLayout(sb, |d| / 512);
    fs := new FsCalls.FileSystem.Mount(geo, d, DT.EmptyTree());
  }

  lemma BitOfPrefix(s: seq<byte>, n: nat, i: nat)
    requires i < 8 * n && n <= |s|
    ensures Bit(s[..n], i) == Bit(s, i)
  {
  }

  lemma InodeMapBits(ib: seq<byte>)
    requires |ib| == 512 && ib[0] == 0x80 && forall i :: 0 < i < 512 ==> ib[i] == 0
    ensures forall i: nat :: i < 4096 ==> (Bit(ib, i) <==> i == 0)
  {
    assert forall j: nat :: j < 8 ==> !ByteBit(0, j) && (ByteBit(0x80, j) <==> j == 0);
    forall i: nat | i < 4096
      ensures Bit(ib, i) <==> i == 0
    {
      assert i / 8 == 0 && i % 8 == 0 ==> i == 0;
    }
  }

  /** The parts lie side by side: each reads back whatever else was written. */
  lemma PartsWritten(geo: Geo, d1: seq<byte>, bitmap: seq<byte>, inodes: seq<byte>, table: seq<byte>, block: seq<byte>)
    requires geo.Valid() && |d1| == 512 * geo.sectors && geo.usable > 0
    requires |bitmap| == 512 * (geo.inodeMapLba - geo.blockMapLba) && |inodes| == 512 && |table| == 512 * INODE_TABLE_SECTS && |block| == 512
    ensures var d := Splice(Splice(Splice(Splice(d1, 512 * geo.blockMapLba, bitmap), 512 * geo.inodeMapLba, inodes), 512 * geo.tableLba, table), 512 * geo.dataLba, block);
            && d[512 * geo.blockMapLba..512 * geo.inodeMapLba] == bitmap
            && d[512 * geo.inodeMapLba..512 * geo.tableLba] == inodes
            && d[512 * geo.tableLba..512 * geo.tableLba + 76] == table[..76]
            && Sec(d, geo.dataLba) == block
  {
    hide Splice;
    var d2 := Splice(d1, 512 * geo.blockMapLba, bitmap);
    var d3 := Splice(d2, 512 * geo.inodeMapLba, inodes);
    var d4 := Splice(d3, 512 * geo.tableLba, table);
    SliceOfSplice(d1, 512 * geo.blockMapLba, bitmap, 512 * geo.blockMapLba, 512 * geo.inodeMapLba);
    SliceOfSplice(d2, 512 * geo.inodeMapLba, inodes, 512 * geo.blockMapLba, 512 * geo.inodeMapLba);
    SliceOfSplice(d2, 512 * geo.inodeMapLba, inodes, 512 * geo.inodeMapLba, 512 * geo.tableLba);
    SliceOfSplice(d3, 512 * geo.tableLba, table, 512 * geo.blockMapLba, 512 * geo.inodeMapLba);
    SliceOfSplice(d3, 512 * geo.tableLba, table, 512 * geo.inodeMapLba, 512 * geo.tableLba);
    SliceOfSplice(d3, 512 * geo.tableLba, table, 512 * geo.tableLba, 512 * geo.dataLba);
    SliceOfSplice(d4, 512 * geo.dataLba, block, 512 * geo.blockMapLba, 512 * geo.inodeMapLba);
    SliceOfSplice(d4, 512 * geo.dataLba, block, 512 * geo.inodeMapLba, 512 * geo.tableLba);
    SliceOfSplice(d4, 512 * geo.dataLba, block, 512 * geo.tableLba, 512 * geo.tableLba + 76);
    SliceOfSplice(d4, 512 * geo.dataLba, block, 512 * geo.dataLba, 512 * geo.dataLba + 512);
    SliceOfSlice(d4, 512 * geo.tableLba, 512 * geo.dataLba, 0, 76);
  }

  lemma OutsideKept(geo: Geo, d1: seq<byte>, bitmap: seq<byte>, inodes: seq<byte>, table: seq<byte>, block: seq<byte>)
    requires geo.Valid() && |d1| == 512 * geo.sectors && geo.usable > 0
    requires |bitmap| == 512 * (geo.inodeMapLba - geo.blockMapLba) && |inodes| == 512 && |table| == 512 * INODE_TABLE_SECTS && |block| == 512
    ensures var d := Splice(Splice(Splice(Splice(d1, 512 * geo.blockMapLba, bitmap), 512 * geo.inodeMapLba, inodes), 512 * geo.tableLba, table), 512 * geo.dataLba, block);
            && |d| == |d1| && d[..512 * geo.blockMapLba] == d1[..512 * geo.blockMapLba]
            && d[512 * geo.dataLba + 512..] == d1[512 * geo.dataLba + 512..]
  {
    hide Splice;
    var d2 := Splice(d1, 512 * geo.blockMapLba, bitmap);
    var d3 := Splice(d2, 512 * geo.inodeMapLba, inodes);
    var d4 := Splice(d3, 512 * geo.tableLba, table);
    var lo, hi, n := 512 * geo.blockMapLba, 512 * geo.dataLba + 512, |d1|;
    SliceOfSplice(d1, 512 * geo.blockMapLba, bitmap, 0, lo);
    SliceOfSplice(d1, 512 * geo.blockMapLba, bitmap, hi, n);
    SliceOfSplice(d2, 512 * geo.inodeMapLba, inodes, 0, lo);
    SliceOfSplice(d2, 512 * geo.inodeMapLba, inodes, hi, n);
    SliceOfSplice(d3, 512 * geo.tableLba, table, 0, lo);
    SliceOfSplice(d3, 512 * geo.tableLba, table, hi, n);
    SliceOfSplice(d4, 512 * geo.dataLba, block, 0, lo);
    SliceOfSplice(d4, 512 * geo.dataLba, block, hi, n);
  }

  lemma EmptyStored(geo: Geo, d: seq<byte>, bb: seq<byte>, ib: seq<byte>, block: seq<byte>)
    requires geo.Valid() && |d| == 512 * geo.sectors && geo.usable > 0 && geo.dataLba < U32_SIZE
    requires |bb| == 512 * (geo.inodeMapLba - geo.blockMapLba) && |ib| == 512
    requires Bit(bb, 0) && forall i: nat :: geo.usable <= i < 8 * |bb| ==> Bit(bb, i)
    requires forall i: nat :: i < 4096 ==> (Bit(ib, i) <==> i == 0)
    requires Decode(d[512 * geo.tableLba..512 * geo.tableLba + 76]) == DirInode(0, geo.dataLba)
    requires Sec(d, geo.dataLba) == block && Holds(block, DT.NewDir(0, 0).slots)
    ensures Stored(geo, d, TableOf(geo, d), bb, ib, DT.EmptyTree())
  {
    hide Decode, Holds, DT.NewDir, DT.TreeOk, Sec, Bit;
    DT.EmptyTreeOk();
    var table := TableOf(geo, d);
    var i := DirInode(0, geo.dataLba);
    assert table[0] == TableInode(geo, d, 0) == i;
    RootRefs(geo, d);
    forall k: nat
      ensures Allocated(ib, k) <==> k == 0
    {
    }
    EmptyLinks(geo, d, table, bb, ib);
    OneBlockOk(d, i, 0);
    RootSize();
  }

  lemma RootSize()
    ensures DT.NewDir(0, 0).size == 48
  {
  }

  lemma RootRefs(geo: Geo, d: seq<byte>)
    requires geo.Valid() && geo.dataLba < U32_SIZE
    ensures var i := DirInode(0, geo.dataLba);
            && i.no == 0 && i.size == 48 && i.sectors[0] == geo.dataLba
            && (forall s :: 0 < s < 13 ==> i.sectors[s] == 0)
            && (forall s: nat :: s <= INDEX_SLOT ==> Ref(d, i, s) == if s == 0 then geo.dataLba else 0)
  {
  }

  lemma EmptyLinks(geo: Geo, d: seq<byte>, table: seq<Inode>, bb: seq<byte>, ib: seq<byte>)
    requires geo.Valid() && geo.usable > 0 && |table| == MAX_FILES_PER_PART && forall k: nat :: k < |table| ==> table[k].Valid()
    requires |bb| == 512 * (geo.inodeMapLba - geo.blockMapLba) && |ib| == 512 && geo.dataLba < U32_SIZE
    requires Bit(bb, 0) && forall i: nat :: geo.usable <= i < 8 * |bb| ==> Bit(bb, i)
    requires forall k: nat :: Allocated(ib, k) ==> k == 0
    requires forall s: nat :: s <= INDEX_SLOT ==> Ref(d, table[0], s) == if s == 0 then geo.dataLba else 0
    ensures Links(geo, d, table, bb, ib)
  {
    hide Ref, Bit;
  }
}
