/** A formatted partition as a value: where its parts lie, which sectors an inode refers to,
    directly and behind its index block, what the bytes of a file are, and what the maps and
    the inodes must keep to: no sector referred to twice, and every one of them marked. */
module Volumes {
  import opened Bytes
  import opened Bitmaps
  import opened Inodes

  const DIRECT := 12
  const SLOTS := 140        // 12 direct blocks and 128 behind the index block
  const INDEX_SLOT := 140   // the index block itself, i_sectors[12]
  const MAX_FILE_SIZE := 71680  // BLOCK_SIZE * 140

  /** The parts follow one another: block map, inode map, inode table, data.
      The disk is one flat run of bytes; sector `l` is bytes 512l to 512l + 511.
      Bits of the block map at `usable` and beyond are set for good. */
  datatype Geo = Geo(blockMapLba: nat, inodeMapLba: nat, tableLba: nat, dataLba: nat, usable: nat, sectors: nat) {
    predicate Valid() {
      && 0 < blockMapLba < inodeMapLba
      && inodeMapLba + 1 == tableLba
      && tableLba + INODE_TABLE_SECTS == dataLba
      && usable <= 4096 * (inodeMapLba - blockMapLba)
      && dataLba + usable <= sectors < MINUS_ONE
    }
  }

  // ---- sectors ----

  function Sec(disk: seq<byte>, lba: nat): (s: seq<byte>)
    ensures |s| == SECTOR_SIZE
  {
    if 512 * lba + 512 <= |disk| then disk[512 * lba..512 * lba + 512] else Zeros(512)
  }

  function PutSec(disk: seq<byte>, lba: nat, s: seq<byte>): (r: seq<byte>)
    requires |s| == SECTOR_SIZE && 512 * lba + 512 <= |disk|
    ensures |r| == |disk|
  {
    Splice(disk, 512 * lba, s)
  }

  lemma SecOfPutSec(disk: seq<byte>, lba: nat, s: seq<byte>, other: nat)
    requires |s| == SECTOR_SIZE && 512 * lba + 512 <= |disk|
    ensures Sec(PutSec(disk, lba, s), other) == if other == lba then s else Sec(disk, other)
  {
    if 512 * other + 512 <= |disk| {
      SliceOfSplice(disk, 512 * lba, s, 512 * other, 512 * other + 512);
    }
  }

  // ---- the parts of the disk ----

  ghost predicate Synced(geo: Geo, disk: seq<byte>, bb: seq<byte>, ib: seq<byte>)
    requires geo.Valid() && |disk| == 512 * geo.sectors
  {
    && disk[512 * geo.blockMapLba..512 * geo.inodeMapLba] == bb
    && disk[512 * geo.inodeMapLba..512 * geo.tableLba] == ib
  }

  function TableInode(geo: Geo, disk: seq<byte>, no: nat): (i: Inode)
    requires geo.Valid() && |disk| == 512 * geo.sectors && no < MAX_FILES_PER_PART
    ensures i.Valid()
  {
    Decode(disk[512 * geo.tableLba + 76 * no..512 * geo.tableLba + 76 * no + 76])
  }

  function TableOf(geo: Geo, disk: seq<byte>): (t: seq<Inode>)
    requires geo.Valid() && |disk| == 512 * geo.sectors
    ensures |t| == MAX_FILES_PER_PART
  {
    seq(MAX_FILES_PER_PART, k requires 0 <= k < MAX_FILES_PER_PART => TableInode(geo, disk, k))
  }

  /** inode_sync */
  function PutInode(geo: Geo, disk: seq<byte>, i: Inode): (r: seq<byte>)
    requires geo.Valid() && |disk| == 512 * geo.sectors && i.no < MAX_FILES_PER_PART && i.Valid()
    ensures |r| == |disk|
  {
    Splice(disk, 512 * geo.tableLba + 76 * i.no, Encode(i))
  }

  /** Nothing before the data area differs. */
  ghost predicate SameMeta(geo: Geo, d: seq<byte>, e: seq<byte>) {
    |d| == |e| && 512 * geo.dataLba <= |d| && d[..512 * geo.dataLba] == e[..512 * geo.dataLba]
  }

  /** Nothing from the inode table on differs. */
  ghost predicate SameTableAndData(geo: Geo, d: seq<byte>, e: seq<byte>) {
    |d| == |e| && 512 * geo.tableLba <= |d| && d[512 * geo.tableLba..] == e[512 * geo.tableLba..]
  }

  lemma SameMetaKeeps(geo: Geo, d: seq<byte>, e: seq<byte>, bb: seq<byte>, ib: seq<byte>)
    requires geo.Valid() && |d| == 512 * geo.sectors && SameMeta(geo, d, e)
    ensures Synced(geo, d, bb, ib) ==> Synced(geo, e, bb, ib)
    ensures forall k: nat :: k < MAX_FILES_PER_PART ==> TableInode(geo, e, k) == TableInode(geo, d, k)
  {
    var n := 512 * geo.dataLba;
    assert forall lo: nat, hi: nat :: lo <= hi <= n ==> d[lo..hi] == d[..n][lo..hi] && e[lo..hi] == e[..n][lo..hi];
  }

  lemma SliceOfSuffix(d: seq<byte>, n: nat, lo: nat, hi: nat)
    requires n + hi <= |d| && lo <= hi
    ensures d[n..][lo..hi] == d[n + lo..n + hi]
  {
  }

  lemma SameTableAndDataKeeps(geo: Geo, d: seq<byte>, e: seq<byte>)
    requires geo.Valid() && |d| == 512 * geo.sectors && SameTableAndData(geo, d, e)
    ensures forall k: nat :: k < MAX_FILES_PER_PART ==> TableInode(geo, e, k) == TableInode(geo, d, k)
    ensures forall l: nat :: l >= geo.dataLba ==> Sec(e, l) == Sec(d, l)
  {
    hide Decode;
    var n := 512 * geo.tableLba;
    forall lo: nat, hi: nat | n <= lo <= hi <= |d|
      ensures d[lo..hi] == e[lo..hi]
    {
      SliceOfSuffix(d, n, lo - n, hi - n);
      SliceOfSuffix(e, n, lo - n, hi - n);
    }
  }

  lemma PutDataKeepsMeta(geo: Geo, disk: seq<byte>, lba: nat, s: seq<byte>)
    requires geo.Valid() && |disk| == 512 * geo.sectors
    requires geo.dataLba <= lba < geo.sectors && |s| == SECTOR_SIZE
    ensures SameMeta(geo, disk, PutSec(disk, lba, s))
  {
  }

  lemma PutInodeReadsBack(geo: Geo, disk: seq<byte>, i: Inode)
    requires geo.Valid() && |disk| == 512 * geo.sectors && i.no < MAX_FILES_PER_PART && i.Valid()
    ensures TableInode(geo, PutInode(geo, disk, i), i.no) == i
  {
    var at := 512 * geo.tableLba + 76 * i.no;
    SliceOfSplice(disk, at, Encode(i), at, at + 76);
    DecodeOfEncode(i);
  }

  lemma PutInodeOtherInode(geo: Geo, disk: seq<byte>, i: Inode, k: nat)
    requires geo.Valid() && |disk| == 512 * geo.sectors && i.no < MAX_FILES_PER_PART && i.Valid()
    requires k < MAX_FILES_PER_PART && k != i.no
    ensures TableInode(geo, PutInode(geo, disk, i), k) == TableInode(geo, disk, k)
  {
    hide Encode, Decode, Splice;
    var e := Encode(i);
    var mine := 512 * geo.tableLba + 76 * i.no;
    var at := 512 * geo.tableLba + 76 * k;
    assert at + 76 <= mine || mine + |e| <= at;
    SliceOfSplice(disk, mine, e, at, at + 76);
  }

  lemma PutInodeOtherSector(geo: Geo, disk: seq<byte>, i: Inode, l: nat)
    requires geo.Valid() && |disk| == 512 * geo.sectors && i.no < MAX_FILES_PER_PART && i.Valid()
    requires l >= geo.dataLba
    ensures Sec(PutInode(geo, disk, i), l) == Sec(disk, l)
  {
    if 512 * l + 512 <= |disk| {
      SliceOfSplice(disk, 512 * geo.tableLba + 76 * i.no, Encode(i), 512 * l, 512 * l + 512);
    }
  }

  lemma PutInodeSynced(geo: Geo, disk: seq<byte>, i: Inode, bb: seq<byte>, ib: seq<byte>)
    requires geo.Valid() && |disk| == 512 * geo.sectors && i.no < MAX_FILES_PER_PART && i.Valid()
    requires Synced(geo, disk, bb, ib)
    ensures Synced(geo, PutInode(geo, disk, i), bb, ib)
  {
    var at := 512 * geo.tableLba + 76 * i.no;
    SliceOfSplice(disk, at, Encode(i), 512 * geo.blockMapLba, 512 * geo.inodeMapLba);
    SliceOfSplice(disk, at, Encode(i), 512 * geo.inodeMapLba, 512 * geo.tableLba);
  }

  /** Writing one inode back leaves every other inode as it was, those that share
      a sector with it included, and touches neither the maps nor the data. */
  lemma PutInodeEffect(geo: Geo, disk: seq<byte>, i: Inode, bb: seq<byte>, ib: seq<byte>)
    requires geo.Valid() && |disk| == 512 * geo.sectors && i.no < MAX_FILES_PER_PART && i.Valid()
    ensures TableInode(geo, PutInode(geo, disk, i), i.no) == i
    ensures forall k: nat :: k < MAX_FILES_PER_PART && k != i.no ==> TableInode(geo, PutInode(geo, disk, i), k) == TableInode(geo, disk, k)
    ensures forall l: nat :: l >= geo.dataLba ==> Sec(PutInode(geo, disk, i), l) == Sec(disk, l)
    ensures Synced(geo, disk, bb, ib) ==> Synced(geo, PutInode(geo, disk, i), bb, ib)
  {
    PutInodeReadsBack(geo, disk, i);
    forall k: nat | k < MAX_FILES_PER_PART && k != i.no
      ensures TableInode(geo, PutInode(geo, disk, i), k) == TableInode(geo, disk, k)
    {
      PutInodeOtherInode(geo, disk, i, k);
    }
    forall l: nat | l >= geo.dataLba
      ensures Sec(PutInode(geo, disk, i), l) == Sec(disk, l)
    {
      PutInodeOtherSector(geo, disk, i, l);
    }
    if Synced(geo, disk, bb, ib) {
      PutInodeSynced(geo, disk, i, bb, ib);
    }
  }

  // ---- what an inode refers to ----

  function Entry(sec: seq<byte>, w: nat): u32
    requires |sec| == SECTOR_SIZE && w < 128
  {
    Un32(sec, 4 * w)
  }

  /** The sector in slot `s` of an inode: its 140 blocks, then its index block. */
  function Ref(disk: seq<byte>, i: Inode, s: nat): u32
    requires i.Valid() && s <= INDEX_SLOT
  {
    if s < DIRECT then i.sectors[s]
    else if s == INDEX_SLOT then i.sectors[12]
    else if i.sectors[12] == 0 then 0
    else Entry(Sec(disk, i.sectors[12]), s - DIRECT)
  }

  function Blocks(size: nat): nat {
    (size + 511) / 512
  }

  /** The first `n` blocks are there and no others; the index block is there when needed. */
  ghost predicate Shape(disk: seq<byte>, i: Inode, n: nat)
    requires i.Valid()
  {
    && n <= SLOTS
    && (forall s: nat :: s < SLOTS ==> (Ref(disk, i, s) != 0 <==> s < n))
    && (i.sectors[12] != 0 <==> n > DIRECT)
  }

  ghost predicate FileOk(disk: seq<byte>, i: Inode)
    requires i.Valid()
  {
    i.size <= MAX_FILE_SIZE && Shape(disk, i, Blocks(i.size))
  }

  function ByteAt(disk: seq<byte>, i: Inode, p: nat): byte
    requires i.Valid() && p < MAX_FILE_SIZE
  {
    Sec(disk, Ref(disk, i, p / 512))[p % 512]
  }

  /** The bytes of a file. */
  function Content(disk: seq<byte>, i: Inode): (c: seq<byte>)
    requires i.Valid() && i.size <= MAX_FILE_SIZE
    ensures |c| == i.size
  {
    seq(i.size, p requires 0 <= p < i.size => ByteAt(disk, i, p))
  }

  /** Every sector the inode refers to holds what it held. */
  ghost predicate SameSectors(d: seq<byte>, e: seq<byte>, i: Inode)
    requires i.Valid()
  {
    forall s: nat :: s <= INDEX_SLOT && Ref(d, i, s) != 0 ==> Sec(e, Ref(d, i, s)) == Sec(d, Ref(d, i, s))
  }

  lemma SameSectorsMeans(d: seq<byte>, e: seq<byte>, i: Inode)
    requires i.Valid() && SameSectors(d, e, i)
    ensures forall s: nat :: s <= INDEX_SLOT ==> Ref(e, i, s) == Ref(d, i, s)
    ensures FileOk(d, i) ==> FileOk(e, i) && Content(e, i) == Content(d, i)
  {
    assert Ref(d, i, INDEX_SLOT) == i.sectors[12];
    forall s: nat | s <= INDEX_SLOT
      ensures Ref(e, i, s) == Ref(d, i, s)
    {
    }
    if FileOk(d, i) {
      forall p: nat | p < i.size
        ensures ByteAt(e, i, p) == ByteAt(d, i, p)
      {
        assert p / 512 < Blocks(i.size);
        assert Ref(d, i, p / 512) != 0;
      }
    }
  }

  // ---- the invariant ----

  ghost predicate Allocated(ib: seq<byte>, k: nat) {
    k < MAX_FILES_PER_PART && k < 8 * |ib| && Bit(ib, k)
  }

  ghost predicate Marked(geo: Geo, bb: seq<byte>, r: u32) {
    && geo.dataLba <= r < geo.dataLba + geo.usable
    && r - geo.dataLba < 8 * |bb|
    && Bit(bb, r - geo.dataLba)
  }

  ghost predicate Sized(geo: Geo, table: seq<Inode>, bb: seq<byte>, ib: seq<byte>) {
    && |table| == MAX_FILES_PER_PART
    && |bb| == 512 * (geo.inodeMapLba - geo.blockMapLba)
    && |ib| == 512
    && (forall k: nat :: k < |table| ==> table[k].Valid())
    && (forall b: nat :: geo.usable <= b < 8 * |bb| ==> Bit(bb, b))
  }

  /** Every sector an allocated inode refers to is in the data area and marked, and
      no two slots, of one inode or of two, refer to the same sector. */
  ghost predicate Links(geo: Geo, disk: seq<byte>, table: seq<Inode>, bb: seq<byte>, ib: seq<byte>)
    requires geo.Valid()
  {
    && Sized(geo, table, bb, ib)
    && (forall k: nat, s: nat :: Allocated(ib, k) && s <= INDEX_SLOT ==>
          Ref(disk, table[k], s) == 0 || Marked(geo, bb, Ref(disk, table[k], s)))
    && (forall k: nat, s: nat, k2: nat, s2: nat ::
          (&& Allocated(ib, k) && Allocated(ib, k2) && s <= INDEX_SLOT && s2 <= INDEX_SLOT
           && Ref(disk, table[k], s) == Ref(disk, table[k2], s2) != 0) ==> k == k2 && s == s2)
  }
}
