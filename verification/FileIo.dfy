/** The mounted partition: sector input and output, the two maps, writing inodes
    back, and reading and writing the bytes of a file. */
module FileIo {
  import opened Bytes
  import opened Bitmaps
  import opened Inodes
  import opened Numbers
  import opened Volumes
  import opened LinkSteps

  /** struct file; the inode is named by its number, which keys the open list. */
  class File {
    var pos: u32
    var flag: u32
    var inode: nat
  }

  // enum whence
  const SEEK_SET := 1
  const SEEK_CUR := 2
  const SEEK_END := 3

  /** What 32 bits, the highest of them the sign, make of a number. */
  function Int32(n: int): (r: int)
    ensures -0x8000_0000 <= r < 0x8000_0000
  {
    (n + 0x8000_0000) % U32_SIZE - 0x8000_0000
  }

  lemma SeekSum(a: nat, offset: int)
    requires a <= MAX_FILE_SIZE && -0x8000_0000 <= offset < 0x8000_0000
    ensures Int32(a) == a
    ensures Int32(a + offset) == a + offset || (a + offset > MAX_FILE_SIZE && Int32(a + offset) < 0)
  {
  }

  /** What is to be had of the bytes from a position on. */
  function From(c: seq<byte>, pos: nat, count: nat): (r: seq<byte>)
    ensures |r| == if pos >= |c| then 0 else if pos + count <= |c| then count else |c| - pos
    ensures forall i :: 0 <= i < |r| ==> r[i] == c[pos + i]
  {
    if pos >= |c| then [] else c[pos..Min(|c|, pos + count)]
  }

  /** Sectors that must be found to take a file from `n` blocks to `m`. */
  function Needed(n: nat, m: nat): nat {
    if m <= n then 0 else m - n + (if n <= DIRECT < m then 1 else 0)
  }

  lemma PutThrough(geo: Geo, disk: seq<byte>, i: Inode, p: Position, cnt: nat, buf: seq<byte>, put: seq<byte>)
    requires geo.Valid() && |disk| == 512 * geo.sectors && i.no < MAX_FILES_PER_PART && i.Valid()
    requires p == Locate(i.no) && cnt == if p.twoSec then 2 else 1
    requires 512 * (geo.tableLba + p.sec + cnt) <= |disk|
    requires buf == disk[512 * (geo.tableLba + p.sec)..512 * (geo.tableLba + p.sec + cnt)]
    requires p.off + INODE_SIZE <= |buf| && put == Splice(buf, p.off, Encode(i))
    ensures Splice(disk, 512 * (geo.tableLba + p.sec), put) == PutInode(geo, disk, i)
  {
    hide Encode;
    LocateCovers(i.no);
    SpliceThroughWindow(disk, 512 * (geo.tableLba + p.sec), 512 * cnt, p.off, Encode(i));
  }

  /** Sectors that must be found to write a file of `size` bytes up to position `end`. */
  function Demand(size: nat, end: nat): nat {
    Needed(Blocks(size), Blocks(end))
  }

  lemma DemandNone(size: nat, p: nat)
    requires p <= size
    ensures Demand(size, p) == 0
  {
  }

  /** The demand of a run is that of its part so far and that of its next block. */
  lemma DemandStep(size: nat, p: nat, chunk: nat, end: nat)
    requires 0 < chunk <= 512 - p % 512 && p + chunk <= end
    ensures Demand(size, p) + Needed(Blocks(Max(size, p)), p / 512 + 1) == Demand(size, p + chunk) <= Demand(size, end)
  {
  }

  /** No allocated inode refers to a sector that `i` names itself. */
  ghost predicate Apart(geo: Geo, d: seq<byte>, i: Inode, ib: seq<byte>)
    requires geo.Valid() && |d| == 512 * geo.sectors && i.Valid()
  {
    && (forall n: nat :: n < 13 && i.sectors[n] != 0 ==> geo.dataLba <= i.sectors[n] < geo.dataLba + geo.usable)
    && (forall n: nat, j: nat, s: nat :: n < 13 && i.sectors[n] != 0 && Allocated(ib, j) && s <= INDEX_SLOT ==>
          Ref(d, TableOf(geo, d)[j], s) != i.sectors[n])
  }

  lemma ReleaseStart(geo: Geo, d: seq<byte>, i: Inode, bb: seq<byte>, ib: seq<byte>)
    requires geo.Valid() && |d| == 512 * geo.sectors && Links(geo, d, TableOf(geo, d), bb, ib)
    requires i.Valid() && Allocated(ib, i.no) && TableInode(geo, d, i.no) == i
    ensures |ib| == 512 && |bb| * 8 >= geo.usable && i.no < MAX_FILES_PER_PART
    ensures Links(geo, d, TableOf(geo, d), bb, WithBit(ib, i.no, false))
    ensures Apart(geo, d, i, WithBit(ib, i.no, false))
    ensures OwnBits(geo, i, 0) == {} && 512 * i.sectors[12] + 512 <= |d|
  {
    hide Links, Ref, TableInode;
    assert TableOf(geo, d)[i.no] == i;
    OwnSectorsAlone(geo, d, TableOf(geo, d), bb, ib, i.no);
    DropInode(geo, d, TableOf(geo, d), bb, ib, i.no);
  }

  lemma ReleaseNext(geo: Geo, d: seq<byte>, i: Inode, n: nat, bb: seq<byte>, ib: seq<byte>)
    requires geo.Valid() && |d| == 512 * geo.sectors && i.Valid() && n < 13 && i.sectors[n] != 0
    requires Links(geo, d, TableOf(geo, d), bb, ib) && Apart(geo, d, i, ib)
    ensures geo.dataLba <= i.sectors[n] < geo.dataLba + 8 * |bb|
  {
    hide Ref;
  }

  lemma ReleaseStep(geo: Geo, d: seq<byte>, e: seq<byte>, i: Inode, n: nat, bb: seq<byte>, ib: seq<byte>)
    requires geo.Valid() && |d| == 512 * geo.sectors && i.Valid() && n < 13 && i.sectors[n] != 0
    requires Links(geo, d, TableOf(geo, d), bb, ib) && Apart(geo, d, i, ib) && SameTableAndData(geo, d, e)
    ensures |bb| * 8 >= geo.usable && geo.dataLba <= i.sectors[n] < geo.dataLba + geo.usable
    ensures var bb' := WithBit(bb, i.sectors[n] - geo.dataLba, false);
            && Links(geo, e, TableOf(geo, e), bb', ib) && Apart(geo, e, i, ib)
            && (forall c: set<nat> :: ClearBits(bb) == c + OwnBits(geo, i, n) ==> ClearBits(bb') == c + OwnBits(geo, i, n + 1))
  {
    hide Ref, Links, TableOf;
    FreeSector(geo, d, e, i, n, bb, ib);
    assert OwnBits(geo, i, n + 1) == OwnBits(geo, i, n) + {i.sectors[n] - geo.dataLba};
  }

  lemma OwnBitsNone(geo: Geo, i: Inode, n: nat)
    requires geo.Valid() && i.Valid() && n < 13 && i.sectors[n] == 0
    ensures OwnBits(geo, i, n + 1) == OwnBits(geo, i, n)
  {
  }

  lemma TablePut(geo: Geo, d: seq<byte>, k: nat)
    requires geo.Valid() && |d| == 512 * geo.sectors && k < MAX_FILES_PER_PART
    ensures TableOf(geo, d)[k := TableInode(geo, d, k)] == TableOf(geo, d)
  {
  }

  /** A bit changed in memory: the sectors of the map on disk but the one it lies in agree. */
  lemma OthersAgree(geo: Geo, disk: seq<byte>, was: seq<byte>, bits: seq<byte>, ib: seq<byte>, bit: nat, v: bool)
    requires geo.Valid() && |disk| == 512 * geo.sectors && Synced(geo, disk, was, ib) && bit < 8 * |was| && bits == WithBit(was, bit, v)
    ensures |bits| == 512 * (geo.inodeMapLba - geo.blockMapLba)
    ensures forall i: nat :: i < |bits| && i / 512 != bit / 4096 ==> disk[512 * geo.blockMapLba + i] == bits[i]
  {
    forall i: nat | i < |bits| && i / 512 != bit / 4096
      ensures disk[512 * geo.blockMapLba + i] == bits[i]
    {
      assert disk[512 * geo.blockMapLba..512 * geo.inodeMapLba][i] == was[i];
    }
  }

  lemma NoneClear(bb: seq<byte>)
    requires forall i: nat :: !ClearRun(bb, i, 1)
    ensures ClearBits(bb) == {}
  {
    forall i: nat | i in ClearBits(bb)
      ensures false
    {
      assert ClearRun(bb, i, 1);
    }
  }

  lemma FirstClear(bb: seq<byte>, bit: nat)
    requires ClearRun(bb, bit, 1) && forall i: nat :: i < bit ==> !ClearRun(bb, i, 1)
    ensures bit < 8 * |bb| && !Bit(bb, bit) && bit in ClearBits(bb)
    ensures forall i: nat :: i < bit ==> Bit(bb, i)
  {
    forall i: nat | i < bit
      ensures Bit(bb, i)
    {
      assert !ClearRun(bb, i, 1);
    }
  }

  class Volume {
    const geo: Geo
    const blockMap: Bitmap
    const inodeMap: Bitmap
    var disk: seq<byte>
    var open: map<nat, Inode>  // cur_part->open_inodes, by inode number
    var openCnt: map<nat, nat>  // i_open_cnt of each

    /** mount_partition: both maps are read off the disk and the root is opened. */
    constructor Mount(g: Geo, d: seq<byte>)
      requires g.Valid() && |d| == 512 * g.sectors
      ensures geo == g && disk == d && Formed()
      ensures open == map[0 := TableInode(g, d, 0).(no := 0)] && openCnt == map[0 := 1]
      ensures fresh(blockMap.bits) && fresh(inodeMap.bits)
    {
      geo, disk := g, d;
      blockMap := new Bitmap(512 * (g.inodeMapLba - g.blockMapLba));
      inodeMap := new Bitmap(512);
      open, openCnt := map[0 := TableInode(g, d, 0).(no := 0)], map[0 := 1];
      new;
      forall i | 0 <= i < blockMap.bits.Length {
        blockMap.bits[i] := d[512 * g.blockMapLba + i];
      }
      forall i | 0 <= i < inodeMap.bits.Length {
        inodeMap.bits[i] := d[512 * g.inodeMapLba + i];
      }
      assert d[512 * g.blockMapLba..512 * g.inodeMapLba] == blockMap.bits[..];
      assert d[512 * g.inodeMapLba..512 * g.tableLba] == inodeMap.bits[..];
    }

    // ---- sectors ----

    ghost predicate Formed()
      reads this, blockMap.bits, inodeMap.bits
    {
      && geo.Valid()
      && |disk| == 512 * geo.sectors
      && blockMap.bits != inodeMap.bits
      && Synced(geo, disk, blockMap.bits[..], inodeMap.bits[..])
    }

    method IdeRead(lba: nat, cnt: nat) returns (buf: seq<byte>)
      requires 512 * (lba + cnt) <= |disk|
      ensures buf == disk[512 * lba..512 * (lba + cnt)]
      ensures cnt == 1 ==> buf == Sec(disk, lba)
    {
      buf := [];
      var secsDone := 0;
      while secsDone < cnt
        invariant secsDone <= cnt
        invariant buf == disk[512 * lba..512 * (lba + secsDone)]
      {
        buf := buf + disk[512 * (lba + secsDone)..512 * (lba + secsDone) + 512];
        secsDone := secsDone + 1;
      }
    }

    method IdeWrite(lba: nat, buf: seq<byte>, cnt: nat)
      requires 512 * (lba + cnt) <= |disk| && |buf| == 512 * cnt
      modifies `disk
      ensures disk == Splice(old(disk), 512 * lba, buf)
    {
      ghost var was := disk;
      var secsDone := 0;
      assert disk == Splice(was, 512 * lba, buf[..0]);
      while secsDone < cnt
        invariant secsDone <= cnt
        invariant disk == Splice(was, 512 * lba, buf[..512 * secsDone])
      {
        disk := Splice(disk, 512 * (lba + secsDone), buf[512 * secsDone..512 * secsDone + 512]);
        secsDone := secsDone + 1;
      }
      assert buf[..512 * cnt] == buf;
    }

    // ---- the maps ----

    /** bitmap_sync for the block map: one sector of it, from memory. */
    method SyncBlockMap(bit: nat)
      requires geo.Valid() && |disk| == 512 * geo.sectors
      requires blockMap.bits.Length == 512 * (geo.inodeMapLba - geo.blockMapLba)
      requires bit < 8 * blockMap.bits.Length
      requires 512 * geo.tableLba <= |disk|
      requires disk[512 * geo.inodeMapLba..512 * geo.tableLba] == inodeMap.bits[..]
      requires forall i: nat :: i < blockMap.bits.Length && i / 512 != bit / 4096 ==> disk[512 * geo.blockMapLba + i] == blockMap.bits[i]
      modifies `disk
      ensures |disk| == |old(disk)|
      ensures SameTableAndData(geo, old(disk), disk)
      ensures Synced(geo, disk, blockMap.bits[..], inodeMap.bits[..])
    {
      var offSec := bit / 4096;
      IdeWrite(geo.blockMapLba + offSec, blockMap.bits[512 * offSec..512 * offSec + 512], 1);
      assert disk[512 * geo.blockMapLba..512 * geo.inodeMapLba] == blockMap.bits[..];
      assert disk[512 * geo.inodeMapLba..512 * geo.tableLba] == inodeMap.bits[..];
    }

    method BlockBitmapAlloc() returns (r: int)
      requires Formed()
      modifies `disk, blockMap.bits
      ensures Formed()
      ensures |disk| == |old(disk)|
      ensures SameTableAndData(geo, old(disk), disk)
      ensures r == -1 <==> ClearBits(old(blockMap.bits[..])) == {}
      ensures r == -1 ==> blockMap.bits[..] == old(blockMap.bits[..]) && disk == old(disk)
      ensures r != -1 ==>
        && geo.dataLba <= r < geo.dataLba + 8 * blockMap.bits.Length
        && !Bit(old(blockMap.bits[..]), r - geo.dataLba)
        && (forall i: nat :: i < r - geo.dataLba ==> Bit(old(blockMap.bits[..]), i))
        && blockMap.bits[..] == WithBit(old(blockMap.bits[..]), r - geo.dataLba, true)
    {
      hide Bit, WithBit, ClearBits, ClearRun;
      ghost var was := blockMap.bits[..];
      var bit := blockMap.Scan(1);
      if bit == -1 {
        NoneClear(blockMap.bits[..]);
        return -1;
      }
      FirstClear(was, bit);
      blockMap.Set(bit, true);
      OthersAgree(geo, disk, was, blockMap.bits[..], inodeMap.bits[..], bit, true);
      SyncBlockMap(bit);
      return geo.dataLba + bit;
    }

    method BlockBitmapFree(lba: nat)
      requires Formed() && geo.dataLba <= lba < geo.dataLba + 8 * blockMap.bits.Length
      modifies `disk, blockMap.bits
      ensures Formed()
      ensures |disk| == |old(disk)|
      ensures SameTableAndData(geo, old(disk), disk)
      ensures blockMap.bits[..] == WithBit(old(blockMap.bits[..]), lba - geo.dataLba, false)
    {
      var bit := lba - geo.dataLba;
      ghost var was := blockMap.bits[..];
      blockMap.Set(bit, false);
      OthersAgree(geo, disk, was, blockMap.bits[..], inodeMap.bits[..], bit, false);
      SyncBlockMap(bit);
    }

    method SyncInodeMap()
      requires geo.Valid() && |disk| == 512 * geo.sectors && inodeMap.bits.Length == 512
      requires disk[512 * geo.blockMapLba..512 * geo.inodeMapLba] == blockMap.bits[..]
      modifies `disk
      ensures |disk| == |old(disk)|
      ensures SameTableAndData(geo, old(disk), disk)
      ensures Synced(geo, disk, blockMap.bits[..], inodeMap.bits[..])
    {
      IdeWrite(geo.inodeMapLba, inodeMap.bits[..], 1);
      assert disk[512 * geo.blockMapLba..512 * geo.inodeMapLba] == blockMap.bits[..];
      assert disk[512 * geo.inodeMapLba..512 * geo.tableLba] == inodeMap.bits[..];
    }

    method InodeBitmapAlloc() returns (r: int)
      requires Formed() && inodeMap.bits.Length == 512
      modifies `disk, inodeMap.bits
      ensures Formed()
      ensures |disk| == |old(disk)|
      ensures SameTableAndData(geo, old(disk), disk)
      ensures r == -1 <==> forall k: nat :: k < MAX_FILES_PER_PART ==> Allocated(old(inodeMap.bits[..]), k)
      ensures r == -1 ==> inodeMap.bits[..] == old(inodeMap.bits[..]) && disk == old(disk)
      ensures r != -1 ==>
        && 0 <= r < MAX_FILES_PER_PART
        && !Allocated(old(inodeMap.bits[..]), r)
        && (forall k: nat :: k < r ==> Allocated(old(inodeMap.bits[..]), k))
        && inodeMap.bits[..] == WithBit(old(inodeMap.bits[..]), r, true)
    {
      var bit := inodeMap.Scan(1);
      if bit == -1 {
        forall k: nat | k < MAX_FILES_PER_PART
          ensures Allocated(inodeMap.bits[..], k)
        {
          assert !ClearRun(inodeMap.bits[..], k, 1);
        }
        return -1;
      }
      assert forall i: nat :: i < bit ==> !ClearRun(inodeMap.bits[..], i, 1) && (Bit(inodeMap.bits[..], i) || ClearRun(inodeMap.bits[..], i, 1));
      assert ClearRun(inodeMap.bits[..], bit, 1) && !Allocated(inodeMap.bits[..], bit);
      inodeMap.Set(bit, true);
      SyncInodeMap();
      return bit;
    }

    method InodeBitmapFree(no: nat)
      requires Formed() && inodeMap.bits.Length == 512 && no < MAX_FILES_PER_PART
      modifies `disk, inodeMap.bits
      ensures Formed()
      ensures |disk| == |old(disk)|
      ensures SameTableAndData(geo, old(disk), disk)
      ensures inodeMap.bits[..] == WithBit(old(inodeMap.bits[..]), no, false)
    {
      inodeMap.Set(no, false);
      SyncInodeMap();
    }

    // ---- inodes ----

    /** inode_sync: read the one or two sectors the inode lies in, put it there, write them. */
    method InodeSync(i: Inode)
      requires Formed() && i.Valid() && i.no < MAX_FILES_PER_PART
      modifies `disk
      ensures Formed()
      ensures disk == PutInode(geo, old(disk), i)
    {
      hide Encode, Splice, Synced, PutInode, Locate;
      var p := Locate(i.no);
      LocateCovers(i.no);
      var cnt := if p.twoSec then 2 else 1;
      var ioBuf := IdeRead(geo.tableLba + p.sec, cnt);
      var put := Splice(ioBuf, p.off, Encode(i));
      PutThrough(geo, disk, i, p, cnt, ioBuf, put);
      PutInodeSynced(geo, disk, i, blockMap.bits[..], inodeMap.bits[..]);
      IdeWrite(geo.tableLba + p.sec, put, cnt);
    }

    /** inode_open: one more handle on the copy in memory, or a first one read from disk. */
    method InodeOpen(no: nat)
      requires Formed() && no < MAX_FILES_PER_PART && open.Keys == openCnt.Keys
      modifies `open, `openCnt
      ensures open == if no in old(open) then old(open) else old(open)[no := TableInode(geo, disk, no).(no := no)]
      ensures openCnt == old(openCnt)[no := if no in old(open) then old(openCnt)[no] + 1 else 1]
    {
      if no in open {
        openCnt := openCnt[no := openCnt[no] + 1];
        return;
      }
      var p := Locate(no);
      LocateCovers(no);
      var cnt := if p.twoSec then 2 else 1;
      var buf := IdeRead(geo.tableLba + p.sec, cnt);
      ghost var lo := 512 * (geo.tableLba + p.sec);
      SliceOfSlice(disk, lo, lo + 512 * cnt, p.off, p.off + INODE_SIZE);
      var i := Decode(buf[p.off..p.off + INODE_SIZE]);
      open, openCnt := open[no := i.(no := no)], openCnt[no := 1];
    }

    /** inode_close: the last handle takes the copy out of memory. */
    method InodeClose(no: nat)
      requires no in open && open.Keys == openCnt.Keys && openCnt[no] >= 1
      modifies `open, `openCnt
      ensures open == if old(openCnt)[no] == 1 then old(open) - {no} else old(open)
      ensures openCnt == if old(openCnt)[no] == 1 then old(openCnt) - {no} else old(openCnt)[no := old(openCnt)[no] - 1]
    {
      if openCnt[no] == 1 {
        open, openCnt := open - {no}, openCnt - {no};
      } else {
        openCnt := openCnt[no := openCnt[no] - 1];
      }
    }

    /** inode_release: frees the twelve direct blocks, the index block and the inode. The
        blocks entered in the index block stay marked. */
    method InodeRelease(i: Inode)
      requires Formed() && Links(geo, disk, TableOf(geo, disk), blockMap.bits[..], inodeMap.bits[..])
      requires i.Valid() && Allocated(inodeMap.bits[..], i.no) && TableInode(geo, disk, i.no) == i
      modifies `disk, blockMap.bits, inodeMap.bits
      ensures Formed()
      ensures SameTableAndData(geo, old(disk), disk)
      ensures inodeMap.bits[..] == WithBit(old(inodeMap.bits[..]), i.no, false)
      ensures ClearBits(blockMap.bits[..]) == ClearBits(old(blockMap.bits[..])) + OwnBits(geo, i, 13)
      ensures Links(geo, disk, TableOf(geo, disk), blockMap.bits[..], inodeMap.bits[..])
    {
      hide Links, Ref, Synced, TableOf, Bit, WithBit, ClearBits, TableInode, Allocated;
      ghost var bb0 := blockMap.bits[..];
      ReleaseStart(geo, disk, i, bb0, inodeMap.bits[..]);
      ghost var ib := WithBit(inodeMap.bits[..], i.no, false);
      var all := AllBlocks(i);
      var blockIdx := 0;
      while blockIdx < 12
        invariant blockIdx <= 12
        invariant Formed() && SameTableAndData(geo, old(disk), disk)
        invariant inodeMap.bits[..] == old(inodeMap.bits[..])
        invariant Links(geo, disk, TableOf(geo, disk), blockMap.bits[..], ib)
        invariant Apart(geo, disk, i, ib)
        invariant ClearBits(blockMap.bits[..]) == ClearBits(bb0) + OwnBits(geo, i, blockIdx)
        invariant blockMap.bits.Length == |bb0|
      {
        SectorRef(old(disk), i, blockIdx);
        if all[blockIdx] != 0 {
          ReleaseNext(geo, disk, i, blockIdx, blockMap.bits[..], ib);
          ghost var d, bb := disk, blockMap.bits[..];
          BlockBitmapFree(all[blockIdx]);
          ReleaseStep(geo, d, disk, i, blockIdx, bb, ib);
        } else {
          OwnBitsNone(geo, i, blockIdx);
        }
        blockIdx := blockIdx + 1;
      }
      if i.sectors[12] != 0 {
        ReleaseNext(geo, disk, i, 12, blockMap.bits[..], ib);
        ghost var d, bb := disk, blockMap.bits[..];
        BlockBitmapFree(i.sectors[12]);
        ReleaseStep(geo, d, disk, i, 12, bb, ib);
      } else {
        OwnBitsNone(geo, i, 12);
      }
      ghost var d := disk;
      InodeBitmapFree(i.no);
      MapStep(geo, d, disk, i.no, TableInode(geo, d, i.no), blockMap.bits[..], ib) by {
        TablePut(geo, d, i.no);
      }
      TablePut(geo, disk, i.no);
      SameTableAndDataKeeps(geo, d, disk);
    }

    // ---- a block further ----

    /** Mid-operation: the open copy of inode `k` is ahead of the table, all else is in order. */
    ghost predicate Mid(k: nat)
      reads this, blockMap.bits, inodeMap.bits
    {
      && Formed()
      && Allocated(inodeMap.bits[..], k)
      && k in open && open[k].Valid() && open[k].no == k
      && Links(geo, disk, TableOf(geo, disk)[k := open[k]], blockMap.bits[..], inodeMap.bits[..])
    }

    method AllocDirect(k: nat, b: nat) returns (lba: u32)
      requires Mid(k) && b < DIRECT && Shape(disk, open[k], b)
      modifies `disk, `open, blockMap.bits
      ensures lba >= geo.sectors <==> |ClearBits(old(blockMap.bits[..]))| < Needed(b, b + 1)
      ensures lba < geo.sectors ==>
        && Mid(k) && lba == Ref(disk, open[k], b)
        && open == old(open)[k := old(open[k]).(sectors := open[k].sectors)]
        && Kept(geo, old(disk), disk, inodeMap.bits[..], old(open[k]), open[k], b) && Shape(disk, open[k], b + 1)
        && |ClearBits(blockMap.bits[..])| == |ClearBits(old(blockMap.bits[..]))| - Needed(b, b + 1)
      ensures Formed() && k in open && open[k].Valid() && open[k].no == k
    {
      hide Links, Synced, Shape, Kept, WithBit, SameTableAndData, ClearBits, TableOf, Bit;
      ghost var bb := blockMap.bits[..];
      ghost var table := TableOf(geo, disk)[k := open[k]];
      var r := BlockBitmapAlloc();
      if r != -1 {
        FreeIsUsable(geo, old(disk), table, bb, inodeMap.bits[..], r - geo.dataLba);
      }
      lba := if r == -1 then MINUS_ONE else r;
      if r != -1 {
        DirectGrown(geo, old(disk), disk, open[k], bb, inodeMap.bits[..], b, r - geo.dataLba);
        ClearBitsOfWithBit(bb, r - geo.dataLba, true);
      }
      open := open[k := open[k].(sectors := open[k].sectors[b := lba])];
    }

    /** A cleared sector for the index block. */
    method AddIndex(k: nat) returns (lba: u32)
      requires Mid(k) && Shape(disk, open[k], DIRECT)
      modifies `disk, `open, blockMap.bits
      ensures lba >= geo.sectors <==> |ClearBits(old(blockMap.bits[..]))| < 1
      ensures lba < geo.sectors ==>
        && Mid(k) && open[k].sectors[12] == lba != 0
        && open == old(open)[k := old(open[k]).(sectors := open[k].sectors)]
        && Kept(geo, old(disk), disk, inodeMap.bits[..], old(open[k]), open[k], DIRECT)
        && (forall s: nat :: s < SLOTS ==> (Ref(disk, open[k], s) != 0 <==> s < DIRECT))
        && |ClearBits(blockMap.bits[..])| == |ClearBits(old(blockMap.bits[..]))| - 1
    {
      hide Links, Synced, Shape, Kept, WithBit, Zeros, Ref, SameTableAndData, SameMeta, ClearBits, TableOf, Splice, Bit;
      ghost var bb, ib := blockMap.bits[..], inodeMap.bits[..];
      ghost var table := TableOf(geo, disk)[k := open[k]];
      var r := BlockBitmapAlloc();
      if r != -1 {
        FreeIsUsable(geo, old(disk), table, bb, ib, r - geo.dataLba);
        IndexGrown(geo, old(disk), disk, open[k], bb, ib, r - geo.dataLba);
        ClearBitsOfWithBit(bb, r - geo.dataLba, true);
        SameMetaKeeps(geo, disk, PutSec(disk, r, Zeros(512)), blockMap.bits[..], ib);
      }
      lba := if r == -1 then MINUS_ONE else r;
      open := open[k := open[k].(sectors := open[k].sectors[12 := lba])];
      if lba >= geo.sectors {
        return;  // ASSERT(lba <= hd->max_lba) in ide_write
      }
      IdeWrite(lba, Zeros(512), 1);
    }

    /** One more entry in the index block. */
    method AddEntry(k: nat, b: nat) returns (lba: u32)
      requires Mid(k) && DIRECT <= b < SLOTS && open[k].sectors[12] != 0
      requires forall s: nat :: s < SLOTS ==> (Ref(disk, open[k], s) != 0 <==> s < b)
      modifies `disk, blockMap.bits
      ensures lba >= geo.sectors <==> |ClearBits(old(blockMap.bits[..]))| < 1
      ensures Formed()
      ensures lba < geo.sectors ==>
        && Mid(k) && lba == Ref(disk, open[k], b)
        && Kept(geo, old(disk), disk, inodeMap.bits[..], open[k], open[k], b)
        && Shape(disk, open[k], b + 1)
        && |ClearBits(blockMap.bits[..])| == |ClearBits(old(blockMap.bits[..]))| - 1
    {
      hide Links, Synced, Shape, Kept, WithBit, Splice, Ref, SameTableAndData, SameMeta, ClearBits, TableOf, Bit, Le32;
      ghost var bb, ib := blockMap.bits[..], inodeMap.bits[..];
      ghost var table := TableOf(geo, disk)[k := open[k]];
      var index := open[k].sectors[12];
      IndexRef(disk, open[k]);
      SlotIsAlone(geo, disk, table, bb, ib, k, INDEX_SLOT);
      var blockBuf := IdeRead(index, 1);
      var r := BlockBitmapAlloc();
      if r != -1 {
        FreeIsUsable(geo, old(disk), table, bb, ib, r - geo.dataLba);
        EntryGrown(geo, old(disk), disk, open[k], bb, ib, b, r - geo.dataLba);
        ClearBitsOfWithBit(bb, r - geo.dataLba, true);
      }
      lba := if r == -1 then MINUS_ONE else r;
      blockBuf := Splice(blockBuf, 4 * (b - 12), Le32(lba));
      PutDataKeepsMeta(geo, disk, index, blockBuf);
      SameMetaKeeps(geo, disk, PutSec(disk, index, blockBuf), blockMap.bits[..], ib);
      IdeWrite(index, blockBuf, 1);
    }

    /** Gives inode `k` its block `b`, the next one, and writes the inode back. When no
        sector is to be had the number stored is -1, past the end of any disk. */
    method EnsureBlock(k: nat, b: nat, all: seq<u32>) returns (all': seq<u32>)
      requires Mid(k) && b < SLOTS && Shape(disk, open[k], b)
      requires |all| == SLOTS && forall s: nat :: s < SLOTS ==> all[s] == Ref(disk, open[k], s)
      modifies `disk, `open, blockMap.bits
      ensures |all'| == SLOTS
      ensures all'[b] >= geo.sectors <==> |ClearBits(old(blockMap.bits[..]))| < Needed(b, b + 1)
      ensures all'[b] < geo.sectors ==>
        && Mid(k) && Shape(disk, open[k], b + 1)
        && open == old(open)[k := old(open[k]).(sectors := open[k].sectors)]
        && Kept(geo, old(disk), disk, inodeMap.bits[..], old(open[k]), open[k], b)
        && (forall s: nat :: s < SLOTS ==> all'[s] == Ref(disk, open[k], s))
        && |ClearBits(blockMap.bits[..])| == |ClearBits(old(blockMap.bits[..]))| - Needed(b, b + 1)
    {
      hide Links, Synced, Ref, TableOf, ClearBits, Bit, PutInode, Kept;
      ghost var ib := inodeMap.bits[..];
      all' := all;
      if b < DIRECT {
        var lba := AllocDirect(k, b);
        all' := all'[b := lba];
        if lba >= geo.sectors {
          InodeSync(open[k]);
          return;  // ASSERT(lba <= hd->max_lba) in the ide_read that follows
        }
      } else {
        KeptBySync(geo, disk, disk, ib, open[k], b);
        if open[k].sectors[12] == 0 {
          var index := AddIndex(k);
          all' := all'[12 := index];
          if index >= geo.sectors {
            all' := all'[b := index];
            return;  // the machine halted in ide_write
          }
        }
        ghost var d := disk;
        var lba := AddEntry(k, b);
        all' := all'[b := lba];
        if lba >= geo.sectors {
          InodeSync(open[k]);
          return;
        }
        KeptTransitive(geo, old(disk), d, disk, ib, old(open[k]), open[k], open[k], b);
      }
      ghost var d := disk;
      SyncStep(geo, disk, open[k], blockMap.bits[..], ib);
      InodeSync(open[k]);
      KeptBySync(geo, d, disk, ib, open[k], b + 1);
      KeptTransitive(geo, old(disk), d, disk, ib, old(open[k]), open[k], open[k], b);
    }

    /** Reads the block the position lies in, puts the run there and writes it back;
        position and size move on. */
    method WriteChunk(f: File, lba: nat, data: seq<byte>)
      requires Mid(f.inode) && open[f.inode].size <= MAX_FILE_SIZE
      requires f.pos <= open[f.inode].size && f.pos < MAX_FILE_SIZE
      requires 0 < |data| <= 512 - f.pos % 512
      requires Shape(disk, open[f.inode], Blocks(Max(open[f.inode].size, f.pos + |data|)))
      requires lba == Ref(disk, open[f.inode], f.pos / 512)
      modifies `disk, `open, f`pos
      ensures Mid(f.inode)
      ensures f.pos == old(f.pos) + |data|
      ensures open == old(open)[f.inode := old(open[f.inode]).(size := Max(old(open[f.inode]).size, f.pos))]
      ensures FileOk(disk, open[f.inode])
      ensures Content(disk, open[f.inode]) == Overwrite(Content(old(disk), old(open[f.inode])), old(f.pos), data)
      ensures Others(geo, old(disk), disk, inodeMap.bits[..], f.inode)
      ensures forall s: nat :: s <= INDEX_SLOT ==> Ref(disk, open[f.inode], s) == Ref(old(disk), old(open[f.inode]), s)
    {
      hide Links, Synced, Ref, Others, FileOk, Shape, Content, Splice, SameMeta, Overwrite, TableOf;
      ghost var k, ib := f.inode, inodeMap.bits[..];
      ChunkStep(geo, disk, open[k], blockMap.bits[..], ib, f.pos, data);
      var off := f.pos % 512;
      var blockBuf := IdeRead(lba, 1);
      blockBuf := Splice(blockBuf, off, data);
      SameMetaKeeps(geo, disk, PutSec(disk, lba, blockBuf), blockMap.bits[..], ib);
      IdeWrite(lba, blockBuf, 1);
      f.pos := f.pos + |data|;
      if f.pos > open[f.inode].size {
        open := open[f.inode := open[f.inode].(size := f.pos)];
      }
    }

    // ---- files ----

    ghost predicate Valid()
      reads this, blockMap.bits, inodeMap.bits
    {
      && blockMap.bits != inodeMap.bits
      && FsOk(geo, disk, blockMap.bits[..], inodeMap.bits[..], open)
    }

    /** The bytes of an open file. */
    ghost function Bytes(k: nat): seq<byte>
      requires k in open && open[k].Valid() && open[k].size <= MAX_FILE_SIZE
      reads this
    {
      Content(disk, open[k])
    }

    /** all_blocks: the direct numbers, and those in the index block if there is one. */
    method AllBlocks(i: Inode) returns (all: seq<u32>)
      requires i.Valid() && 512 * i.sectors[12] + 512 <= |disk|
      ensures |all| == SLOTS && forall s: nat :: s < SLOTS ==> all[s] == Ref(disk, i, s)
    {
      all := i.sectors[..12] + seq(128, _ => 0);
      if i.sectors[12] != 0 {
        var sec := IdeRead(i.sectors[12], 1);
        all := i.sectors[..12] + seq(128, w requires 0 <= w < 128 => Entry(sec, w));
      }
    }

    /** The reading loop: block by block from position `pos`. */
    method ReadRun(m: Inode, all: seq<u32>, pos: nat, readSize: nat) returns (buf: seq<byte>)
      requires m.Valid() && m.size <= MAX_FILE_SIZE && pos + readSize <= m.size
      requires |all| == SLOTS && forall s: nat :: s < SLOTS ==> all[s] == Ref(disk, m, s)
      requires forall s: nat :: 512 * s < m.size ==> s < SLOTS && all[s] != 0 && 512 * all[s] + 512 <= |disk|
      ensures buf == Content(disk, m)[pos..pos + readSize]
    {
      hide Ref, Sec, Content;
      buf := [];
      var blockIdx, off := pos / 512, pos % 512;
      ghost var c := Content(disk, m);
      while |buf| < readSize
        invariant |buf| <= readSize && 0 <= off < 512
        invariant |buf| < readSize ==> 512 * blockIdx + off == pos + |buf|
        invariant buf == c[pos..pos + |buf|]
        decreases readSize - |buf|
      {
        if all[blockIdx] == 0 {
          break;
        }
        var blockBuf := IdeRead(all[blockIdx], 1);
        var chunk := 512 - off;
        if chunk > readSize - |buf| {
          chunk := readSize - |buf|;
        }
        ContentRun(disk, m, blockIdx, off, chunk);
        JoinSlices(c, pos, pos + |buf|, pos + |buf| + chunk);
        buf := buf + blockBuf[off..off + chunk];
        blockIdx := blockIdx + 1;
        off := 0;
      }
    }

    method FileRead(f: File, count: u32) returns (buf: seq<byte>)
      requires Valid() && f.inode in open
      modifies f`pos
      ensures open[f.inode].Valid() && open[f.inode].size <= MAX_FILE_SIZE
      ensures buf == From(Bytes(f.inode), old(f.pos), count)
      ensures f.pos == old(f.pos) + |buf|
    {
      hide FsOk, Links, Ref, Content, Shape, TableOf, TableInode, FileOk, Allocated, Sec, Blocks;
      ghost var bb, ib := blockMap.bits[..], inodeMap.bits[..];
      EnterCall(geo, disk, bb, ib, open, f.inode);
      FileOkSize(disk, open[f.inode]);
      var m := open[f.inode];
      if f.pos >= m.size {
        return [];
      }
      var readSize := m.size - f.pos;
      if count < readSize {
        readSize := count;
      }
      BlocksInDisk(geo, disk, bb, ib, open, f.inode);
      var all := AllBlocks(m);
      buf := ReadRun(m, all, f.pos, readSize);
      assert buf == From(Content(disk, m), f.pos, count);
      f.pos := f.pos + |buf|;
    }

    /** sys_lseek on an open file: to a place inside it or at its end, or nowhere. The sum is
        32 bits wide; it never wraps into the file. */
    method Lseek(f: File, offset: int, whence: nat) returns (r: int)
      requires Valid() && f.inode in open && -0x8000_0000 <= offset < 0x8000_0000
      requires f.pos <= open[f.inode].size
      modifies f`pos
      ensures var size := open[f.inode].size;
        var to := if whence == SEEK_SET then offset else if whence == SEEK_CUR then old(f.pos) + offset else size + offset;
        && (r != -1 <==> SEEK_SET <= whence <= SEEK_END && 0 <= to <= size)
        && (r != -1 ==> r == to)
        && f.pos == (if r == -1 then old(f.pos) else r) <= size
    {
      hide FsOk, FileOk, Links, TableOf, Content, Int32;
      EnterCall(geo, disk, blockMap.bits[..], inodeMap.bits[..], open, f.inode);
      FileOkSize(disk, open[f.inode]);
      SeekSum(f.pos, offset);
      SeekSum(open[f.inode].size, offset);
      var fileSize := Int32(open[f.inode].size);
      var newPos: int;
      if whence == SEEK_SET {
        newPos := offset;
      } else if whence == SEEK_CUR {
        newPos := Int32(Int32(f.pos) + offset);
      } else if whence == SEEK_END {
        newPos := Int32(fileSize + offset);
      } else {
        return -1;
      }
      if newPos < 0 || newPos > fileSize {
        return -1;
      }
      f.pos := newPos;
      return f.pos;
    }

    /** One turn of the writing loop: a block if there is none yet, then a run of at most
        one block. */
    method WriteNext(f: File, all: seq<u32>, rest: seq<byte>) returns (all': seq<u32>, chunk: nat, halted: bool)
      requires Mid(f.inode) && FileOk(disk, open[f.inode])
      requires f.pos <= open[f.inode].size && f.pos < MAX_FILE_SIZE && 0 < |rest|
      requires |all| == SLOTS && forall s: nat :: s < SLOTS ==> all[s] == Ref(disk, open[f.inode], s)
      modifies `disk, `open, f`pos, blockMap.bits
      ensures |all'| == SLOTS
      ensures halted <==> |ClearBits(old(blockMap.bits[..]))| < Needed(Blocks(old(open[f.inode]).size), old(f.pos) / 512 + 1)
      ensures !halted ==>
        && chunk == Min(512 - old(f.pos) % 512, |rest|)
        && f.pos == old(f.pos) + chunk
        && Mid(f.inode) && FileOk(disk, open[f.inode])
        && open == old(open)[f.inode := open[f.inode]]
        && Written(geo, old(disk), disk, inodeMap.bits[..], old(open[f.inode]), open[f.inode], old(f.pos), rest[..chunk])
        && (forall s: nat :: s < SLOTS ==> all'[s] == Ref(disk, open[f.inode], s))
        && |ClearBits(blockMap.bits[..])| == |ClearBits(old(blockMap.bits[..]))| - Needed(Blocks(old(open[f.inode]).size), old(f.pos) / 512 + 1)
    {
      hide Links, Synced, Ref, Others, Content, Overwrite, TableOf, ClearBits, Shape, Bit;
      ghost var k, ib, m, b := f.inode, inodeMap.bits[..], open[f.inode], f.pos / 512;
      BlockDue(disk, m, f.pos, all[b]) by {
        assert all[b] == Ref(disk, m, b);
      }
      all', chunk, halted := all, 0, false;
      var blockIdx := f.pos / 512;
      if all[blockIdx] == 0 {
        all' := EnsureBlock(f.inode, blockIdx, all);
        if all'[blockIdx] >= geo.sectors {
          halted := true;
          return;
        }
        KeptContent(geo, old(disk), disk, ib, m, open[k], b);
        KeptOthers(geo, old(disk), disk, ib, m, open[k], b);
      } else {
        OthersRefl(geo, disk, ib, k);
      }
      ghost var d := disk;
      chunk := 512 - f.pos % 512;
      if chunk > |rest| {
        chunk := |rest|;
      }
      OneBlock(m.size, f.pos, chunk);
      WriteChunk(f, all'[blockIdx], rest[..chunk]);
      OthersTransitive(geo, old(disk), d, disk, ib, k);
    }

    /** The writing loop. */
    method WriteRun(f: File, buf: seq<byte>) returns (written: nat, halted: bool)
      requires Mid(f.inode) && FileOk(disk, open[f.inode]) && f.pos <= open[f.inode].size
      requires 512 * open[f.inode].sectors[12] + 512 <= |disk|
      modifies `disk, `open, f`pos, blockMap.bits
      ensures old(f.pos) <= MAX_FILE_SIZE
      ensures var p, m, k := old(f.pos), Min(|buf|, MAX_FILE_SIZE - old(f.pos)), f.inode;
        && (halted <==> |ClearBits(old(blockMap.bits[..]))| < Demand(old(open[k]).size, p + m))
        && (!halted ==>
              && written == m && f.pos == p + m
              && Mid(k) && FileOk(disk, open[k])
              && open == old(open)[k := open[k]]
              && Written(geo, old(disk), disk, inodeMap.bits[..], old(open[k]), open[k], p, buf[..m])
              && |ClearBits(blockMap.bits[..])| == |ClearBits(old(blockMap.bits[..]))| - Demand(old(open[k]).size, p + m))
    {
      hide Links, Synced, Ref, Content, TableOf, ClearBits, Shape, FileOk, Bit, Others, Overwrite, Written, Allocated, Needed, Blocks, Demand;
      FileOkSize(disk, open[f.inode]);
      ghost var k, p, ib, m0 := f.inode, f.pos, inodeMap.bits[..], open[f.inode];
      ghost var m := Min(|buf|, MAX_FILE_SIZE - p);
      ghost var free := |ClearBits(blockMap.bits[..])|;
      WrittenNothing(geo, disk, ib, m0, p);
      DemandNone(m0.size, p);
      var all := AllBlocks(open[f.inode]);
      written, halted := 0, false;
      assert buf[..0] == [];
      while written < |buf|
        invariant !halted && written <= m
        invariant f.pos == p + written
        invariant Mid(k) && FileOk(disk, open[k])
        invariant open == old(open)[k := open[k]]
        invariant Written(geo, old(disk), disk, ib, m0, open[k], p, buf[..written])
        invariant open[k].size == Max(m0.size, p + written)
        invariant |all| == SLOTS && forall s: nat :: s < SLOTS ==> all[s] == Ref(disk, open[k], s)
        invariant |ClearBits(blockMap.bits[..])| == free - Demand(m0.size, p + written)
        decreases |buf| - written
      {
        var blockIdx := f.pos / 512;
        if blockIdx >= SLOTS {
          break;
        }
        ghost var d, m1 := disk, open[k];
        DemandStep(m0.size, p + written, Min(512 - (p + written) % 512, |buf| - written), p + m);
        var chunk;
        all, chunk, halted := WriteNext(f, all, buf[written..]);
        if halted {
          return;
        }
        assert buf[..written] + buf[written..][..chunk] == buf[..written + chunk];
        WrittenSize(geo, d, disk, ib, m1, open[k], p + written, buf[written..][..chunk]);
        WrittenMore(geo, old(disk), d, disk, ib, m0, m1, open[k], p, buf[..written], buf[written..][..chunk]);
        written := written + chunk;
      }
    }

    /** Writes at the position. The sum in the first test is a 32-bit one; a file ends at
        140 blocks whatever it says. The machine halts, in an assertion of the disk
        driver, exactly when fewer sectors are free than the write has to find. */
    method FileWrite(f: File, buf: seq<byte>, count: u32) returns (r: u32, halted: bool)
      requires Valid() && f.inode in open && f.pos <= open[f.inode].size && count <= |buf|
      modifies `disk, `open, f`pos, blockMap.bits
      ensures old(open[f.inode]).Valid() && old(f.pos) <= MAX_FILE_SIZE
      ensures (old(f.pos) + count) % U32_SIZE > MAX_FILE_SIZE ==>
        && r == MINUS_ONE && !halted
        && disk == old(disk) && open == old(open) && f.pos == old(f.pos) && blockMap.bits[..] == old(blockMap.bits[..])
      ensures (old(f.pos) + count) % U32_SIZE <= MAX_FILE_SIZE ==>
        var p, m, k := old(f.pos), Min(count, MAX_FILE_SIZE - old(f.pos)), f.inode;
        && (halted <==> |ClearBits(old(blockMap.bits[..]))| < Demand(old(open[k]).size, p + m))
        && (!halted ==>
              && r == m && f.pos == p + m
              && k in open && open[k].Valid()
              && open == old(open)[k := open[k]]
              && Written(geo, old(disk), disk, inodeMap.bits[..], old(open[k]), open[k], p, buf[..m])
              && |ClearBits(blockMap.bits[..])| == |ClearBits(old(blockMap.bits[..]))| - Demand(old(open[k]).size, p + m))
      ensures !halted ==> Valid()
    {
      hide Links, Ref, Content, TableOf, ClearBits, Shape, FsOk, FileOk, Bit, Others, Overwrite, Synced, Demand, Written, SameSectors, PutInode, Allocated;
      ghost var k, p, ib, m0 := f.inode, f.pos, inodeMap.bits[..], open[f.inode];
      EnterCall(geo, disk, blockMap.bits[..], ib, open, k);
      if (f.pos + count) % U32_SIZE > MAX_FILE_SIZE {
        return MINUS_ONE, false;
      }
      BlocksInDisk(geo, disk, blockMap.bits[..], ib, open, k);
      FsOkFormed(geo, disk, blockMap.bits[..], ib, open);
      var written;
      written, halted := WriteRun(f, buf[..count]);
      if halted {
        return 0, true;
      }
      ghost var d := disk;
      SyncStep(geo, disk, open[k], blockMap.bits[..], ib);
      ghost var m := Min(count, MAX_FILE_SIZE - p);
      assert buf[..count][..m] == buf[..m];
      WrittenSynced(geo, old(disk), d, PutInode(geo, d, open[k]), ib, m0, open[k], p, buf[..m]);
      WrittenSize(geo, old(disk), PutInode(geo, d, open[k]), ib, m0, open[k], p, buf[..m]);
      InodeSync(open[f.inode]);
      LeaveCall(geo, old(disk), disk, old(blockMap.bits[..]), blockMap.bits[..], ib, old(open), open, k);
      return written, false;
    }
  }

  /** A run of a file that stays in one block is a run of that block's sector. */
  lemma ContentRun(disk: seq<byte>, m: Inode, b: nat, off: nat, len: nat)
    requires m.Valid() && m.size <= MAX_FILE_SIZE && 512 * b + off + len <= m.size && off + len <= 512 && 0 < len
    ensures Content(disk, m)[512 * b + off..512 * b + off + len] == Sec(disk, Ref(disk, m, b))[off..off + len]
  {
    hide Ref, Sec;
    var c := Content(disk, m);
    forall q: nat | off <= q < off + len
      ensures c[512 * b + q] == Sec(disk, Ref(disk, m, b))[q]
    {
      assert (512 * b + q) / 512 == b && (512 * b + q) % 512 == q;
    }
  }

  /** Every sector an open file refers to is on the disk, and none of its blocks is missing. */
  lemma BlocksInDisk(geo: Geo, disk: seq<byte>, bb: seq<byte>, ib: seq<byte>, open: map<nat, Inode>, k: nat)
    requires FsOk(geo, disk, bb, ib, open) && k in open
    ensures open[k].Valid() && 512 * open[k].sectors[12] + 512 <= |disk|
    ensures forall b: nat :: 512 * b < open[k].size ==> b < SLOTS && Ref(disk, open[k], b) != 0 && 512 * Ref(disk, open[k], b) + 512 <= |disk|
  {
    EnterCall(geo, disk, bb, ib, open, k);
    if open[k].sectors[12] != 0 {
      IndexRef(disk, open[k]);
      SlotIsAlone(geo, disk, TableOf(geo, disk)[k := open[k]], bb, ib, k, INDEX_SLOT);
    }
    forall b: nat | 512 * b < open[k].size
      ensures b < SLOTS && Ref(disk, open[k], b) != 0 && 512 * Ref(disk, open[k], b) + 512 <= |disk|
    {
      assert b < Blocks(open[k].size);
      SlotIsAlone(geo, disk, TableOf(geo, disk)[k := open[k]], bb, ib, k, b);
    }
  }

  /** A file with no block at the position has it as the next one due. */
  lemma BlockDue(disk: seq<byte>, m: Inode, pos: nat, r: u32)
    requires m.Valid() && FileOk(disk, m) && pos <= m.size && pos < MAX_FILE_SIZE && r == Ref(disk, m, pos / 512)
    ensures r == 0 <==> pos / 512 == Blocks(m.size)
    ensures r != 0 <==> pos / 512 < Blocks(m.size)
    ensures Shape(disk, m, Blocks(m.size))
  {
  }

  lemma OneBlock(size: nat, pos: nat, chunk: nat)
    requires pos <= size && 0 < chunk <= 512 - pos % 512
    ensures Blocks(Max(size, pos + chunk)) == Max(Blocks(size), pos / 512 + 1)
  {
  }

  lemma KeptOthers(geo: Geo, d: seq<byte>, e: seq<byte>, ib: seq<byte>, m: Inode, m': Inode, b: nat)
    requires geo.Valid() && m.Valid() && m'.Valid() && Kept(geo, d, e, ib, m, m', b)
    ensures Others(geo, d, e, ib, m.no)
  {
  }

  lemma OthersRefl(geo: Geo, d: seq<byte>, ib: seq<byte>, k: nat)
    requires geo.Valid() && |d| == 512 * geo.sectors
    ensures Others(geo, d, d, ib, k)
  {
  }

  lemma FsOkFormed(geo: Geo, disk: seq<byte>, bb: seq<byte>, ib: seq<byte>, open: map<nat, Inode>)
    requires FsOk(geo, disk, bb, ib, open)
    ensures geo.Valid() && |disk| == 512 * geo.sectors && Synced(geo, disk, bb, ib)
  {
  }

  lemma FileOkSize(disk: seq<byte>, m: Inode)
    requires m.Valid() && FileOk(disk, m)
    ensures m.size <= MAX_FILE_SIZE
  {
  }
}
