/** The file system between two system calls, and the value steps its calls are made of: a
    new inode number, a first block, a directory's block rewritten. All of them are about the
    table of inodes as a sequence, so that files and directories are treated alike. */
module FsSteps {
  import opened Bytes
  import opened Bitmaps
  import opened Inodes
  import opened Volumes
  import opened LinkSteps
  import DT = DirTree
  import opened DirSector

  /** Files and directories alike: references in order, every inode of the right shape. */
  ghost predicate Sound(geo: Geo, disk: seq<byte>, table: seq<Inode>, bb: seq<byte>, ib: seq<byte>)
    requires geo.Valid()
  {
    && Links(geo, disk, table, bb, ib)
    && forall k: nat {:trigger InodeOk(disk, table[k], k)} :: Allocated(ib, k) ==> InodeOk(disk, table[k], k)
  }

  ghost predicate InodeOk(disk: seq<byte>, i: Inode, k: nat) {
    i.Valid() && i.no == k && FileOk(disk, i)
  }

  ghost predicate DirStored(disk: seq<byte>, i: Inode, dir: DT.Dir) {
    i.Valid() && i.size == dir.size && i.sectors[0] != 0 && Holds(Sec(disk, i.sectors[0]), dir.slots)
  }

  /** The tree is what the disk holds: the allocated inodes are its files and directories,
      and each directory's block holds its entries. */
  ghost predicate TreeStored(disk: seq<byte>, table: seq<Inode>, ib: seq<byte>, t: DT.Tree) {
    && DT.TreeOk(t)
    && (forall k: nat {:trigger Allocated(ib, k)} {:trigger k in t.up} :: Allocated(ib, k) <==> k in t.up)
    && (forall d: nat {:trigger d in t.dirs} :: d in t.dirs ==> d < |table| && DirStored(disk, table[d], t.dirs[d]))
  }

  // ---- steps ----

  lemma SoundSameData(geo: Geo, d: seq<byte>, e: seq<byte>, table: seq<Inode>, bb: seq<byte>, ib: seq<byte>)
    requires geo.Valid() && Sound(geo, d, table, bb, ib) && SameData(geo, d, e)
    ensures Sound(geo, e, table, bb, ib)
  {
    hide FileOk, Ref, Sec;
    LinksSameData(geo, d, e, table, bb, ib);
    forall k: nat | Allocated(ib, k)
      ensures InodeOk(e, table[k], k)
    {
      assert InodeOk(d, table[k], k);
      SameSectorsMeans(d, e, table[k]);
    }
  }

  function EmptyInode(no: u32): Inode {
    Inode(no, 0, seq(13, _ => 0))
  }

  lemma EmptyInodeOk(disk: seq<byte>, no: u32)
    ensures InodeOk(disk, EmptyInode(no), no)
    ensures forall s: nat :: s <= INDEX_SLOT ==> Ref(disk, EmptyInode(no), s) == 0
  {
  }

  lemma AllocatedWith(ib: seq<byte>, n: nat, v: bool)
    requires |ib| == 512 && n < MAX_FILES_PER_PART
    ensures forall k: nat :: Allocated(WithBit(ib, n, v), k) <==> if k == n then v else Allocated(ib, k)
  {
    forall k: nat | k < MAX_FILES_PER_PART
      ensures Bit(WithBit(ib, n, v), k) == if k == n then v else Bit(ib, k)
    {
      BitOfWithBit(ib, n, v, k);
    }
  }

  /** An inode number is taken, for an inode that refers to nothing yet. */
  lemma NewInodeStep(geo: Geo, d: seq<byte>, table: seq<Inode>, bb: seq<byte>, ib: seq<byte>, n: nat)
    requires geo.Valid() && Sound(geo, d, table, bb, ib)
    requires n < MAX_FILES_PER_PART && !Allocated(ib, n)
    ensures |ib| == 512 && |table| == MAX_FILES_PER_PART
    ensures Sound(geo, d, table[n := EmptyInode(n)], bb, WithBit(ib, n, true))
  {
    hide Ref, FileOk, EmptyInode, WithBit;
    AllocatedWith(ib, n, true);
    EmptyInodeOk(d, n);
    var t := table[n := EmptyInode(n)];
    forall k: nat | Allocated(WithBit(ib, n, true), k)
      ensures InodeOk(d, t[k], k)
    {
      if k != n {
        assert InodeOk(d, table[k], k);
      }
    }
    LinksNew(geo, d, table, bb, ib, WithBit(ib, n, true), n, EmptyInode(n));
  }

  lemma LinksNew(geo: Geo, d: seq<byte>, table: seq<Inode>, bb: seq<byte>, ib: seq<byte>, ib': seq<byte>, n: nat, i: Inode)
    requires geo.Valid() && Links(geo, d, table, bb, ib) && n < |table| && i.Valid() && |ib'| == 512
    requires forall k: nat :: Allocated(ib', k) ==> k == n || Allocated(ib, k)
    requires forall s: nat :: s <= INDEX_SLOT ==> Ref(d, i, s) == 0
    ensures Links(geo, d, table[n := i], bb, ib')
  {
    hide Ref;
  }

  /** A free sector with the given bytes becomes the one block of an inode that had none. */
  lemma FirstBlockStep(geo: Geo, d: seq<byte>, table: seq<Inode>, bb: seq<byte>, ib: seq<byte>, n: nat, x: nat, s: seq<byte>, size: u32)
    requires geo.Valid() && |d| == 512 * geo.sectors && Sound(geo, d, table, bb, ib)
    requires Allocated(ib, n) && n < U32_SIZE && |table| == MAX_FILES_PER_PART && table[n] == EmptyInode(n)
    requires x < 8 * |bb| && !Bit(bb, x) && |s| == SECTOR_SIZE && 0 < size <= 512
    ensures geo.dataLba + x < geo.sectors
    ensures var m := Inode(n, size, EmptyInode(n).sectors[0 := geo.dataLba + x]);
            var e := PutSec(d, geo.dataLba + x, s);
            && Sound(geo, e, table[n := m], WithBit(bb, x, true), ib)
            && (forall j: nat :: Allocated(ib, j) && j != n ==> SameSectors(d, e, table[j]))
            && Sec(e, geo.dataLba + x) == s
  {
    hide Ref, FileOk, Links, EmptyInode, WithBit, PutSec;
    EmptyInodeOk(d, n);
    FreeIsUsable(geo, d, table, bb, ib, x);
    DirectStep(geo, d, table, bb, ib, n, 0, x);
    var at := geo.dataLba + x;
    var m0 := table[n].(sectors := table[n].sectors[0 := at]);
    var m := m0.(size := size);
    ResizeLinks(geo, d, table[n := m0], WithBit(bb, x, true), ib, n, size);
    assert table[n := m0][n := m] == table[n := m];
    SizeRefs(d, m0, size);
    var t := table[n := m];
    assert m == Inode(n, size, EmptyInode(n).sectors[0 := at]) by { EmptyFields(n); }
    WriteBlock(geo, d, t, WithBit(bb, x, true), ib, n, 0, s);
    var e := PutSec(d, at, s);
    forall k: nat | Allocated(ib, k)
      ensures InodeOk(e, t[k], k)
      ensures k != n ==> SameSectors(d, e, table[k])
    {
      assert InodeOk(d, table[k], k);
      if k != n {
        assert t[k] == table[k];
        SameSectorsMeans(d, e, table[k]);
      } else {
        EmptyFields(n);
        OneBlockOk(e, m, n);
      }
    }
  }

  lemma EmptyFields(n: u32)
    ensures EmptyInode(n).no == n && EmptyInode(n).size == 0 && |EmptyInode(n).sectors| == 13
    ensures forall s :: 0 <= s < 13 ==> EmptyInode(n).sectors[s] == 0
  {
  }

  lemma OneBlockOk(e: seq<byte>, m: Inode, n: nat)
    requires m.Valid() && m.no == n && 0 < m.size <= 512 && m.sectors[0] != 0
    requires forall s :: 0 < s < 13 ==> m.sectors[s] == 0
    ensures InodeOk(e, m, n)
  {
    assert Blocks(m.size) == 1;
    assert forall s: nat :: s < SLOTS ==> Ref(e, m, s) == if s == 0 then m.sectors[0] else 0;
  }

  /** An inode of one block has no other sectors. */
  lemma OneBlockOnly(d: seq<byte>, i: Inode, k: nat)
    requires InodeOk(d, i, k) && 0 < i.size <= 512
    ensures i.sectors[0] != 0 && Ref(d, i, 0) == i.sectors[0] && i.sectors[12] == 0
    ensures forall s :: 0 < s < 13 ==> i.sectors[s] == 0
    ensures forall s: nat :: s < SLOTS ==> Ref(d, i, s) == if s == 0 then i.sectors[0] else 0
  {
    assert Blocks(i.size) == 1;
    forall s: nat | s < 13
      ensures s > 0 ==> i.sectors[s] == 0
    {
      SectorRef(d, i, s);
    }
    assert Ref(d, i, 0) != 0;
  }

  /** The one block of a directory is rewritten and its size set. */
  lemma DirUpdateStep(geo: Geo, d: seq<byte>, table: seq<Inode>, bb: seq<byte>, ib: seq<byte>, k: nat, s: seq<byte>, size: u32)
    requires geo.Valid() && |d| == 512 * geo.sectors && Sound(geo, d, table, bb, ib)
    requires Allocated(ib, k) && k < |table| && 0 < table[k].size <= 512 && 0 < size <= 512 && |s| == SECTOR_SIZE
    ensures table[k].Valid() && geo.dataLba <= table[k].sectors[0] < geo.sectors
    ensures var e := PutSec(d, table[k].sectors[0], s);
            && Sound(geo, e, table[k := table[k].(size := size)], bb, ib)
            && (forall j: nat :: Allocated(ib, j) && j != k ==> SameSectors(d, e, table[j]))
            && Sec(e, table[k].sectors[0]) == s
  {
    hide Ref, FileOk, Links, PutSec;
    assert InodeOk(d, table[k], k);
    OneBlockOnly(d, table[k], k);
    SlotIsAlone(geo, d, table, bb, ib, k, 0);
    WriteBlock(geo, d, table, bb, ib, k, 0, s);
    var e := PutSec(d, table[k].sectors[0], s);
    ResizeLinks(geo, e, table, bb, ib, k, size);
    var t := table[k := table[k].(size := size)];
    forall j: nat | Allocated(ib, j)
      ensures InodeOk(e, t[j], j)
    {
      assert InodeOk(d, table[j], j);
      if j != k {
        SameSectorsMeans(d, e, table[j]);
      } else {
        OneBlockOk(e, t[k], k);
      }
    }
  }

  /** Directories other than `k` read as they did. */
  lemma DirKept(d: seq<byte>, e: seq<byte>, i: Inode, dir: DT.Dir)
    requires DirStored(d, i, dir) && SameSectors(d, e, i)
    ensures DirStored(e, i, dir)
  {
    assert Ref(d, i, 0) == i.sectors[0];
  }
}
