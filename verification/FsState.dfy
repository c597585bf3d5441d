/** What holds between two calls of the file system, and how the steps of a call that adds or
    takes out an entry bring it back: the disk holds a tree, both maps and the inodes in memory
    agree with it, and every inode but the one the call is about reads as it did before. */
module FsState {
  import opened Bytes
  import opened Bitmaps
  import opened Inodes
  import opened Volumes
  import opened LinkSteps
  import opened FsSteps
  import opened DirSector
  import DT = DirTree

  ghost predicate Stored(geo: Geo, disk: seq<byte>, table: seq<Inode>, bb: seq<byte>, ib: seq<byte>, t: DT.Tree)
    requires geo.Valid()
  {
    Sound(geo, disk, table, bb, ib) && TreeStored(disk, table, ib, t)
  }

  /** The maps and the inodes in memory agree with the disk, and the disk holds the tree. */
  ghost predicate Settled(geo: Geo, disk: seq<byte>, bb: seq<byte>, ib: seq<byte>,
                          open: map<nat, Inode>, cnt: map<nat, nat>, t: DT.Tree) {
    && geo.Valid()
    && |disk| == 512 * geo.sectors
    && Synced(geo, disk, bb, ib)
    && Stored(geo, disk, TableOf(geo, disk), bb, ib, t)
    && Coherent(geo, disk, ib, open)
    && Counted(open, cnt)
  }

  /** An inode is in memory just while it has handles; the root always has one. */
  ghost predicate Counted(open: map<nat, Inode>, cnt: map<nat, nat>) {
    open.Keys == cnt.Keys && 0 in cnt && forall k: nat :: k in cnt ==> cnt[k] >= 1
  }

  function Cnt(cnt: map<nat, nat>, k: nat): nat {
    if k in cnt then cnt[k] else 0
  }

  /** The handles `more` were added to those of `cnt0`. */
  ghost predicate Gained(cnt0: map<nat, nat>, cnt: map<nat, nat>, more: multiset<nat>) {
    forall k: nat :: Cnt(cnt, k) == Cnt(cnt0, k) + more[k]
  }

  lemma SettledMeansFsOk(geo: Geo, disk: seq<byte>, bb: seq<byte>, ib: seq<byte>, open: map<nat, Inode>, cnt: map<nat, nat>, t: DT.Tree)
    ensures Settled(geo, disk, bb, ib, open, cnt, t) <==>
              FsOk(geo, disk, bb, ib, open) && Counted(open, cnt) && TreeStored(disk, TableOf(geo, disk), ib, t)
  {
    hide Links, TreeStored, FileOk, Synced, Coherent, Counted, TableInode;
    if geo.Valid() && |disk| == 512 * geo.sectors {
      var table := TableOf(geo, disk);
      assert forall k: nat :: k < MAX_FILES_PER_PART ==> table[k] == TableInode(geo, disk, k);
      if Sound(geo, disk, table, bb, ib) {
        forall k: nat | Allocated(ib, k)
          ensures TableInode(geo, disk, k).no == k && FileOk(disk, TableInode(geo, disk, k))
        {
          assert InodeOk(disk, table[k], k);
        }
      }
    }
  }

  /** Every inode but those of `but` reads as it did, and so does every sector of its. */
  ghost predicate KeptBut(d: seq<byte>, table: seq<Inode>, e: seq<byte>, table': seq<Inode>, ib: seq<byte>, but: set<nat>) {
    && |table| == |table'| == MAX_FILES_PER_PART
    && forall k: nat :: Allocated(ib, k) && k !in but ==>
         table'[k] == table[k] && table[k].Valid() && SameSectors(d, e, table[k])
  }

  lemma KeptMore(d: seq<byte>, t1: seq<Inode>, e: seq<byte>, t2: seq<Inode>, f: seq<byte>, t3: seq<Inode>, ib: seq<byte>, but: set<nat>)
    requires KeptBut(d, t1, e, t2, ib, but) && KeptBut(e, t2, f, t3, ib, but)
    ensures KeptBut(d, t1, f, t3, ib, but)
  {
    hide Ref, Sec;
    forall k: nat | Allocated(ib, k) && k !in but
      ensures t3[k] == t1[k] && SameSectors(d, f, t1[k])
    {
      SameSectorsMeans(d, e, t1[k]);
    }
  }

  lemma KeptByData(geo: Geo, d: seq<byte>, e: seq<byte>, table: seq<Inode>, bb: seq<byte>, ib: seq<byte>)
    requires geo.Valid() && Links(geo, d, table, bb, ib) && SameData(geo, d, e)
    ensures KeptBut(d, table, e, table, ib, {})
  {
    LinksSameData(geo, d, e, table, bb, ib);
  }

  /** The bytes of a file. */
  ghost function FileBytes(disk: seq<byte>, i: Inode): seq<byte> {
    if i.Valid() && i.size <= MAX_FILE_SIZE then Content(disk, i) else []
  }

  lemma KeptBytes(geo: Geo, d: seq<byte>, table: seq<Inode>, e: seq<byte>, table': seq<Inode>, bb: seq<byte>, ib: seq<byte>, but: set<nat>, k: nat)
    requires geo.Valid() && Sound(geo, d, table, bb, ib) && KeptBut(d, table, e, table', ib, but)
    requires Allocated(ib, k) && k !in but
    ensures table'[k] == table[k] && FileBytes(e, table'[k]) == FileBytes(d, table[k])
  {
    hide Links, Ref, Sec, Content;
    assert InodeOk(d, table[k], k);
    SameSectorsMeans(d, e, table[k]);
  }

  lemma StoredSameData(geo: Geo, d: seq<byte>, e: seq<byte>, table: seq<Inode>, bb: seq<byte>, ib: seq<byte>, t: DT.Tree)
    requires geo.Valid() && Stored(geo, d, table, bb, ib, t) && SameData(geo, d, e)
    ensures Stored(geo, e, table, bb, ib, t)
    ensures KeptBut(d, table, e, table, ib, {})
  {
    hide Links, InodeOk, DirStored, SameSectors, DT.TreeOk;
    SoundSameData(geo, d, e, table, bb, ib);
    KeptByData(geo, d, e, table, bb, ib);
    forall x: nat | x in t.dirs
      ensures x < |table| && DirStored(e, table[x], t.dirs[x])
    {
      TreeDirs(d, table, ib, t, x);
      DirKept(d, e, table[x], t.dirs[x]);
    }
  }

  lemma TreeDirs(d: seq<byte>, table: seq<Inode>, ib: seq<byte>, t: DT.Tree, x: nat)
    requires TreeStored(d, table, ib, t) && (x in t.up || x in t.dirs)
    ensures Allocated(ib, x) && x in t.up
    ensures x in t.dirs ==> x < |table| && DirStored(d, table[x], t.dirs[x]) && DT.DirOk(t, x)
    ensures DT.PlaceOk(t, x) && t.up[x] in t.dirs && t.up[x] in t.up
    ensures 0 in t.dirs && 0 in t.up
  {
    assert DT.PlaceOk(t, x);
    assert x in t.dirs ==> DT.DirOk(t, x);
  }

  lemma PutInodeTable(geo: Geo, d: seq<byte>, i: Inode)
    requires geo.Valid() && |d| == 512 * geo.sectors && i.no < MAX_FILES_PER_PART && i.Valid()
    ensures TableOf(geo, PutInode(geo, d, i)) == TableOf(geo, d)[i.no := i]
    ensures SameData(geo, d, PutInode(geo, d, i))
  {
    hide PutInode, TableInode;
    PutInodeEffect(geo, d, i, [], []);
  }

  /** The inode of a directory or of a new file is written back to the table. */
  lemma StoredSync(geo: Geo, d: seq<byte>, i: Inode, table: seq<Inode>, bb: seq<byte>, ib: seq<byte>, t: DT.Tree)
    requires geo.Valid() && |d| == 512 * geo.sectors && i.no < MAX_FILES_PER_PART && i.Valid()
    requires Stored(geo, d, table, bb, ib, t)
    ensures Stored(geo, PutInode(geo, d, i), table, bb, ib, t)
    ensures KeptBut(d, table, PutInode(geo, d, i), table, ib, {})
    ensures TableOf(geo, PutInode(geo, d, i)) == TableOf(geo, d)[i.no := i]
  {
    hide PutInode, Stored, KeptBut, TableOf, SameData;
    PutInodeTable(geo, d, i);
    StoredSameData(geo, d, PutInode(geo, d, i), table, bb, ib, t);
  }

  lemma PutDataTable(geo: Geo, d: seq<byte>, lba: nat, s: seq<byte>, bb: seq<byte>, ib: seq<byte>)
    requires geo.Valid() && |d| == 512 * geo.sectors && geo.dataLba <= lba < geo.sectors && |s| == SECTOR_SIZE
    ensures TableOf(geo, PutSec(d, lba, s)) == TableOf(geo, d)
    ensures Synced(geo, d, bb, ib) ==> Synced(geo, PutSec(d, lba, s), bb, ib)
  {
    hide PutSec, TableInode;
    PutDataKeepsMeta(geo, d, lba, s);
    SameMetaKeeps(geo, d, PutSec(d, lba, s), bb, ib);
  }

  // ---- an entry is added ----

  /** An inode number that is about to be entered: all is stored but for the one inode. */
  ghost predicate StoredPlus(geo: Geo, d: seq<byte>, table: seq<Inode>, bb: seq<byte>, ib: seq<byte>, t: DT.Tree, n: nat)
    requires geo.Valid()
  {
    && Sound(geo, d, table, bb, ib) && DT.TreeOk(t) && n !in t.up
    && (forall k: nat {:trigger Allocated(ib, k)} {:trigger k in t.up} :: Allocated(ib, k) <==> k in t.up || k == n)
    && (forall x: nat {:trigger x in t.dirs} :: x in t.dirs ==> x < |table| && DirStored(d, table[x], t.dirs[x]))
  }

  /** The directory's block and size are rewritten with the entry in it. */
  lemma AddStored(geo: Geo, d: seq<byte>, table: seq<Inode>, bb: seq<byte>, ib: seq<byte>, t: DT.Tree, p: nat, s: DT.Slot, sec: seq<byte>)
    requires geo.Valid() && |d| == 512 * geo.sectors && DT.CanAdd(t, p, s)
    requires StoredPlus(geo, d, table, bb, ib, t, s.no)
    requires s.kind == DT.Directory ==> s.no < |table| && DirStored(d, table[s.no], DT.NewDir(s.no, p))
    requires Holds(sec, DT.AddEntry(t.dirs[p], s).slots)
    ensures p < |table| && table[p].Valid() && geo.dataLba <= table[p].sectors[0] < geo.sectors && p in t.depth
    ensures 0 < DT.AddEntry(t.dirs[p], s).size <= 512
    ensures var e := PutSec(d, table[p].sectors[0], sec);
            var table' := table[p := table[p].(size := DT.AddEntry(t.dirs[p], s).size)];
            && Stored(geo, e, table', bb, ib, DT.TreeAdd(t, p, s))
            && KeptBut(d, table, e, table', ib, {p})
            && FileBytes(e, table'[s.no]) == FileBytes(d, table[s.no])
  {
    hide Sound, Ref, PutSec, SameSectors, DirStored, Holds, DT.AddEntry, DT.TreeOk, DT.NewDir, FileBytes, Sec, KeptBut;
    DT.AddKeepsTree(t, p, s);
    DirInTree(t, p);
    var t' := DT.TreeAdd(t, p, s);
    DirInTree(t', p);
    DirStoredMeans(d, table[p], t.dirs[p]);
    HoldsSize(sec, t'.dirs[p].slots);
    DirUpdateStep(geo, d, table, bb, ib, p, sec, t'.dirs[p].size);
    var e := PutSec(d, table[p].sectors[0], sec);
    var table' := table[p := table[p].(size := t'.dirs[p].size)];
    KeptByUpdate(geo, d, table, e, table', bb, ib, p);
    forall x: nat | x in t.dirs
      ensures x in t.up
    {
      DirInTree(t, x);
    }
    AddDirs(d, table, e, table', ib, t, p, s);
    KeptBytes(geo, d, table, e, table', bb, ib, {p}, s.no);
  }

  lemma DirInTree(t: DT.Tree, p: nat)
    requires DT.TreeOk(t) && p in t.dirs
    ensures p in t.up && p in t.depth && |t.dirs[p].slots| == DT.ENTRIES && 48 <= t.dirs[p].size <= 504
  {
    assert DT.DirOk(t, p);
  }

  lemma HoldsSize(sec: seq<byte>, slots: seq<DT.Slot>)
    requires Holds(sec, slots)
    ensures |sec| == SECTOR_SIZE
  {
  }

  lemma KeptByUpdate(geo: Geo, d: seq<byte>, table: seq<Inode>, e: seq<byte>, table': seq<Inode>, bb: seq<byte>, ib: seq<byte>, p: nat)
    requires geo.Valid() && Sound(geo, d, table, bb, ib) && p < |table|
    requires |table'| == |table| && table' == table[p := table'[p]]
    requires forall j: nat :: Allocated(ib, j) && j != p ==> SameSectors(d, e, table[j])
    ensures KeptBut(d, table, e, table', ib, {p})
  {
    hide SameSectors, Links, InodeOk;
    forall k: nat | Allocated(ib, k)
      ensures |table| == MAX_FILES_PER_PART && table[k].Valid()
    {
      InodeOkMeans(geo, d, table, bb, ib, k);
    }
    assert |table| == MAX_FILES_PER_PART by {
      SoundSizes(geo, d, table, bb, ib);
    }
  }

  lemma SoundSizes(geo: Geo, d: seq<byte>, table: seq<Inode>, bb: seq<byte>, ib: seq<byte>)
    requires geo.Valid() && Sound(geo, d, table, bb, ib)
    ensures |table| == MAX_FILES_PER_PART && |ib| == 512 && |bb| == 512 * (geo.inodeMapLba - geo.blockMapLba)
  {
  }

  lemma AddDirs(d: seq<byte>, table: seq<Inode>, e: seq<byte>, table': seq<Inode>, ib: seq<byte>, t: DT.Tree, p: nat, s: DT.Slot)
    requires p in t.dirs && p in t.depth && p < |table| == |table'| && KeptBut(d, table, e, table', ib, {p})
    requires forall x: nat :: x in t.dirs ==> x < |table| && Allocated(ib, x) && DirStored(d, table[x], t.dirs[x])
    requires s.kind == DT.Directory ==> s.no < |table| && s.no != p && Allocated(ib, s.no) && DirStored(d, table[s.no], DT.NewDir(s.no, p))
    requires table'[p].Valid() && table'[p].size == DT.AddEntry(t.dirs[p], s).size && table'[p].sectors[0] != 0
    requires Holds(Sec(e, table'[p].sectors[0]), DT.AddEntry(t.dirs[p], s).slots)
    ensures forall x: nat :: x in DT.TreeAdd(t, p, s).dirs ==> x < |table'| && DirStored(e, table'[x], DT.TreeAdd(t, p, s).dirs[x])
  {
    hide DirStored, SameSectors, Holds, DT.AddEntry, DT.NewDir, Sec;
    var t' := DT.TreeAdd(t, p, s);
    forall x: nat | x in t'.dirs
      ensures x < |table'| && DirStored(e, table'[x], t'.dirs[x])
    {
      if s.kind == DT.Directory && x == s.no {
        DirKept(d, e, table[x], DT.NewDir(x, p));
      } else if x == p {
        DirStoredHere(e, table'[p], t'.dirs[p]);
      } else {
        DirKept(d, e, table[x], t.dirs[x]);
      }
    }
  }

  lemma DirStoredMeans(d: seq<byte>, i: Inode, dir: DT.Dir)
    requires DirStored(d, i, dir)
    ensures i.Valid() && i.size == dir.size && Holds(Sec(d, i.sectors[0]), dir.slots)
  {
  }

  lemma DirStoredHere(e: seq<byte>, i: Inode, dir: DT.Dir)
    requires i.Valid() && i.size == dir.size && i.sectors[0] != 0 && Holds(Sec(e, i.sectors[0]), dir.slots)
    ensures DirStored(e, i, dir)
  {
  }

  lemma InodeOkMeans(geo: Geo, d: seq<byte>, table: seq<Inode>, bb: seq<byte>, ib: seq<byte>, k: nat)
    requires geo.Valid() && Sound(geo, d, table, bb, ib) && Allocated(ib, k)
    ensures |table| == MAX_FILES_PER_PART && table[k].Valid() && table[k].no == k && FileOk(d, table[k])
  {
    assert InodeOk(d, table[k], k);
  }

  lemma StoredPlusSameData(geo: Geo, d: seq<byte>, e: seq<byte>, table: seq<Inode>, bb: seq<byte>, ib: seq<byte>, t: DT.Tree, n: nat)
    requires geo.Valid() && StoredPlus(geo, d, table, bb, ib, t, n) && SameData(geo, d, e)
    ensures StoredPlus(geo, e, table, bb, ib, t, n)
    ensures KeptBut(d, table, e, table, ib, {})
  {
    hide Links, InodeOk, DirStored, SameSectors, DT.TreeOk;
    SoundSameData(geo, d, e, table, bb, ib);
    KeptByData(geo, d, e, table, bb, ib);
    forall x: nat | x in t.dirs
      ensures x < |table| && DirStored(e, table[x], t.dirs[x])
    {
      DirInTree(t, x);
      DirKept(d, e, table[x], t.dirs[x]);
    }
  }

  lemma StoredPlusSync(geo: Geo, d: seq<byte>, i: Inode, table: seq<Inode>, bb: seq<byte>, ib: seq<byte>, t: DT.Tree, n: nat)
    requires geo.Valid() && |d| == 512 * geo.sectors && i.no < MAX_FILES_PER_PART && i.Valid()
    requires StoredPlus(geo, d, table, bb, ib, t, n)
    ensures StoredPlus(geo, PutInode(geo, d, i), table, bb, ib, t, n)
    ensures KeptBut(d, table, PutInode(geo, d, i), table, ib, {})
    ensures TableOf(geo, PutInode(geo, d, i)) == TableOf(geo, d)[i.no := i]
  {
    hide PutInode, StoredPlus, KeptBut, TableOf, SameData;
    PutInodeTable(geo, d, i);
    StoredPlusSameData(geo, d, PutInode(geo, d, i), table, bb, ib, t, n);
  }

  /** The one inode is given up, with whatever sectors were unmarked. */
  lemma StoredAgain(geo: Geo, d: seq<byte>, e: seq<byte>, table: seq<Inode>, bb: seq<byte>, bb': seq<byte>, ib: seq<byte>, t: DT.Tree, n: nat)
    requires geo.Valid() && StoredPlus(geo, d, table, bb, ib, t, n) && SameData(geo, d, e) && |ib| == 512 && n < MAX_FILES_PER_PART
    requires Links(geo, e, table, bb', WithBit(ib, n, false))
    ensures Stored(geo, e, table, bb', WithBit(ib, n, false), t)
    ensures KeptBut(d, table, e, table, ib, {})
  {
    hide Links, DirStored, SameSectors, DT.TreeOk, InodeOk, WithBit;
    AllocatedWith(ib, n, false);
    StoredPlusSameData(geo, d, e, table, bb, ib, t, n);
    forall k: nat | Allocated(WithBit(ib, n, false), k)
      ensures InodeOk(e, table[k], k)
    {
      assert Allocated(ib, k);
    }
  }

  /** A number is taken for a file that is still empty, and written to the table. */
  lemma NewFileStored(geo: Geo, d: seq<byte>, e: seq<byte>, bb: seq<byte>, ib: seq<byte>, t: DT.Tree, n: nat)
    requires geo.Valid() && |d| == 512 * geo.sectors && Stored(geo, d, TableOf(geo, d), bb, ib, t)
    requires n < MAX_FILES_PER_PART && !Allocated(ib, n) && SameTableAndData(geo, d, e)
    ensures |ib| == 512 && EmptyInode(n).Valid() && EmptyInode(n).no == n
    ensures var f := PutInode(geo, e, EmptyInode(n));
            var table := TableOf(geo, f);
            && table == TableOf(geo, d)[n := EmptyInode(n)]
            && StoredPlus(geo, f, table, bb, WithBit(ib, n, true), t, n)
            && KeptBut(d, TableOf(geo, d), f, table, ib, {})
            && FileBytes(f, table[n]) == []
  {
    hide EmptyInode, PutInode, TableInode, SameSectors, DirStored, DT.TreeOk, Links, InodeOk, WithBit;
    EmptyFields(n);
    SameTableAndDataKeeps(geo, d, e);
    var t0 := TableOf(geo, d);
    assert TableOf(geo, e) == t0;
    PutInodeTable(geo, e, EmptyInode(n));
    var f := PutInode(geo, e, EmptyInode(n));
    NewPlus(geo, d, t0, bb, ib, t, n);
    StoredPlusSameData(geo, d, f, t0[n := EmptyInode(n)], bb, WithBit(ib, n, true), t, n);
    AllocatedWith(ib, n, true);
    KeptByData(geo, d, f, t0, bb, ib);
  }

  lemma NewPlus(geo: Geo, d: seq<byte>, table: seq<Inode>, bb: seq<byte>, ib: seq<byte>, t: DT.Tree, n: nat)
    requires geo.Valid() && Stored(geo, d, table, bb, ib, t) && n < MAX_FILES_PER_PART && !Allocated(ib, n)
    ensures |table| == MAX_FILES_PER_PART && |ib| == 512
    ensures StoredPlus(geo, d, table[n := EmptyInode(n)], bb, WithBit(ib, n, true), t, n)
  {
    hide EmptyInode, SameSectors, DirStored, DT.TreeOk, Links, InodeOk, WithBit;
    NewInodeStep(geo, d, table, bb, ib, n);
    AllocatedWith(ib, n, true);
    assert n !in t.up;
    forall x: nat | x in t.dirs
      ensures x in t.up
    {
      DirInTree(t, x);
    }
  }

  // ---- an entry is taken out ----

  lemma DropStored(geo: Geo, d: seq<byte>, table: seq<Inode>, bb: seq<byte>, ib: seq<byte>, t: DT.Tree, p: nat, no: nat, sec: seq<byte>)
    requires geo.Valid() && |d| == 512 * geo.sectors && DT.CanDrop(t, p, no) && Stored(geo, d, table, bb, ib, t)
    requires Holds(sec, DT.DropEntry(t.dirs[p], no).slots)
    ensures p < |table| && table[p].Valid() && geo.dataLba <= table[p].sectors[0] < geo.sectors
    ensures 0 < DT.DropEntry(t.dirs[p], no).size <= 512 && no != p
    ensures var e := PutSec(d, table[p].sectors[0], sec);
            var table' := table[p := table[p].(size := DT.DropEntry(t.dirs[p], no).size)];
            && StoredPlus(geo, e, table', bb, ib, DT.TreeDrop(t, p, no), no)
            && KeptBut(d, table, e, table', ib, {p})
  {
    hide Sound, Ref, PutSec, SameSectors, DirStored, Holds, DT.DropEntry, DT.TreeOk, Sec, KeptBut;
    DT.DropKeepsTree(t, p, no);
    DT.DropIndex(t, p, no);
    DirInTree(t, p);
    var t' := DT.TreeDrop(t, p, no);
    DirInTree(t', p);
    DirStoredMeans(d, table[p], t.dirs[p]);
    HoldsSize(sec, t'.dirs[p].slots);
    DirUpdateStep(geo, d, table, bb, ib, p, sec, t'.dirs[p].size);
    var e := PutSec(d, table[p].sectors[0], sec);
    var table' := table[p := table[p].(size := t'.dirs[p].size)];
    KeptByUpdate(geo, d, table, e, table', bb, ib, p);
    forall x: nat | x in t'.dirs
      ensures x < |table'| && DirStored(e, table'[x], t'.dirs[x])
    {
      DirInTree(t, x);
      if x == p {
        DirStoredHere(e, table'[p], t'.dirs[p]);
      } else {
        KeptAt(d, table, e, table', ib, {p}, x);
        DirKept(d, e, table[x], t.dirs[x]);
      }
    }
  }

  lemma KeptAt(d: seq<byte>, table: seq<Inode>, e: seq<byte>, table': seq<Inode>, ib: seq<byte>, but: set<nat>, x: nat)
    requires KeptBut(d, table, e, table', ib, but) && Allocated(ib, x) && x !in but
    ensures |table| == |table'| == MAX_FILES_PER_PART
    ensures table'[x] == table[x] && table[x].Valid() && SameSectors(d, e, table[x])
  {
  }

  // ---- the first block of a new directory ----

  function DirInode(n: u32, lba: u32): (i: Inode)
    ensures i.Valid()
  {
    Inode(n, 2 * DT.ENTRY_SIZE, EmptyInode(n).sectors[0 := lba])
  }

  /** In `f` the directory is there but for its entry and its inode on disk; whatever was
      stored in `d` is untouched. */
  ghost predicate DirLaid(geo: Geo, d: seq<byte>, f: seq<byte>, bb: seq<byte>, ib: seq<byte>, t: DT.Tree, n: nat, x: nat, p: nat)
    requires geo.Valid() && |d| == |f| == 512 * geo.sectors && n < MAX_FILES_PER_PART
    requires x < 8 * |bb| && |ib| == 512 && geo.dataLba + x < geo.sectors
  {
    var m := DirInode(n, geo.dataLba + x);
    var table := TableOf(geo, d)[n := m];
    && TableOf(geo, f) == TableOf(geo, d)
    && StoredPlus(geo, f, table, WithBit(bb, x, true), WithBit(ib, n, true), t, n)
    && DirStored(f, m, DT.NewDir(n, p))
    && KeptBut(d, TableOf(geo, d), f, table, ib, {})
    && KeptBut(d, TableOf(geo, d), f, TableOf(geo, d), ib, {})
  }

  /** A number and a sector are taken and the block is written: the directory is there but
      for its entry and its inode on disk. Until then nothing that was stored is touched. */
  lemma NewDirStored(geo: Geo, d: seq<byte>, e: seq<byte>, sec: seq<byte>, f: seq<byte>, bb: seq<byte>, ib: seq<byte>, t: DT.Tree, n: nat, x: nat, p: nat)
    requires geo.Valid() && |d| == |e| == |f| == 512 * geo.sectors && n < MAX_FILES_PER_PART && |ib| == 512 && p < U32_SIZE
    requires x < 8 * |bb| && !Bit(bb, x) && geo.dataLba + x < geo.sectors
    requires |sec| == SECTOR_SIZE && f == PutSec(e, geo.dataLba + x, sec) && Holds(sec, DT.NewDir(n, p).slots)
    requires !Allocated(ib, n) && SameTableAndData(geo, d, e) && Stored(geo, d, TableOf(geo, d), bb, ib, t)
    ensures DirLaid(geo, d, f, bb, ib, t, n, x, p)
  {
    hide EmptyInode, PutSec, TableInode, SameSectors, DirStored, DT.TreeOk, Sound, WithBit, DT.NewDir, Holds, SameTableAndData, Sec, Ref, KeptBut, TableOf, SameData;
    EmptyFields(n);
    TableSame(geo, d, e);
    var t0 := TableOf(geo, d);
    StoredSameData(geo, d, e, t0, bb, ib, t);
    NewPlus(geo, e, t0, bb, ib, t, n);
    var ib' := WithBit(ib, n, true);
    AllocatedWith(ib, n, true);
    FirstBlockStep(geo, e, t0[n := EmptyInode(n)], bb, ib', n, x, sec, 48);
    var m := DirInode(n, geo.dataLba + x);
    PutDataTable(geo, e, geo.dataLba + x, sec, [], []);
    var table := t0[n := m];
    assert t0[n := EmptyInode(n)][n := m] == table;
    NewDirSize(n, p);
    DirStoredHere(f, m, DT.NewDir(n, p));
    NewKept(geo, e, t0, f, bb, ib, n, m);
    KeptMore(d, t0, e, t0, f, table, ib, {});
    KeptMore(d, t0, e, t0, f, t0, ib, {});
    NewDirOthers(e, t0, f, table, ib, t);
  }

  lemma NewKept(geo: Geo, e: seq<byte>, t0: seq<Inode>, f: seq<byte>, bb: seq<byte>, ib: seq<byte>, n: nat, m: Inode)
    requires geo.Valid() && Sound(geo, e, t0, bb, ib) && n < |t0| && !Allocated(ib, n)
    requires forall j: nat :: Allocated(ib, j) ==> SameSectors(e, f, t0[n := EmptyInode(n)][j])
    ensures KeptBut(e, t0, f, t0[n := m], ib, {}) && KeptBut(e, t0, f, t0, ib, {})
  {
    hide SameSectors, Sound, EmptyInode;
    SoundSizes(geo, e, t0, bb, ib);
    forall k: nat | Allocated(ib, k)
      ensures t0[k].Valid() && SameSectors(e, f, t0[k])
    {
      InodeOkMeans(geo, e, t0, bb, ib, k);
      assert t0[n := EmptyInode(n)][k] == t0[k];
    }
  }

  lemma TableSame(geo: Geo, d: seq<byte>, e: seq<byte>)
    requires geo.Valid() && |d| == 512 * geo.sectors && SameTableAndData(geo, d, e)
    ensures |e| == |d| && TableOf(geo, e) == TableOf(geo, d) && SameData(geo, d, e)
  {
    hide TableInode;
    SameTableAndDataKeeps(geo, d, e);
  }

  lemma NewDirSize(n: nat, p: nat)
    ensures DT.NewDir(n, p).size == 48
  {
  }

  lemma NewDirOthers(d: seq<byte>, table: seq<Inode>, e: seq<byte>, table': seq<Inode>, ib: seq<byte>, t: DT.Tree)
    requires TreeStored(d, table, ib, t) && KeptBut(d, table, e, table', ib, {})
    ensures forall x: nat :: x in t.dirs ==> x < |table'| && DirStored(e, table'[x], t.dirs[x])
  {
    hide DirStored, DT.TreeOk, SameSectors;
    forall x: nat | x in t.dirs
      ensures x < |table'| && DirStored(e, table'[x], t.dirs[x])
    {
      TreeDirs(d, table, ib, t, x);
      DirKept(d, e, table[x], t.dirs[x]);
    }
  }

  /** What was stored is stored still where every allocated inode was kept. */
  lemma StoredKept(geo: Geo, d: seq<byte>, table: seq<Inode>, e: seq<byte>, bb: seq<byte>, ib: seq<byte>, t: DT.Tree)
    requires geo.Valid() && Stored(geo, d, table, bb, ib, t) && KeptBut(d, table, e, table, ib, {})
    ensures Stored(geo, e, table, bb, ib, t)
  {
    hide DirStored, DT.TreeOk, SameSectors, Links, FileOk, InodeOk;
    LinksSameRefs(geo, d, e, table, bb, ib);
    forall k: nat | Allocated(ib, k)
      ensures InodeOk(e, table[k], k)
    {
      InodeOkMeans(geo, d, table, bb, ib, k);
      SameSectorsMeans(d, e, table[k]);
      InodeOkHere(e, table[k], k);
    }
    NewDirOthers(d, table, e, table, ib, t);
  }

  lemma InodeOkHere(e: seq<byte>, i: Inode, k: nat)
    requires i.Valid() && i.no == k && FileOk(e, i)
    ensures InodeOk(e, i, k)
  {
  }
}
