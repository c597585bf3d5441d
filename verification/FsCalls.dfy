/** The calls on paths: searching, opening, creating, unlinking, making and removing
    directories, changing to one and asking where one is. The methods are those of one class,
    whose ghost field is the tree the disk holds; the lemmas before it say how the state on disk
    and in memory goes from the beginning of a call to its end. */
module FsCalls {
  import opened Bytes
  import opened Bitmaps
  import opened Inodes
  import opened Numbers
  import opened Volumes
  import opened LinkSteps
  import opened FileIo
  import opened FsSteps
  import opened FsState
  import opened DirSector
  import DT = DirTree
  import PT = PathText
  import PW = PathWalk
  import opened PathSearch

  /** A directory's inode and block as the calls find them: one block, holding the entries. */
  ghost predicate DirReady(geo: Geo, disk: seq<byte>, i: Inode, dir: DT.Dir) {
    && i.Valid() && i.size == dir.size && 0 < i.size <= 512
    && geo.dataLba <= i.sectors[0] < geo.sectors && i.sectors[0] != 0 && i.sectors[12] == 0
    && (forall s: nat :: 0 < s < SLOTS ==> Ref(disk, i, s) == 0)
    && Holds(Sec(disk, i.sectors[0]), dir.slots)
    && (forall s: nat :: s < |dir.slots| && dir.slots[s].kind == DT.Unknown ==> dir.slots[s] == DT.FREE)
  }

  lemma DirSlots(t: DT.Tree, d: nat)
    requires DT.TreeOk(t) && d in t.dirs
    ensures d in t.up && d in t.depth && |t.dirs[d].slots| == DT.ENTRIES && t.dirs[d].slots[1].no == t.up[d]
    ensures 48 <= t.dirs[d].size <= 504
    ensures forall s: nat :: s < DT.ENTRIES && t.dirs[d].slots[s].kind == DT.Unknown ==> t.dirs[d].slots[s] == DT.FREE
  {
    assert DT.DirOk(t, d);
  }

  lemma ReadyHere(geo: Geo, d: seq<byte>, table: seq<Inode>, bb: seq<byte>, ib: seq<byte>, t: DT.Tree, k: nat)
    requires geo.Valid() && Sound(geo, d, table, bb, ib) && DT.TreeOk(t) && k in t.dirs && Allocated(ib, k)
    requires k < |table| && DirStored(d, table[k], t.dirs[k])
    ensures DirReady(geo, d, table[k], t.dirs[k]) && table[k].no == k
  {
    hide DT.TreeOk, Links, Ref, FileOk, Sec;
    DirSlots(t, k);
    InodeOkMeans(geo, d, table, bb, ib, k);
    InodeOkHere(d, table[k], k);
    OneBlockOnly(d, table[k], k);
    SlotIsAlone(geo, d, table, bb, ib, k, 0);
  }

  /** A directory of the tree, open or not. */
  lemma SettledDir(geo: Geo, disk: seq<byte>, bb: seq<byte>, ib: seq<byte>, open: map<nat, Inode>, cnt: map<nat, nat>, t: DT.Tree, d: nat)
    requires Settled(geo, disk, bb, ib, open, cnt, t) && d in t.dirs
    ensures geo.Valid() && d < MAX_FILES_PER_PART && Allocated(ib, d) && DT.TreeOk(t)
    ensures TableInode(geo, disk, d).no == d
    ensures DirReady(geo, disk, TableInode(geo, disk, d), t.dirs[d]) && |disk| == 512 * geo.sectors
    ensures d in open ==> open[d] == TableInode(geo, disk, d)
  {
    hide DT.TreeOk, Links, InodeOk, DirStored, DirReady, TableInode;
    var table := TableOf(geo, disk);
    TreeDirs(disk, table, ib, t, d);
    ReadyHere(geo, disk, table, bb, ib, t, d);
    assert table[d] == TableInode(geo, disk, d);
  }

  lemma ReadyBlocks(geo: Geo, disk: seq<byte>, i: Inode, dir: DT.Dir)
    requires DirReady(geo, disk, i, dir) && |disk| == 512 * geo.sectors
    ensures i.Valid() && i.sectors[12] == 0 && i.sectors[0] != 0 && 512 * i.sectors[0] + 512 <= |disk| && 512 <= |disk|
    ensures forall s: nat :: s < SLOTS ==> Ref(disk, i, s) == if s == 0 then i.sectors[0] else 0
    ensures Holds(Sec(disk, i.sectors[0]), dir.slots) && |dir.slots| == DT.ENTRIES
  {
    hide Sec;
    SectorRef(disk, i, 0);
  }

  lemma ReadyEntries(geo: Geo, disk: seq<byte>, i: Inode, dir: DT.Dir)
    requires DirReady(geo, disk, i, dir) && |disk| == 512 * geo.sectors
    ensures i.Valid() && i.size == dir.size && 0 < i.size <= 512 && geo.dataLba <= i.sectors[0] < geo.sectors
    ensures Holds(Sec(disk, i.sectors[0]), dir.slots) && |dir.slots| == DT.ENTRIES
    ensures forall s: nat :: s < |dir.slots| && dir.slots[s].kind == DT.Unknown ==> dir.slots[s] == DT.FREE
  {
    hide Ref, Sec;
  }

  /** A directory's block was rewritten to hold `dir`, and its size in memory set to it. */
  ghost predicate EntryWritten(geo: Geo, d: seq<byte>, e: seq<byte>, open: map<nat, Inode>, open': map<nat, Inode>, k: nat, dir: DT.Dir) {
    && k in open && open[k].Valid() && 512 * open[k].sectors[0] + 512 <= |d| && dir.size < U32_SIZE
    && Holds(Sec(e, open[k].sectors[0]), dir.slots)
    && e == PutSec(d, open[k].sectors[0], Sec(e, open[k].sectors[0]))
    && open' == open[k := open[k].(size := dir.size)]
  }

  lemma NameFits(s: DT.Slot)
    requires Storable(s)
    ensures |s.name| < 16
  {
  }

  /** Every file that is there before and after has the same inode and the same bytes. */
  ghost predicate BytesKept(geo: Geo, d: seq<byte>, e: seq<byte>, t: DT.Tree, t': DT.Tree)
    requires geo.Valid() && |d| == |e| == 512 * geo.sectors
  {
    forall k: nat :: k in t.files && k in t'.files && k < MAX_FILES_PER_PART ==>
      TableInode(geo, e, k) == TableInode(geo, d, k) && FileBytes(e, TableInode(geo, e, k)) == FileBytes(d, TableInode(geo, d, k))
  }

  // ---- the inodes are written back ----

  lemma KeptWeaken(d: seq<byte>, t1: seq<Inode>, e: seq<byte>, t2: seq<Inode>, ib: seq<byte>, ib': seq<byte>, but: set<nat>, but': set<nat>)
    requires KeptBut(d, t1, e, t2, ib, but) && but <= but' && forall k: nat :: Allocated(ib', k) ==> Allocated(ib, k)
    ensures KeptBut(d, t1, e, t2, ib', but')
  {
    hide SameSectors;
  }

  /** After the entry the directory's inode is written back. */
  lemma AddSynced(geo: Geo, d: seq<byte>, table: seq<Inode>, e: seq<byte>, f: seq<byte>, bb: seq<byte>, ib: seq<byte>, t: DT.Tree,
                  p: nat, s: DT.Slot, open: map<nat, Inode>, open': map<nat, Inode>)
    requires geo.Valid() && |d| == |e| == 512 * geo.sectors && s.no < MAX_FILES_PER_PART == |table| && p < MAX_FILES_PER_PART
    requires p in open && p in open' && open[p] == table[p] && open'[p].Valid() && open'[p].no == p
    requires f == PutInode(geo, e, open'[p])
    requires DT.CanAdd(t, p, s) && StoredPlus(geo, d, table, bb, ib, t, s.no)
    requires s.kind == DT.Directory ==> DirStored(d, table[s.no], DT.NewDir(s.no, p))
    requires EntryWritten(geo, d, e, open, open', p, DT.AddEntry(t.dirs[p], s))
    ensures p in t.depth && s.no != p
    ensures Stored(geo, f, table[p := open'[p]], bb, ib, DT.TreeAdd(t, p, s))
    ensures KeptBut(d, table, f, table[p := open'[p]], ib, {p})
    ensures TableOf(geo, f) == TableOf(geo, d)[p := open'[p]]
    ensures FileBytes(f, table[s.no]) == FileBytes(d, table[s.no])
  {
    hide StoredPlus, Stored, DirStored, Holds, DT.TreeOk, DT.AddEntry, DT.NewDir, PutSec, Sec, KeptBut, FileBytes, TableInode, PutInode, DT.TreeAdd;
    var sec := Sec(e, open[p].sectors[0]);
    AddStored(geo, d, table, bb, ib, t, p, s, sec);
    PlusNew(geo, d, table, bb, ib, t, p, s);
    PutDataTable(geo, d, open[p].sectors[0], sec, bb, ib);
    var table' := table[p := open'[p]];
    StoredSync(geo, e, open'[p], table', bb, ib, DT.TreeAdd(t, p, s));
    KeptWeaken(e, table', f, table', ib, ib, {}, {p});
    KeptMore(d, table, e, table', f, table', ib, {p});
    StoredParts(geo, e, table', bb, ib, DT.TreeAdd(t, p, s));
    KeptBytes(geo, e, table', f, table', bb, ib, {p}, s.no);
  }

  lemma PlusNew(geo: Geo, d: seq<byte>, table: seq<Inode>, bb: seq<byte>, ib: seq<byte>, t: DT.Tree, p: nat, s: DT.Slot)
    requires geo.Valid() && StoredPlus(geo, d, table, bb, ib, t, s.no) && s.no < MAX_FILES_PER_PART && p in t.dirs
    ensures Allocated(ib, s.no) && s.no != p && Allocated(ib, p)
  {
    hide Sound, DirStored, DT.TreeOk;
    DirSlots(t, p);
  }

  lemma StoredParts(geo: Geo, d: seq<byte>, table: seq<Inode>, bb: seq<byte>, ib: seq<byte>, t: DT.Tree)
    requires geo.Valid() && Stored(geo, d, table, bb, ib, t)
    ensures Sound(geo, d, table, bb, ib) && TreeStored(d, table, ib, t) && DT.TreeOk(t)
  {
  }

  /** A call that worked on one directory is over. */
  lemma SettledAgain(geo: Geo, d: seq<byte>, e: seq<byte>, bb: seq<byte>, bb': seq<byte>, ib: seq<byte>, ib': seq<byte>,
                     open: map<nat, Inode>, open': map<nat, Inode>, cnt: map<nat, nat>, t: DT.Tree, t': DT.Tree, p: nat)
    requires Settled(geo, d, bb, ib, open, cnt, t) && |e| == 512 * geo.sectors && Synced(geo, e, bb', ib')
    requires Stored(geo, e, TableOf(geo, e), bb', ib', t')
    requires KeptBut(d, TableOf(geo, d), e, TableOf(geo, e), ib, {p})
    requires p < MAX_FILES_PER_PART && p in open && open' == open[p := TableInode(geo, e, p)]
    requires forall k: nat :: k in open ==> Allocated(ib', k)
    requires p in t.dirs
    ensures Settled(geo, e, bb', ib', open', cnt, t') && BytesKept(geo, d, e, t, t')
  {
    hide Stored, Synced, KeptBut, Coherent, TableOf;
    CoherentAgain(geo, d, e, bb', ib, ib', open, open', t', p);
    KeptFiles(geo, d, e, bb, ib, t, t', p);
  }

  lemma CoherentAgain(geo: Geo, d: seq<byte>, e: seq<byte>, bb': seq<byte>, ib: seq<byte>, ib': seq<byte>,
                      open: map<nat, Inode>, open': map<nat, Inode>, t': DT.Tree, p: nat)
    requires geo.Valid() && |d| == |e| == 512 * geo.sectors && Coherent(geo, d, ib, open)
    requires Stored(geo, e, TableOf(geo, e), bb', ib', t')
    requires KeptBut(d, TableOf(geo, d), e, TableOf(geo, e), ib, {p})
    requires p < MAX_FILES_PER_PART && p in open && open' == open[p := TableInode(geo, e, p)]
    requires forall k: nat :: k in open ==> Allocated(ib', k)
    ensures Coherent(geo, e, ib', open')
  {
    hide DT.TreeOk, Sound, DirStored, TableInode, SameSectors, TreeStored;
    var t0, t1 := TableOf(geo, d), TableOf(geo, e);
    InodeOkMeans(geo, e, t1, bb', ib', p);
    forall k: nat | k < MAX_FILES_PER_PART
      ensures t0[k] == TableInode(geo, d, k) && t1[k] == TableInode(geo, e, k)
    {
    }
  }

  lemma KeptFiles(geo: Geo, d: seq<byte>, e: seq<byte>, bb: seq<byte>, ib: seq<byte>, t: DT.Tree, t': DT.Tree, p: nat)
    requires geo.Valid() && |d| == |e| == 512 * geo.sectors && p in t.dirs
    requires Stored(geo, d, TableOf(geo, d), bb, ib, t)
    requires KeptBut(d, TableOf(geo, d), e, TableOf(geo, e), ib, {p})
    ensures BytesKept(geo, d, e, t, t')
  {
    hide DT.TreeOk, Sound, DirStored, TableInode, FileBytes, SameSectors, KeptBut;
    var t0, t1 := TableOf(geo, d), TableOf(geo, e);
    forall k: nat | k in t.files && k in t'.files && k < MAX_FILES_PER_PART
      ensures TableInode(geo, e, k) == TableInode(geo, d, k) && FileBytes(e, TableInode(geo, e, k)) == FileBytes(d, TableInode(geo, d, k))
    {
      FilePlaces(t, p, k);
      KeptBytes(geo, d, t0, e, t1, bb, ib, {p}, k);
      assert t0[k] == TableInode(geo, d, k) && t1[k] == TableInode(geo, e, k);
    }
  }

  lemma FilePlaces(t: DT.Tree, p: nat, k: nat)
    requires DT.TreeOk(t) && p in t.dirs && k in t.files
    ensures k != p && k in t.up
  {
  }

  // ---- handles ----

  lemma OpenStep(geo: Geo, disk: seq<byte>, bb: seq<byte>, ib: seq<byte>, open: map<nat, Inode>, cnt: map<nat, nat>, t: DT.Tree, k: nat)
    requires Settled(geo, disk, bb, ib, open, cnt, t) && k in t.up
    ensures geo.Valid() && |disk| == 512 * geo.sectors && k < MAX_FILES_PER_PART && open.Keys == cnt.Keys && Synced(geo, disk, bb, ib) && TableInode(geo, disk, k).no == k
    ensures k in open ==> open[k] == TableInode(geo, disk, k)
    ensures Settled(geo, disk, bb, ib, open[k := TableInode(geo, disk, k)], cnt[k := Cnt(cnt, k) + 1], t)
    ensures forall cnt0: map<nat, nat>, g: multiset<nat> :: Gained(cnt0, cnt, g) ==> Gained(cnt0, cnt[k := Cnt(cnt, k) + 1], g + multiset{k})
  {
    hide DT.TreeOk, Links, DirStored, FileOk, Synced, TableInode;
    var table := TableOf(geo, disk);
    assert Allocated(ib, k);
    InodeOkMeans(geo, disk, table, bb, ib, k);
    assert table[k] == TableInode(geo, disk, k);
  }

  function Closed<T>(m: map<nat, T>, cnt: map<nat, nat>, k: nat): map<nat, T>
    requires k in cnt
  {
    if cnt[k] == 1 then m - {k} else m
  }

  function Fewer(cnt: map<nat, nat>, k: nat): map<nat, nat>
    requires k in cnt && cnt[k] >= 1
  {
    if cnt[k] == 1 then cnt - {k} else cnt[k := cnt[k] - 1]
  }

  lemma CloseStep(geo: Geo, disk: seq<byte>, bb: seq<byte>, ib: seq<byte>, open: map<nat, Inode>, cnt: map<nat, nat>, t: DT.Tree,
                  k: nat, cnt0: map<nat, nat>, g: multiset<nat>)
    requires Settled(geo, disk, bb, ib, open, cnt, t) && Gained(cnt0, cnt, g) && k in g && Cnt(cnt0, 0) >= 1
    ensures k in open && k in cnt && cnt[k] >= 1
    ensures Settled(geo, disk, bb, ib, Closed(open, cnt, k), Fewer(cnt, k), t)
    ensures Gained(cnt0, Fewer(cnt, k), g - multiset{k})
  {
    hide DT.TreeOk, Sound, DirStored, Synced, TableInode, TreeStored;
    assert Cnt(cnt, k) >= 1;
    assert Cnt(cnt, 0) >= 1;
    assert k == 0 ==> Cnt(cnt, 0) >= 2;
  }

  lemma MountSettled(g: Geo, d: seq<byte>, bb: seq<byte>, ib: seq<byte>, t: DT.Tree)
    requires g.Valid() && |d| == 512 * g.sectors && Synced(g, d, bb, ib)
    ensures Settled(g, d, bb, ib, map[0 := TableInode(g, d, 0).(no := 0)], map[0 := 1], t) <==>
              Stored(g, d, TableOf(g, d), d[512 * g.blockMapLba..512 * g.inodeMapLba], d[512 * g.inodeMapLba..512 * g.tableLba], t)
  {
    hide DT.TreeOk, Links, DirStored, FileOk, TableInode;
    var table := TableOf(g, d);
    if Stored(g, d, table, bb, ib, t) {
      KeysHaveRoot(t);
      InodeOkMeans(g, d, table, bb, ib, 0);
      assert table[0] == TableInode(g, d, 0);
    }
  }

  lemma KeysHaveRoot(t: DT.Tree)
    requires DT.TreeOk(t)
    ensures 0 in t.dirs && 0 in t.up
  {
  }

  lemma SettledForm(geo: Geo, disk: seq<byte>, bb: seq<byte>, ib: seq<byte>, open: map<nat, Inode>, cnt: map<nat, nat>, t: DT.Tree)
    requires Settled(geo, disk, bb, ib, open, cnt, t)
    ensures geo.Valid() && |disk| == 512 * geo.sectors && Synced(geo, disk, bb, ib)
    ensures open.Keys == cnt.Keys && 0 in open && 0 in t.dirs && DT.TreeOk(t) && Cnt(cnt, 0) >= 1
  {
  }

  lemma SettledStored(geo: Geo, disk: seq<byte>, bb: seq<byte>, ib: seq<byte>, open: map<nat, Inode>, cnt: map<nat, nat>, t: DT.Tree)
    requires Settled(geo, disk, bb, ib, open, cnt, t)
    ensures geo.Valid() && |disk| == 512 * geo.sectors && Stored(geo, disk, TableOf(geo, disk), bb, ib, t)
  {
  }

  lemma FoundDirectory(t: DT.Tree, p: PT.Text)
    requires DT.TreeOk(t) && PT.Clean(p)
    ensures var o := Search(t, p);
            && (o.no == -1 || o.no >= 0) && (o.no == -1 <==> o.kind == DT.Unknown)
            && (o.kind == DT.Directory ==> o.no in t.dirs) && (o.kind == DT.Regular ==> o.no in t.files)
            && (KindNo(o.kind) == 2 <==> o.kind == DT.Directory) && (KindNo(o.kind) == 1 <==> o.kind == DT.Regular)
  {
    hide DT.TreeOk, Special, SearchFrom, PT.Components, PW.Walk, PW.Lookup;
    SearchMeans(t, p);
    KeysHaveRoot(t);
    var o := Search(t, p);
    if o.no != -1 && o.names != [] {
      assert DT.GoodName(o.names[|o.names| - 1]);
      FoundIsSubdir(t, At(o.parent), o.names[|o.names| - 1]);
    }
  }

  // ---- creating ----

  /** The least inode number that is not taken, 4096 if there is none. */
  ghost function FreeNo(ib: seq<byte>, k: nat): nat
    decreases MAX_FILES_PER_PART - k
  {
    if k >= MAX_FILES_PER_PART || !Allocated(ib, k) then k else FreeNo(ib, k + 1)
  }

  lemma {:induction false} FreeNoIs(ib: seq<byte>, k: nat, n: nat)
    requires k <= n < MAX_FILES_PER_PART && !Allocated(ib, n) && forall j: nat :: k <= j < n ==> Allocated(ib, j)
    ensures FreeNo(ib, k) == n
    decreases n - k
  {
    hide Allocated;
    if k < n {
      FreeNoIs(ib, k + 1, n);
    }
  }

  lemma {:induction false} NoFreeNo(ib: seq<byte>, k: nat)
    requires k <= MAX_FILES_PER_PART && forall j: nat :: j < MAX_FILES_PER_PART ==> Allocated(ib, j)
    ensures FreeNo(ib, k) == MAX_FILES_PER_PART
    decreases MAX_FILES_PER_PART - k
  {
    hide Allocated;
    if k < MAX_FILES_PER_PART {
      NoFreeNo(ib, k + 1);
    }
  }

  /** What sys_rmdir removes: a directory other than the root whose size is that of its first
      two entries. */
  predicate Removable(t: DT.Tree, o: Outcome) {
    o.kind == DT.Directory && o.no != 0 && o.no in t.dirs && t.dirs[o.no].size == 2 * DT.ENTRY_SIZE
  }

  /** A directory with a free entry. */
  predicate HasRoom(t: DT.Tree, d: nat) {
    d in t.dirs && DT.FindFree(t.dirs[d].slots, 0) < |t.dirs[d].slots|
  }

  /** The search stopped at a name that can be entered where it stopped. */
  ghost predicate Addable(t: DT.Tree, o: Outcome, n: nat, kind: DT.Kind) {
    && o.no == -1 && o.parent != NoDir && o.names != [] && At(o.parent) in t.dirs && At(o.parent) in t.depth
    && DT.CanAdd(t, At(o.parent), DT.Slot(o.names[|o.names| - 1], n, kind))
  }

  lemma BytesSame(geo: Geo, d: seq<byte>, t: DT.Tree)
    requires geo.Valid() && |d| == 512 * geo.sectors
    ensures BytesKept(geo, d, d, t, t)
  {
  }

  lemma ParentOpen(geo: Geo, disk: seq<byte>, bb: seq<byte>, ib: seq<byte>, open: map<nat, Inode>, cnt: map<nat, nat>, t: DT.Tree,
                   cnt0: map<nat, nat>, via: seq<nat>, h: Handle)
    requires Settled(geo, disk, bb, ib, open, cnt, t) && Gained(cnt0, cnt, multiset(via)) && h == ParentOf(via)
    ensures At(h) in open && |ib| == 512
  {
    hide Stored, Synced, Coherent;
    SettledSizes(geo, disk, bb, ib, open, cnt, t);
    if via != [] {
      LastOfVia(via);
      assert Cnt(cnt, At(h)) >= 1;
    }
  }

  lemma SettledSizes(geo: Geo, disk: seq<byte>, bb: seq<byte>, ib: seq<byte>, open: map<nat, Inode>, cnt: map<nat, nat>, t: DT.Tree)
    requires Settled(geo, disk, bb, ib, open, cnt, t)
    ensures |ib| == 512
  {
    SoundSizes(geo, disk, TableOf(geo, disk), bb, ib);
  }

  lemma GoodStorable(n: DT.Name, no: nat, kind: DT.Kind)
    requires DT.GoodName(n) && no < MAX_FILES_PER_PART
    ensures Storable(DT.Slot(n, no, kind))
  {
  }

  lemma FreeNumber(geo: Geo, disk: seq<byte>, bb: seq<byte>, ib: seq<byte>, open: map<nat, Inode>, cnt: map<nat, nat>, t: DT.Tree, n: nat)
    requires Settled(geo, disk, bb, ib, open, cnt, t) && !Allocated(ib, n)
    ensures n !in t.up && n != 0 && n !in open
  {
    hide DT.TreeOk, Sound, DirStored;
    KeysHaveRoot(t);
  }

  lemma PlusReady(geo: Geo, d0: seq<byte>, d: seq<byte>, table: seq<Inode>, bb: seq<byte>, ib0: seq<byte>, ib: seq<byte>, t: DT.Tree, n: nat, p: nat, i: Inode)
    requires geo.Valid() && |d0| == |d| == 512 * geo.sectors && p < MAX_FILES_PER_PART && i == TableInode(geo, d0, p)
    requires StoredPlus(geo, d, table, bb, ib, t, n) && KeptBut(d0, TableOf(geo, d0), d, table, ib0, {}) && Allocated(ib0, p)
    requires p in t.dirs
    ensures |table| == MAX_FILES_PER_PART && i == table[p] && i.no == p && DirReady(geo, d, i, t.dirs[p])
  {
    hide DT.TreeOk, Sound, DirStored, SameSectors, DirReady, TableInode;
    DirSlots(t, p);
    ReadyHere(geo, d, table, bb, ib, t, p);
    assert TableOf(geo, d0)[p] == TableInode(geo, d0, p);
  }

  lemma EntryWrittenInode(geo: Geo, d: seq<byte>, e: seq<byte>, open: map<nat, Inode>, open': map<nat, Inode>, p: nat, dir: DT.Dir)
    requires EntryWritten(geo, d, e, open, open', p, dir)
    ensures p in open && open[p].Valid() && p in open' && open'[p].Valid() && open'[p].no == open[p].no && |e| == |d|
    ensures open' == open[p := open'[p]]
  {
  }

  /** The number is given back: nothing came of it. */
  lemma UndoNumber(geo: Geo, d0: seq<byte>, d: seq<byte>, e: seq<byte>, table: seq<Inode>, bb: seq<byte>, ib0: seq<byte>, ib: seq<byte>,
                   open: map<nat, Inode>, cnt: map<nat, nat>, t: DT.Tree, n: nat, p: nat)
    requires Settled(geo, d0, bb, ib0, open, cnt, t) && |d| == |d0| && p in open && p in t.dirs
    requires StoredPlus(geo, d, table, bb, ib, t, n) && table == TableOf(geo, d) && n < MAX_FILES_PER_PART && |ib0| == |ib| == 512
    requires KeptBut(d0, TableOf(geo, d0), d, table, ib0, {}) && ib == WithBit(ib0, n, true) && !Allocated(ib0, n)
    requires SameTableAndData(geo, d, e) && Synced(geo, e, bb, WithBit(ib, n, false))
    ensures Settled(geo, e, bb, WithBit(ib, n, false), open, cnt, t) && BytesKept(geo, d0, e, t, t)
  {
    hide Stored, StoredPlus, KeptBut, TableInode, Synced, Links, WithBit, Settled;
    SettledForm(geo, d0, bb, ib0, open, cnt, t);
    TableSame(geo, d, e);
    NumberGone(geo, d, e, table, bb, ib, t, n);
    AllocatedWith(ib0, n, true);
    AllocatedWith(ib, n, false);
    KeptWeaken(d, table, e, table, ib, ib0, {}, {});
    KeptMore(d0, TableOf(geo, d0), d, table, e, table, ib0, {});
    KeptWeaken(d0, TableOf(geo, d0), e, table, ib0, ib0, {}, {p});
    OpenStays(geo, d0, e, bb, ib0, open, cnt, t, table, p);
    SettledAgain(geo, d0, e, bb, bb, ib0, WithBit(ib, n, false), open, open, cnt, t, t, p);
  }

  lemma NumberGone(geo: Geo, d: seq<byte>, e: seq<byte>, table: seq<Inode>, bb: seq<byte>, ib: seq<byte>, t: DT.Tree, n: nat)
    requires geo.Valid() && StoredPlus(geo, d, table, bb, ib, t, n) && SameData(geo, d, e) && |ib| == 512 && n < MAX_FILES_PER_PART
    ensures Stored(geo, e, table, bb, WithBit(ib, n, false), t) && KeptBut(d, table, e, table, ib, {})
  {
    hide Links, DirStored, DT.TreeOk, InodeOk, WithBit;
    DropInode(geo, d, table, bb, ib, n);
    LinksSameData(geo, d, e, table, bb, WithBit(ib, n, false));
    StoredAgain(geo, d, e, table, bb, bb, ib, t, n);
  }

  lemma OpenStays(geo: Geo, d0: seq<byte>, e: seq<byte>, bb: seq<byte>, ib0: seq<byte>, open: map<nat, Inode>, cnt: map<nat, nat>, t: DT.Tree, table: seq<Inode>, p: nat)
    requires Settled(geo, d0, bb, ib0, open, cnt, t) && |e| == |d0| && table == TableOf(geo, e) && p in open
    requires KeptBut(d0, TableOf(geo, d0), e, table, ib0, {})
    ensures p < MAX_FILES_PER_PART && open == open[p := TableInode(geo, e, p)]
    ensures forall k: nat :: k in open ==> Allocated(ib0, k)
  {
    hide TableInode, Stored, SameSectors;
    assert TableOf(geo, d0)[p] == TableInode(geo, d0, p) && table[p] == TableInode(geo, e, p);
  }

  lemma CreateDone(geo: Geo, d0: seq<byte>, d2: seq<byte>, d4: seq<byte>, table: seq<Inode>, bb: seq<byte>, ib0: seq<byte>, ib: seq<byte>,
                   open: map<nat, Inode>, open': map<nat, Inode>, cnt: map<nat, nat>, t: DT.Tree, t': DT.Tree, p: nat, n: nat)
    requires Settled(geo, d0, bb, ib0, open, cnt, t) && |d2| == |d4| == |d0| && p in open && p in open' && open' == open[p := open'[p]]
    requires n < |table| == MAX_FILES_PER_PART && p < MAX_FILES_PER_PART && n != p && p in t.dirs && |ib0| == 512
    requires KeptBut(d0, TableOf(geo, d0), d2, table, ib0, {}) && ib == WithBit(ib0, n, true)
    requires KeptBut(d2, table, d4, TableOf(geo, d4), ib, {p}) && Synced(geo, d4, bb, ib)
    requires TableOf(geo, d4) == table[p := open'[p]]
    requires Stored(geo, d4, TableOf(geo, d4), bb, ib, t')
    ensures Settled(geo, d4, bb, ib, open', cnt, t') && BytesKept(geo, d0, d4, t, t')
    ensures TableInode(geo, d4, n) == table[n]
  {
    hide Stored, KeptBut, TableInode, Synced, WithBit, Settled;
    SettledForm(geo, d0, bb, ib0, open, cnt, t);
    AllocatedWith(ib0, n, true);
    var t4 := TableOf(geo, d4);
    KeptWeaken(d0, TableOf(geo, d0), d2, table, ib0, ib0, {}, {p});
    KeptWeaken(d2, table, d4, t4, ib, ib0, {p}, {p});
    KeptMore(d0, TableOf(geo, d0), d2, table, d4, t4, ib0, {p});
    assert t4[p] == TableInode(geo, d4, p) && t4[n] == TableInode(geo, d4, n);
    OpenAllocated(geo, d0, bb, ib0, open, cnt, t);
    SettledAgain(geo, d0, d4, bb, bb, ib0, ib, open, open', cnt, t, t', p);
  }

  lemma OpenAllocated(geo: Geo, disk: seq<byte>, bb: seq<byte>, ib: seq<byte>, open: map<nat, Inode>, cnt: map<nat, nat>, t: DT.Tree)
    requires Settled(geo, disk, bb, ib, open, cnt, t)
    ensures forall k: nat :: k in open ==> Allocated(ib, k)
  {
    hide Stored, TableInode;
  }

  // ---- making directories ----

  /** A directory's block was rewritten, whatever it holds now, and its inode written back. */
  lemma DirSynced(geo: Geo, d: seq<byte>, e: seq<byte>, f: seq<byte>, table: seq<Inode>, bb: seq<byte>, ib: seq<byte>, t: DT.Tree, p: nat,
                  open: map<nat, Inode>, open': map<nat, Inode>, dir: DT.Dir)
    requires geo.Valid() && |d| == |e| == 512 * geo.sectors && p < MAX_FILES_PER_PART && 0 < dir.size <= 512
    requires Sound(geo, d, table, bb, ib) && Allocated(ib, p) && DT.TreeOk(t) && p in t.dirs && |table| == MAX_FILES_PER_PART && DirStored(d, table[p], t.dirs[p])
    requires p in open && p in open' && open[p] == table[p] && open'[p].Valid() && open'[p].no == p
    requires EntryWritten(geo, d, e, open, open', p, dir) && f == PutInode(geo, e, open'[p])
    ensures Sound(geo, f, table[p := open'[p]], bb, ib)
    ensures KeptBut(d, table, f, table[p := open'[p]], ib, {p})
    ensures TableOf(geo, f) == TableOf(geo, d)[p := open'[p]] && open'[p].sectors == open[p].sectors
    ensures open'[p].sectors[0] >= geo.dataLba && Holds(Sec(f, open'[p].sectors[0]), dir.slots)
  {
    hide Sound, DirStored, Holds, DT.TreeOk, PutSec, Sec, KeptBut, TableInode, PutInode, Ref, FileOk, Links;
    DirInTree(t, p);
    DirStoredMeans(d, table[p], t.dirs[p]);
    var sec := Sec(e, open[p].sectors[0]);
    DirUpdateStep(geo, d, table, bb, ib, p, sec, dir.size);
    PutDataTable(geo, d, open[p].sectors[0], sec, bb, ib);
    var table' := table[p := open'[p]];
    KeptByUpdate(geo, d, table, e, table', bb, ib, p);
    PutInodeTable(geo, e, open'[p]);
    SoundSameData(geo, e, f, table', bb, ib);
    KeptByData(geo, e, f, table', bb, ib) by { SoundLinks(geo, e, table', bb, ib); }
    KeptWeaken(e, table', f, table', ib, ib, {}, {p});
    KeptMore(d, table, e, table', f, table', ib, {p});
  }

  /** The block of directory `p` holds the entries of `dir` and one more, of a name that was
      listed in it. */
  ghost predicate Doubled(geo: Geo, disk: seq<byte>, p: nat, dir: DT.Dir, s: DT.Slot) {
    && geo.Valid() && |disk| == 512 * geo.sectors && p < MAX_FILES_PER_PART
    && DT.FindName(dir.slots, s.name, 0) < |dir.slots| == DT.ENTRIES && DT.FindFree(dir.slots, 0) < DT.ENTRIES
    && dir.slots[DT.FindName(dir.slots, s.name, 0)].kind != DT.Unknown
    && Holds(Sec(disk, TableInode(geo, disk, p).sectors[0]), DT.AddEntry(dir, s).slots)
  }

  /** No tree with that directory in it is what such a disk holds. */
  lemma DoubledNoTree(geo: Geo, disk: seq<byte>, bb: seq<byte>, ib: seq<byte>, p: nat, dir: DT.Dir, s: DT.Slot, t: DT.Tree)
    requires Doubled(geo, disk, p, dir, s) && s.kind != DT.Unknown && DT.GoodName(s.name) && p in t.dirs
    ensures !Stored(geo, disk, TableOf(geo, disk), bb, ib, t)
  {
    hide Sound, Holds, Sec, TableInode, DT.TreeOk, DT.FindName, DT.FindFree;
    var table := TableOf(geo, disk);
    if Stored(geo, disk, table, bb, ib, t) {
      TreeDirs(disk, table, ib, t, p);
      assert table[p] == TableInode(geo, disk, p);
      var sec, slots := Sec(disk, table[p].sectors[0]), DT.AddEntry(dir, s).slots;
      var i, j := DT.FindName(dir.slots, s.name, 0), DT.FindFree(dir.slots, 0);
      TwoOfAName(dir, s);
      FieldsOf(sec, slots, i);
      FieldsOf(sec, slots, j);
      FieldsOf(sec, t.dirs[p].slots, i);
      FieldsOf(sec, t.dirs[p].slots, j);
      OneOfAName(t, p, i, j);
    }
  }

  lemma TwoOfAName(dir: DT.Dir, s: DT.Slot)
    requires DT.FindName(dir.slots, s.name, 0) < |dir.slots| == DT.ENTRIES && DT.FindFree(dir.slots, 0) < DT.ENTRIES
    requires dir.slots[DT.FindName(dir.slots, s.name, 0)].kind != DT.Unknown
    ensures var slots, i, j := DT.AddEntry(dir, s).slots, DT.FindName(dir.slots, s.name, 0), DT.FindFree(dir.slots, 0);
            i < |slots| && j < |slots| && i != j && slots[i].name == s.name && slots[j].name == s.name
  {
  }

  lemma OneOfAName(t: DT.Tree, p: nat, i: nat, j: nat)
    requires DT.TreeOk(t) && p in t.dirs && i < DT.ENTRIES && j < DT.ENTRIES && i != j && |t.dirs[p].slots| == DT.ENTRIES
    requires t.dirs[p].slots[i].name != []
    ensures t.dirs[p].slots[i].name != t.dirs[p].slots[j].name
  {
    assert DT.DirOk(t, p);
  }

  /** The searched path is as deep as it has names, and those are good ones. */
  lemma DepthSearched(t: DT.Tree, p: PT.Text)
    requires DT.TreeOk(t) && PT.Clean(p) && p != [] && p[0] == DT.SLASH
    ensures var o := Search(t, p);
            && Slashes(PT.Join(o.names)) == |o.names| && PT.GoodNames(o.names)
            && (DepthPassed(p, o) ==> o.names != [] && DT.GoodName(o.names[|o.names| - 1]))
  {
    hide DT.TreeOk, PT.Components, SearchFrom, DT.GoodName, Slashes;
    SlashesMore(p, []);
    KeysHaveRoot(t);
    NamesAreGood(t, 0, p, [], []);
    NoSlashNames(Search(t, p).names);
    DepthOfJoin(Search(t, p).names);
  }

  /** Nothing was found, and the two depths sys_mkdir compares agree. */
  predicate DepthPassed(p: PT.Text, o: Outcome) {
    o.no == -1 && Slashes(p) == |o.names|
  }

  lemma NoSlashNames(c: seq<DT.Name>)
    requires PT.GoodNames(c)
    ensures forall i :: 0 <= i < |c| ==> DT.SLASH !in c[i]
  {
  }

  lemma MissingName(t: DT.Tree, path: PT.Text)
    requires DT.TreeOk(t) && PT.Clean(path) && path != [] && path[|path| - 1] != DT.SLASH
    requires Search(t, path).no == -1 && Search(t, path).parent != NoDir
    ensures var o := Search(t, path);
            && o.names != [] && At(o.parent) in t.dirs && At(o.parent) in t.depth && DT.EntryName(o.names[|o.names| - 1])
            && PW.Lookup(t, At(o.parent), o.names[|o.names| - 1]) == PW.None && PT.GoodNames(o.names)
  {
    hide DT.TreeOk, PW.Lookup, SearchFrom, DT.GoodName;
    KeysHaveRoot(t);
    SearchMisses(t, 0, path, [], []);
    DirSlots(t, At(Search(t, path).parent));
  }

  lemma EnterMissing(geo: Geo, disk: seq<byte>, bb: seq<byte>, ib: seq<byte>, open: map<nat, Inode>, cnt: map<nat, nat>, t: DT.Tree, p: nat, s: DT.Slot)
    requires Settled(geo, disk, bb, ib, open, cnt, t) && s.no < MAX_FILES_PER_PART && !Allocated(ib, s.no) && s.kind != DT.Unknown
    requires p in t.dirs && DT.GoodName(s.name)
    ensures Storable(s) && |t.dirs[p].slots| == DT.ENTRIES && p in t.depth && s.no != p
    ensures PW.Lookup(t, p, s.name) == PW.None ==> (DT.CanAdd(t, p, s) <==> HasRoom(t, p))
  {
    hide DT.TreeOk, Settled, PW.Lookup, Allocated, DT.GoodName;
    SettledForm(geo, disk, bb, ib, open, cnt, t);
    FreeNumber(geo, disk, bb, ib, open, cnt, t, s.no);
    DirSlots(t, p);
    if PW.Lookup(t, p, s.name) == PW.None {
      NotListed(t, p, s.name);
    }
    GoodStorable(s.name, s.no, s.kind);
  }

  lemma PutSecIs(d: seq<byte>, lba: nat, s: seq<byte>)
    requires |s| == SECTOR_SIZE && 512 * lba + 512 <= |d|
    ensures PutSec(d, lba, s) == Splice(d, 512 * lba, s)
  {
  }

  lemma AllocatedBit(ib: seq<byte>, n: nat)
    requires |ib| == 512 && n < MAX_FILES_PER_PART && !Allocated(ib, n)
    ensures !Bit(ib, n)
  {
  }

  lemma SameTableMore(geo: Geo, d: seq<byte>, e: seq<byte>, f: seq<byte>)
    requires SameTableAndData(geo, d, e) && SameTableAndData(geo, e, f)
    ensures SameTableAndData(geo, d, f) && |d| == |e| == |f|
  {
  }

  /** The block sys_mkdir writes: "." and "..", as they are put together. */
  lemma DirBlockHolds(n: u32, p: u32)
    ensures var s0 := Splice(Splice(Splice(Zeros(512), 0, DT.DOT), 16, Le32(n)), 20, Le32(2));
            var s1 := Splice(Splice(Splice(s0, 24, DT.DOTDOT), 40, Le32(p)), 44, Le32(2));
            Holds(s1, DT.NewDir(n, p).slots)
  {
    hide Holds, Splice, Le32;
    var free := seq(DT.ENTRIES, _ => DT.FREE);
    var dot, dotdot := DT.Slot(DT.DOT, n, DT.Directory), DT.Slot(DT.DOTDOT, p, DT.Directory);
    ZerosHold();
    assert KindNo(DT.Directory) == 2;
    FillsEntry(Zeros(512), free, 0, dot);
    var s0 := Splice(Splice(Splice(Zeros(512), 0, DT.DOT), 16, Le32(n)), 20, Le32(2));
    FillsEntry(s0, free[0 := dot], 1, dotdot);
    assert free[0 := dot][1 := dotdot] == DT.NewDir(n, p).slots;
  }

  lemma ZerosHold()
    ensures Holds(Zeros(512), seq(DT.ENTRIES, _ => DT.FREE))
  {
    FreeImage();
    forall i: nat | i < DT.ENTRIES
      ensures Zeros(512)[24 * i..24 * i + 24] == Zeros(24)
    {
    }
  }

  lemma FreeHere(geo: Geo, disk: seq<byte>, bb: seq<byte>, ib: seq<byte>, open: map<nat, Inode>, cnt: map<nat, nat>, t: DT.Tree, x: nat)
    requires Settled(geo, disk, bb, ib, open, cnt, t) && x < 8 * |bb| && !Bit(bb, x)
    ensures geo.dataLba <= geo.dataLba + x < geo.sectors < MINUS_ONE
  {
    hide DT.TreeOk, TreeStored, TableInode, Synced, Coherent, InodeOk;
    FreeIsUsable(geo, disk, TableOf(geo, disk), bb, ib, x);
  }

  lemma LaidReady(geo: Geo, d: seq<byte>, f: seq<byte>, bb: seq<byte>, ib: seq<byte>, t: DT.Tree, n: nat, x: nat, p: nat, i: Inode)
    requires geo.Valid() && |d| == |f| == 512 * geo.sectors && n < MAX_FILES_PER_PART
    requires x < 8 * |bb| && |ib| == 512 && geo.dataLba + x < geo.sectors
    requires DirLaid(geo, d, f, bb, ib, t, n, x, p) && p in t.dirs && p < MAX_FILES_PER_PART && i == TableInode(geo, d, p) && Allocated(ib, p)
    ensures |TableOf(geo, d)| == MAX_FILES_PER_PART
    ensures var table := TableOf(geo, d)[n := DirInode(n, geo.dataLba + x)];
            && TableOf(geo, f) == TableOf(geo, d)
            && StoredPlus(geo, f, table, WithBit(bb, x, true), WithBit(ib, n, true), t, n)
            && DirStored(f, table[n], DT.NewDir(n, p)) && table[n].Valid() && table[n].no == n
            && KeptBut(d, TableOf(geo, d), f, table, ib, {})
            && KeptBut(d, TableOf(geo, d), f, TableOf(geo, d), ib, {})
            && i == table[p] && i.no == p && DirReady(geo, f, i, t.dirs[p])
  {
    hide StoredPlus, DirStored, KeptBut, TableInode, WithBit, DirReady, DT.NewDir;
    var table := TableOf(geo, d)[n := DirInode(n, geo.dataLba + x)];
    PlusReady(geo, d, f, table, WithBit(bb, x, true), ib, WithBit(ib, n, true), t, n, p, i);
  }

  /** Only sectors nothing referred to were written, and the maps are as they were. */
  lemma BlockUndone(geo: Geo, d0: seq<byte>, d: seq<byte>, e: seq<byte>, bb: seq<byte>, ib: seq<byte>,
                    open: map<nat, Inode>, cnt: map<nat, nat>, t: DT.Tree, p: nat)
    requires Settled(geo, d0, bb, ib, open, cnt, t) && |d| == |d0| && p in open && p in t.dirs
    requires KeptBut(d0, TableOf(geo, d0), d, TableOf(geo, d0), ib, {}) && TableOf(geo, d) == TableOf(geo, d0)
    requires SameTableAndData(geo, d, e) && Synced(geo, e, bb, ib)
    ensures Settled(geo, e, bb, ib, open, cnt, t) && BytesKept(geo, d0, e, t, t)
  {
    hide Stored, KeptBut, TableInode, Synced, Settled;
    SettledStored(geo, d0, bb, ib, open, cnt, t);
    var t0 := TableOf(geo, d0);
    TableSame(geo, d, e);
    StoredKept(geo, d0, t0, d, bb, ib, t);
    StoredSameData(geo, d, e, t0, bb, ib, t);
    KeptMore(d0, t0, d, t0, e, t0, ib, {});
    OpenStays(geo, d0, e, bb, ib, open, cnt, t, t0, p);
    KeptWeaken(d0, t0, e, t0, ib, ib, {}, {p});
    SettledAgain(geo, d0, e, bb, bb, ib, ib, open, open, cnt, t, t, p);
  }

  lemma MapsOnly(geo: Geo, d: seq<byte>, e: seq<byte>, bb: seq<byte>, ib: seq<byte>, open: map<nat, Inode>, cnt: map<nat, nat>, t: DT.Tree, p: nat)
    requires Settled(geo, d, bb, ib, open, cnt, t) && SameTableAndData(geo, d, e) && Synced(geo, e, bb, ib) && p in open && p in t.dirs
    ensures Settled(geo, e, bb, ib, open, cnt, t) && BytesKept(geo, d, e, t, t)
  {
    hide Stored, KeptBut, TableInode, Synced, Settled;
    SettledStored(geo, d, bb, ib, open, cnt, t);
    StoredSameData(geo, d, d, TableOf(geo, d), bb, ib, t);
    BlockUndone(geo, d, d, e, bb, ib, open, cnt, t, p);
  }

  lemma MkdirDone(geo: Geo, d0: seq<byte>, d3: seq<byte>, d4: seq<byte>, d5: seq<byte>, d6: seq<byte>, bb: seq<byte>, bb': seq<byte>, ib0: seq<byte>, ib: seq<byte>,
                  open: map<nat, Inode>, open': map<nat, Inode>, cnt: map<nat, nat>, t: DT.Tree, t': DT.Tree, p: nat, s: DT.Slot, m: Inode, table: seq<Inode>)
    requires geo.Valid() && |d3| == |d4| == |d5| == |d6| == |d0| == 512 * geo.sectors
    requires p < MAX_FILES_PER_PART && s.no < MAX_FILES_PER_PART == |table| && |ib0| == 512 && m.Valid() && m.no == s.no
    requires p in open && p in open' && open'[p].Valid() && open'[p].no == p && open' == open[p := open'[p]] && open[p] == table[p]
    requires p in t.dirs && p in t.depth && t' == DT.TreeAdd(t, p, s) && s.kind == DT.Directory
    requires ib == WithBit(ib0, s.no, true) && TableOf(geo, d3) == TableOf(geo, d0) && table == TableOf(geo, d0)[s.no := m]
    requires d5 == PutInode(geo, d4, open'[p]) && d6 == PutInode(geo, d5, m) && Synced(geo, d6, bb', ib)
    requires EntryWritten(geo, d3, d4, open, open', p, DT.AddEntry(t.dirs[p], s)) && DirStored(d3, m, DT.NewDir(s.no, p))
    requires KeptBut(d0, TableOf(geo, d0), d3, table, ib0, {}) && StoredPlus(geo, d3, table, bb', ib, t, s.no)
    requires DT.CanAdd(t, p, s) && Settled(geo, d0, bb, ib0, open, cnt, t)
    ensures Settled(geo, d6, bb', ib, open', cnt, t') && BytesKept(geo, d0, d6, t, t')
  {
    hide Stored, StoredPlus, KeptBut, TableInode, Synced, WithBit, Settled, DT.CanAdd, DT.TreeAdd, DirStored, EntryWritten, PutInode, FileBytes, DT.AddEntry, DT.NewDir;
    SettledForm(geo, d0, bb, ib0, open, cnt, t);
    AllocatedWith(ib0, s.no, true);
    AddSynced(geo, d3, table, d4, d5, bb', ib, t, p, s, open, open');
    var t6 := table[p := open'[p]];
    StoredSync(geo, d5, m, t6, bb', ib, t');
    assert TableOf(geo, d6) == t6;
    KeptWeaken(d0, TableOf(geo, d0), d3, table, ib0, ib0, {}, {p});
    KeptWeaken(d3, table, d5, t6, ib, ib0, {p}, {p});
    KeptWeaken(d5, t6, d6, t6, ib, ib0, {}, {p});
    KeptMore(d0, TableOf(geo, d0), d3, table, d5, t6, ib0, {p});
    KeptMore(d0, TableOf(geo, d0), d5, t6, d6, t6, ib0, {p});
    assert t6[p] == TableInode(geo, d6, p);
    OpenAllocated(geo, d0, bb, ib0, open, cnt, t);
    SettledAgain(geo, d0, d6, bb, bb', ib0, ib, open, open', cnt, t, t', p);
  }

  /** What entering a new directory leaves: the tree with it, or, if the name was listed, a disk
      with two entries of that name, on which the inodes and the block map are in order. */
  ghost predicate Entered(geo: Geo, disk: seq<byte>, bb: seq<byte>, ib: seq<byte>, t: DT.Tree, t': DT.Tree, p: nat, s: DT.Slot) {
    if p in t.dirs && PW.Lookup(t, p, s.name) == PW.None then
      p in t.depth && DT.CanAdd(t, p, s) && t' == DT.TreeAdd(t, p, s)
    else
      && p in t.dirs && t' == t && Doubled(geo, disk, p, t.dirs[p], s)
      && Sound(geo, disk, TableOf(geo, disk), bb, ib)
  }

  /** sys_mkdir entered a name that is in the directory already. */
  lemma DoubledDone(geo: Geo, d0: seq<byte>, d3: seq<byte>, d4: seq<byte>, d5: seq<byte>, d6: seq<byte>, bb: seq<byte>, bb': seq<byte>, ib0: seq<byte>, ib: seq<byte>,
                    open: map<nat, Inode>, open': map<nat, Inode>, cnt: map<nat, nat>, t: DT.Tree, p: nat, s: DT.Slot, m: Inode, table: seq<Inode>)
    requires geo.Valid() && |d3| == |d4| == |d5| == |d6| == |d0| == 512 * geo.sectors
    requires p < MAX_FILES_PER_PART && s.no < MAX_FILES_PER_PART == |table| && |ib0| == 512 && m.Valid() && m.no == s.no != p
    requires p in open && p in open' && open'[p].Valid() && open'[p].no == p && open' == open[p := open'[p]] && open[p] == table[p]
    requires p in t.dirs && s.kind == DT.Directory && DT.GoodName(s.name) && PW.Lookup(t, p, s.name).Some? && HasRoom(t, p)
    requires ib == WithBit(ib0, s.no, true) && TableOf(geo, d3) == TableOf(geo, d0) && table == TableOf(geo, d0)[s.no := m]
    requires d5 == PutInode(geo, d4, open'[p]) && d6 == PutInode(geo, d5, m)
    requires EntryWritten(geo, d3, d4, open, open', p, DT.AddEntry(t.dirs[p], s))
    requires KeptBut(d0, TableOf(geo, d0), d3, table, ib0, {}) && StoredPlus(geo, d3, table, bb', ib, t, s.no)
    requires Settled(geo, d0, bb, ib0, open, cnt, t)
    ensures Doubled(geo, d6, p, t.dirs[p], s) && Sound(geo, d6, TableOf(geo, d6), bb', ib)
    ensures BytesKept(geo, d0, d6, t, t) && !Settled(geo, d6, bb', ib, open', cnt, t)
  {
    hide Stored, StoredPlus, KeptBut, TableInode, Synced, WithBit, Settled, DirStored, EntryWritten, PutInode, FileBytes, DT.AddEntry, DT.TreeOk, Sound, Holds, Sec, BytesKept, PW.Lookup;
    SettledForm(geo, d0, bb, ib0, open, cnt, t);
    SettledStored(geo, d0, bb, ib0, open, cnt, t);
    AllocatedWith(ib0, s.no, true);
    PlusDir(geo, d3, table, bb', ib, t, s.no, p);
    RoomToGrow(t, p, s);
    DirSynced(geo, d3, d4, d5, table, bb', ib, t, p, open, open', DT.AddEntry(t.dirs[p], s));
    var t6 := table[p := open'[p]];
    PutInodeTable(geo, d5, m);
    SoundSameData(geo, d5, d6, t6, bb', ib);
    KeptByData(geo, d5, d6, t6, bb', ib) by { SoundLinks(geo, d5, t6, bb', ib); }
    assert TableOf(geo, d6) == t6;
    KeptWeaken(d0, TableOf(geo, d0), d3, table, ib0, ib0, {}, {p});
    KeptWeaken(d3, table, d5, t6, ib, ib0, {p}, {p});
    KeptWeaken(d5, t6, d6, t6, ib, ib0, {}, {p});
    KeptMore(d0, TableOf(geo, d0), d3, table, d5, t6, ib0, {p});
    KeptMore(d0, TableOf(geo, d0), d5, t6, d6, t6, ib0, {p});
    KeptFiles(geo, d0, d6, bb, ib0, t, t, p);
    assert t6[p] == TableInode(geo, d6, p);
    DoubledNoTree(geo, d6, bb', ib, p, t.dirs[p], s, t);
    if Settled(geo, d6, bb', ib, open', cnt, t) {
      SettledStored(geo, d6, bb', ib, open', cnt, t);
    }
  }

  lemma EnteredTwice(geo: Geo, disk: seq<byte>, bb: seq<byte>, ib: seq<byte>, open: map<nat, Inode>, cnt: map<nat, nat>, t: DT.Tree, t': DT.Tree, p: nat, s: DT.Slot)
    requires Entered(geo, disk, bb, ib, t, t', p, s) && p in t.dirs && PW.Lookup(t, p, s.name).Some? && DT.GoodName(s.name) && s.kind == DT.Directory
    ensures !Settled(geo, disk, bb, ib, open, cnt, t')
  {
    hide Settled, Doubled, PW.Lookup, Sound;
    if Settled(geo, disk, bb, ib, open, cnt, t) {
      SettledStored(geo, disk, bb, ib, open, cnt, t);
      DoubledNoTree(geo, disk, bb, ib, p, t.dirs[p], s, t);
    }
  }

  lemma PlusDir(geo: Geo, d: seq<byte>, table: seq<Inode>, bb: seq<byte>, ib: seq<byte>, t: DT.Tree, n: nat, p: nat)
    requires geo.Valid() && StoredPlus(geo, d, table, bb, ib, t, n) && p in t.dirs && DT.TreeOk(t) && |table| == MAX_FILES_PER_PART
    ensures Sound(geo, d, table, bb, ib) && Allocated(ib, p) && p < |table| && DirStored(d, table[p], t.dirs[p])
  {
    hide Sound, DirStored, DT.TreeOk;
    DirSlots(t, p);
  }

  lemma RoomToGrow(t: DT.Tree, p: nat, s: DT.Slot)
    requires DT.TreeOk(t) && p in t.dirs && DT.GoodName(s.name) && PW.Lookup(t, p, s.name).Some? && HasRoom(t, p)
    ensures 0 < DT.AddEntry(t.dirs[p], s).size <= 512
    ensures var slots := t.dirs[p].slots;
            var i := DT.FindName(slots, s.name, 0);
            i < |slots| == DT.ENTRIES && slots[i].kind != DT.Unknown && DT.FindFree(slots, 0) < DT.ENTRIES
  {
    DirSlots(t, p);
    FoundIsSubdir(t, p, s.name);
  }

  // ---- taking out ----

  /** All is settled, but a copy of the released inode `gone` may be left in memory. */
  ghost predicate SettledBut(geo: Geo, disk: seq<byte>, bb: seq<byte>, ib: seq<byte>,
                             open: map<nat, Inode>, cnt: map<nat, nat>, t: DT.Tree, gone: nat) {
    && geo.Valid()
    && |disk| == 512 * geo.sectors
    && Synced(geo, disk, bb, ib)
    && Stored(geo, disk, TableOf(geo, disk), bb, ib, t)
    && Coherent(geo, disk, ib, open - {gone})
    && Counted(open, cnt)
    && !Allocated(ib, gone)
  }

  /** That copy is all that is in the way. */
  lemma ButGone(geo: Geo, disk: seq<byte>, bb: seq<byte>, ib: seq<byte>, open: map<nat, Inode>, cnt: map<nat, nat>, t: DT.Tree, gone: nat)
    requires SettledBut(geo, disk, bb, ib, open, cnt, t, gone)
    ensures Settled(geo, disk, bb, ib, open, cnt, t) <==> gone !in open
  {
    hide Stored, Synced, TableInode;
    if gone !in open {
      assert open - {gone} == open;
    }
  }

  /** One handle less, whatever else is the case. */
  lemma CountStep(open: map<nat, Inode>, cnt: map<nat, nat>, k: nat, cnt0: map<nat, nat>, g: multiset<nat>)
    requires Counted(open, cnt) && Gained(cnt0, cnt, g) && k in g && Cnt(cnt0, 0) >= 1
    ensures k in open && k in cnt && cnt[k] >= 1 && open.Keys == cnt.Keys
    ensures Counted(Closed(open, cnt, k), Fewer(cnt, k))
    ensures Gained(cnt0, Fewer(cnt, k), g - multiset{k})
  {
    assert Cnt(cnt, k) >= 1;
    assert Cnt(cnt, 0) >= 1;
    assert k == 0 ==> Cnt(cnt, 0) >= 2;
  }

  lemma CloseButStep(geo: Geo, disk: seq<byte>, bb: seq<byte>, ib: seq<byte>, open: map<nat, Inode>, cnt: map<nat, nat>, t: DT.Tree,
                     gone: nat, k: nat, cnt0: map<nat, nat>, g: multiset<nat>)
    requires Counted(open, cnt) && Gained(cnt0, cnt, g) && k in g && Cnt(cnt0, 0) >= 1
    ensures k in open && k in cnt && cnt[k] >= 1 && open.Keys == cnt.Keys
    ensures Counted(Closed(open, cnt, k), Fewer(cnt, k))
    ensures Gained(cnt0, Fewer(cnt, k), g - multiset{k})
    ensures SettledBut(geo, disk, bb, ib, open, cnt, t, gone) ==> SettledBut(geo, disk, bb, ib, Closed(open, cnt, k), Fewer(cnt, k), t, gone)
  {
    hide Stored, Synced, Coherent, Gained;
    CountStep(open, cnt, k, cnt0, g);
    if SettledBut(geo, disk, bb, ib, open, cnt, t, gone) {
      CoherentFewer(geo, disk, ib, open - {gone}, Closed(open, cnt, k) - {gone});
    }
  }

  lemma CoherentFewer(geo: Geo, disk: seq<byte>, ib: seq<byte>, open: map<nat, Inode>, open': map<nat, Inode>)
    requires geo.Valid() && |disk| == 512 * geo.sectors && Coherent(geo, disk, ib, open)
    requires forall k: nat :: k in open' ==> k in open && open'[k] == open[k]
    ensures Coherent(geo, disk, ib, open')
  {
    hide TableInode;
  }

  lemma DropPlaces(t: DT.Tree, p: nat, no: nat)
    requires DT.CanDrop(t, p, no)
    ensures DT.TreeOk(t) && p in t.dirs && p in t.up && no in t.up && no != p && no != 0
    ensures DT.FindNo(t.dirs[p].slots, no, 0) < |t.dirs[p].slots|
  {
    DT.DropIndex(t, p, no);
    DirSlots(t, p);
  }

  lemma SettledInode(geo: Geo, disk: seq<byte>, bb: seq<byte>, ib: seq<byte>, open: map<nat, Inode>, cnt: map<nat, nat>, t: DT.Tree, k: nat)
    requires Settled(geo, disk, bb, ib, open, cnt, t) && k in t.up
    ensures geo.Valid() && |disk| == 512 * geo.sectors && k < MAX_FILES_PER_PART && Allocated(ib, k) && |ib| == 512
    ensures TableInode(geo, disk, k).no == k
    ensures k in open ==> open[k] == TableInode(geo, disk, k)
    ensures open.Keys == cnt.Keys
  {
    hide Links, DT.TreeOk, DirStored, InodeOk, TableInode;
    InodeOkMeans(geo, disk, TableOf(geo, disk), bb, ib, k);
    assert TableOf(geo, disk)[k] == TableInode(geo, disk, k);
    SoundSizes(geo, disk, TableOf(geo, disk), bb, ib);
  }

  /** After the entry is gone the directory's inode is written back. */
  lemma DropSynced(geo: Geo, d: seq<byte>, e: seq<byte>, f: seq<byte>, bb: seq<byte>, ib: seq<byte>, t: DT.Tree,
                   p: nat, no: nat, open: map<nat, Inode>, open': map<nat, Inode>)
    requires geo.Valid() && |d| == |e| == 512 * geo.sectors && no < MAX_FILES_PER_PART && p < MAX_FILES_PER_PART && no != p
    requires p in open && p in open' && open[p] == TableInode(geo, d, p) && open'[p].Valid() && open'[p].no == p
    requires open' == open[p := open'[p]]
    requires no in open && open[no] == TableInode(geo, d, no)
    requires f == PutInode(geo, e, open'[p])
    requires DT.CanDrop(t, p, no) && Stored(geo, d, TableOf(geo, d), bb, ib, t)
    requires EntryWritten(geo, d, e, open, open', p, DT.DropEntry(t.dirs[p], no))
    ensures StoredPlus(geo, f, TableOf(geo, f), bb, ib, DT.TreeDrop(t, p, no), no)
    ensures KeptBut(d, TableOf(geo, d), f, TableOf(geo, f), ib, {p})
    ensures TableOf(geo, f) == TableOf(geo, d)[p := open'[p]]
    ensures Links(geo, f, TableOf(geo, f), bb, ib)
    ensures no in open' && TableInode(geo, f, no) == open'[no]
    ensures TableInode(geo, f, p) == open'[p]
  {
    hide Sound, Stored, DirStored, Holds, DT.TreeOk, DT.DropEntry, PutSec, Sec, KeptBut, TableInode, PutInode, DT.TreeDrop;
    var table := TableOf(geo, d);
    assert table[p] == TableInode(geo, d, p) && table[no] == TableInode(geo, d, no);
    var sec := Sec(e, open[p].sectors[0]);
    DropStored(geo, d, table, bb, ib, t, p, no, sec);
    PutDataTable(geo, d, open[p].sectors[0], sec, bb, ib);
    var table' := table[p := open'[p]];
    StoredPlusSync(geo, e, open'[p], table', bb, ib, DT.TreeDrop(t, p, no), no);
    KeptWeaken(e, table', f, table', ib, ib, {}, {p});
    KeptMore(d, table, e, table', f, table', ib, {p});
    SoundLinks(geo, f, table', bb, ib);
    assert TableOf(geo, f)[no] == TableInode(geo, f, no) && TableOf(geo, f)[p] == TableInode(geo, f, p);
  }

  lemma SoundLinks(geo: Geo, d: seq<byte>, table: seq<Inode>, bb: seq<byte>, ib: seq<byte>)
    requires geo.Valid() && Sound(geo, d, table, bb, ib)
    ensures Links(geo, d, table, bb, ib)
  {
  }

  lemma TakenOut(geo: Geo, d0: seq<byte>, d2: seq<byte>, d3: seq<byte>, bb: seq<byte>, bb': seq<byte>, ib: seq<byte>,
                 open: map<nat, Inode>, open': map<nat, Inode>, cnt: map<nat, nat>, t: DT.Tree, p: nat, no: nat)
    requires Settled(geo, d0, bb, ib, open, cnt, t) && |d2| == |d0| && DT.CanDrop(t, p, no) && |ib| == 512
    requires p < MAX_FILES_PER_PART && no < MAX_FILES_PER_PART && p in open && no in open && no != p && no != 0
    requires p in open' && open' == open[p := open'[p]] && TableInode(geo, d2, p) == open'[p]
    requires StoredPlus(geo, d2, TableOf(geo, d2), bb, ib, DT.TreeDrop(t, p, no), no)
    requires KeptBut(d0, TableOf(geo, d0), d2, TableOf(geo, d2), ib, {p})
    requires SameTableAndData(geo, d2, d3) && Synced(geo, d3, bb', WithBit(ib, no, false))
    requires Links(geo, d3, TableOf(geo, d3), bb', WithBit(ib, no, false))
    ensures SettledBut(geo, d3, bb', WithBit(ib, no, false), open', cnt, DT.TreeDrop(t, p, no), no)
    ensures BytesKept(geo, d0, d3, t, DT.TreeDrop(t, p, no))
  {
    hide Stored, StoredPlus, KeptBut, TableInode, Synced, Links, WithBit, Settled, DT.TreeDrop, DT.TreeOk, Coherent;
    SettledStored(geo, d0, bb, ib, open, cnt, t);
    TableSame(geo, d2, d3);
    var t' := DT.TreeDrop(t, p, no);
    var t2 := TableOf(geo, d2);
    StoredAgain(geo, d2, d3, t2, bb, bb', ib, t', no);
    AllocatedWith(ib, no, false);
    KeptWeaken(d2, t2, d3, t2, ib, ib, {}, {p});
    KeptMore(d0, TableOf(geo, d0), d2, t2, d3, t2, ib, {p});
    assert t2[p] == TableInode(geo, d2, p) && TableOf(geo, d3)[p] == TableInode(geo, d3, p);
    OpenAllocated(geo, d0, bb, ib, open, cnt, t);
    CoherentBut(geo, d0, d3, bb, bb', ib, WithBit(ib, no, false), open, open', cnt, t, t', p, no);
    KeptFiles(geo, d0, d3, bb, ib, t, t', p);
  }

  lemma CoherentBut(geo: Geo, d: seq<byte>, e: seq<byte>, bb: seq<byte>, bb': seq<byte>, ib: seq<byte>, ib': seq<byte>,
                    open: map<nat, Inode>, open': map<nat, Inode>, cnt: map<nat, nat>, t: DT.Tree, t': DT.Tree, p: nat, no: nat)
    requires Settled(geo, d, bb, ib, open, cnt, t) && |e| == |d| && p < MAX_FILES_PER_PART
    requires Stored(geo, e, TableOf(geo, e), bb', ib', t')
    requires KeptBut(d, TableOf(geo, d), e, TableOf(geo, e), ib, {p})
    requires p in open && no in open && no != p && no != 0 && open' == open[p := TableInode(geo, e, p)]
    requires forall k: nat :: k in open && k != no ==> Allocated(ib', k)
    ensures Coherent(geo, e, ib', open' - {no}) && Counted(open', cnt)
  {
    hide Stored, KeptBut, TableInode, Synced, TableOf;
    var open0 := open - {no};
    assert open0[p := TableInode(geo, e, p)] == open' - {no};
    CoherentAgain(geo, d, e, bb', ib, ib', open0, open' - {no}, t', p);
  }

  lemma FileFound(t: DT.Tree, p: PT.Text)
    requires DT.TreeOk(t) && PT.Clean(p) && Search(t, p).kind == DT.Regular
    ensures var o := Search(t, p);
            && o.parent != NoDir && o.no in t.files && o.no in t.up && o.no !in o.via && DT.CanDrop(t, At(o.parent), o.no)
  {
    hide DT.TreeOk, Special, SearchFrom, PT.Components, PW.Walk, PW.Lookup;
    SearchMeans(t, p);
    FoundDirectory(t, p);
    var o := Search(t, p);
    assert DT.GoodName(o.names[|o.names| - 1]);
    FoundEntry(t, At(o.parent), o.names[|o.names| - 1]);
    KeysApart(t);
  }

  /** A subdirectory that was found: in itself exactly when the path ends in ".". If it looks
      empty it can be taken out of where it was found. By ".." no empty one is found, for what
      ".." leads up from is still listed there. */
  lemma SubdirFound(t: DT.Tree, p: PT.Text)
    requires DT.TreeOk(t) && PT.Clean(p) && Search(t, p).kind == DT.Directory && Search(t, p).no != 0
    ensures var o := Search(t, p);
            && o.parent != NoDir && o.names != [] && o.no in t.dirs && o.no in t.up
            && (EndsInDot(o) <==> At(o.parent) == o.no)
            && (t.dirs[o.no].size == 2 * DT.ENTRY_SIZE ==> Takeable(t, At(o.parent), o.no))
  {
    hide DT.TreeOk, Special, SearchFrom, PT.Components, PW.Walk, PW.Lookup, DT.CanDrop;
    SearchMeans(t, p);
    FoundDirectory(t, p);
    var o := Search(t, p);
    var n := o.names[|o.names| - 1];
    assert DT.GoodName(n);
    DirSlots(t, o.no);
    DotIsSelf(t, At(o.parent), n, o.no);
    if t.dirs[o.no].size == 2 * DT.ENTRY_SIZE && n != DT.DOT {
      EmptySubdir(t, At(o.parent), n, o.no);
    }
  }

  lemma DotIsSelf(t: DT.Tree, d: nat, n: DT.Name, no: nat)
    requires DT.TreeOk(t) && d in t.dirs && DT.GoodName(n) && no != 0
    requires PW.Lookup(t, d, n) == PW.Some(DT.Slot(n, no, DT.Directory))
    ensures n == DT.DOT <==> d == no
  {
    hide DT.DirOk, DT.PlaceOk, PW.Lookup, DT.EntryOk;
    if n == DT.DOT {
      PW.DotStays(t, d);
    } else if n == DT.DOTDOT {
      PW.DotDotRises(t, d);
      if d == no {
        UpPlace(t, d);
      }
    } else {
      PW.NameDescends(t, d, n);
      EntryMeans(t, d, DT.Slot(n, no, DT.Directory));
      if d == no {
        UpPlace(t, d);
      }
    }
  }

  lemma EmptySubdir(t: DT.Tree, d: nat, n: DT.Name, no: nat)
    requires DT.TreeOk(t) && d in t.dirs && DT.GoodName(n) && n != DT.DOT && no != 0 && no in t.dirs
    requires PW.Lookup(t, d, n) == PW.Some(DT.Slot(n, no, DT.Directory)) && t.dirs[no].size == 2 * DT.ENTRY_SIZE
    ensures DT.CanDrop(t, d, no)
  {
    hide DT.DirOk, DT.PlaceOk, PW.Lookup, DT.EntryOk;
    DT.SizeMeansEmpty(t, no);
    if n == DT.DOTDOT {
      PW.DotDotRises(t, d);
      UpIsListed(t, d, no);
    } else {
      PW.NameDescends(t, d, n);
      EntryMeans(t, d, DT.Slot(n, no, DT.Directory));
    }
  }

  lemma EntryMeans(t: DT.Tree, d: nat, s: DT.Slot)
    requires DT.EntryOk(t, d, s)
    ensures s.no in t.up && t.up[s.no] == d
  {
  }

  lemma UpIsListed(t: DT.Tree, d: nat, no: nat)
    requires DT.TreeOk(t) && d in t.dirs && no in t.dirs && no != 0 && d in t.up && t.up[d] == no
    ensures DT.ListedIn(t.dirs[no].slots, d)
  {
    assert DT.PlaceOk(t, d);
  }

  lemma KeysApart(t: DT.Tree)
    requires DT.TreeOk(t)
    ensures t.dirs.Keys !! t.files
  {
  }

  lemma FoundEntry(t: DT.Tree, d: nat, n: DT.Name)
    requires DT.TreeOk(t) && d in t.dirs && DT.GoodName(n)
    ensures match PW.Lookup(t, d, n)
            case Some(s) => s.kind == DT.Regular ==> s.no in t.up && DT.CanDrop(t, d, s.no)
            case None => true
  {
    assert DT.DirOk(t, d) && DT.PlaceOk(t, d);
    var slots := t.dirs[d].slots;
    var i := DT.FindName(slots, n, 0);
    if 2 <= i < |slots| {
      assert DT.EntryOk(t, d, slots[i]);
    }
  }

  lemma OpenedOnce(cnt0: map<nat, nat>, cnt: map<nat, nat>, via: seq<nat>, no: nat)
    requires Gained(cnt0, cnt, multiset(via) + multiset{no}) && no !in via && no in cnt
    ensures cnt[no] == Cnt(cnt0, no) + 1
  {
    assert no !in multiset(via);
    assert Cnt(cnt, no) == Cnt(cnt0, no) + (multiset(via) + multiset{no})[no];
  }

  /** With its last handle the copy of the released inode goes, and all is settled. */
  lemma ButClosed(geo: Geo, disk: seq<byte>, bb: seq<byte>, ib: seq<byte>, open: map<nat, Inode>, cnt: map<nat, nat>, t: DT.Tree,
                  gone: nat, cnt0: map<nat, nat>, via: seq<nat>)
    requires SettledBut(geo, disk, bb, ib, open, cnt, t, gone) && Gained(cnt0, cnt, multiset(via))
    ensures Settled(geo, disk, bb, ib, open, cnt, t) <==> Cnt(cnt0, gone) == 0 && gone !in via
  {
    hide Stored, Synced, Coherent;
    ButGone(geo, disk, bb, ib, open, cnt, t, gone);
    assert Cnt(cnt, gone) == Cnt(cnt0, gone) + multiset(via)[gone];
    assert gone in via <==> gone in multiset(via);
  }

  lemma HandleMeans(geo: Geo, disk: seq<byte>, bb: seq<byte>, ib: seq<byte>, open: map<nat, Inode>, cnt: map<nat, nat>, t: DT.Tree)
    requires Settled(geo, disk, bb, ib, open, cnt, t)
    ensures forall k: nat :: k in open <==> Cnt(cnt, k) >= 1
  {
    hide Stored, Synced, Coherent;
  }

  /** An inode was released: its number is free, and so are the sectors it names itself. */
  ghost predicate GivenUp(geo: Geo, d: seq<byte>, bb: seq<byte>, bb': seq<byte>, ib: seq<byte>, ib': seq<byte>, no: int) {
    && geo.Valid() && |d| == 512 * geo.sectors && |ib| == 512 && 0 <= no < MAX_FILES_PER_PART
    && ClearBits(bb') == ClearBits(bb) + OwnBits(geo, TableInode(geo, d, no), 13)
    && ib' == WithBit(ib, no, false)
  }

  /** A file or directory is out of the tree and its inode was released. */
  ghost predicate EntryGone(geo: Geo, d: seq<byte>, bb: seq<byte>, bb': seq<byte>, ib: seq<byte>, ib': seq<byte>, t: DT.Tree, t': DT.Tree, p: nat, no: int) {
    && GivenUp(geo, d, bb, bb', ib, ib', no)
    && DT.CanDrop(t, p, no)
    && t' == DT.TreeDrop(t, p, no)
  }

  /** A directory's inode was released, but the directory it lies in lists it still. */
  ghost predicate SelfGone(geo: Geo, d: seq<byte>, e: seq<byte>, bb: seq<byte>, bb': seq<byte>, ib: seq<byte>, ib': seq<byte>, t: DT.Tree, no: int) {
    && GivenUp(geo, d, bb, bb', ib, ib', no) && |e| == 512 * geo.sectors
    && no in t.up && t.up[no] != no && t.up[no] in t.dirs && t.up[no] < MAX_FILES_PER_PART
    && DirStored(e, TableInode(geo, e, t.up[no]), t.dirs[t.up[no]])
    && DT.ListedIn(t.dirs[t.up[no]].slots, no)
  }

  /** A removed directory: its inode and its block are as they were, ".." in it still leads to
      where it was, and it is not listed there any more. */
  ghost predicate Removed(geo: Geo, disk: seq<byte>, t: DT.Tree, k: nat) {
    && geo.Valid() && |disk| == 512 * geo.sectors && k != 0 && k < MAX_FILES_PER_PART && k !in t.up
    && var i := TableInode(geo, disk, k);
    && 512 * i.sectors[0] + 512 <= |disk|
    && var p := FieldNo(Sec(disk, i.sectors[0]), 1);
    && p in t.dirs && DT.FindNo(t.dirs[p].slots, k, 0) == |t.dirs[p].slots|
  }

  /** What dir_remove is called for: an entry that can be dropped, or, by a path that ends in
      ".", a directory in itself. */
  ghost predicate Takeable(t: DT.Tree, p: nat, no: nat) {
    DT.TreeOk(t) && p in t.dirs && no in t.up && no != 0 && if p == no then no in t.dirs else DT.CanDrop(t, p, no)
  }

  lemma SelfPlace(t: DT.Tree, no: nat)
    requires DT.TreeOk(t) && no in t.dirs
    ensures DT.FindNo(t.dirs[no].slots, no, 0) == 0 < |t.dirs[no].slots|
    ensures DT.DropEntry(t.dirs[no], no).size == t.dirs[no].size && 48 <= t.dirs[no].size <= 504
  {
    assert DT.DirOk(t, no);
  }

  lemma TakePlaces(t: DT.Tree, p: nat, no: nat)
    requires Takeable(t, p, no)
    ensures p in t.dirs && p in t.up && no in t.up && DT.FindNo(t.dirs[p].slots, no, 0) < |t.dirs[p].slots|
    ensures p == no ==> 0 < DT.DropEntry(t.dirs[no], no).size <= 512
  {
    hide DT.TreeOk, DT.CanDrop, DT.DropEntry, DT.FindNo;
    if p == no {
      SelfPlace(t, no);
    } else {
      DropPlaces(t, p, no);
    }
  }

  lemma DropIsTake(t: DT.Tree, p: nat, no: nat)
    requires DT.CanDrop(t, p, no)
    ensures Takeable(t, p, no) && p != no
  {
    DropPlaces(t, p, no);
  }

  lemma StillCounted(geo: Geo, disk: seq<byte>, bb: seq<byte>, ib: seq<byte>, open: map<nat, Inode>, cnt: map<nat, nat>, t: DT.Tree, open': map<nat, Inode>)
    requires Settled(geo, disk, bb, ib, open, cnt, t) && open'.Keys == open.Keys
    ensures Counted(open', cnt)
  {
    hide Stored, Synced, Coherent;
  }

  lemma OwnSame(geo: Geo, i: Inode, j: Inode)
    requires i.Valid() && j.Valid() && i.sectors == j.sectors
    ensures OwnBits(geo, i, 13) == OwnBits(geo, j, 13)
  {
  }

  /** What taking `no` out of `p` leaves. By a path that ends in "." the tree is as it was: the
      directory was not taken from where it is listed. */
  ghost predicate Taken(geo: Geo, d: seq<byte>, e: seq<byte>, bb: seq<byte>, bb': seq<byte>, ib: seq<byte>, ib': seq<byte>,
                        t: DT.Tree, t': DT.Tree, p: nat, no: nat) {
    if p == no then
      t' == t && SelfGone(geo, d, e, bb, bb', ib, ib', t, no)
    else
      && EntryGone(geo, d, bb, bb', ib, ib', t, t', p, no)
      && (no in t.dirs ==> Removed(geo, e, t', no))
  }

  /** The last component is ".". */
  predicate EndsInDot(o: Outcome) {
    o.names != [] && o.names[|o.names| - 1] == DT.DOT
  }

  /** What removing a directory leaves: all is in order exactly when the path does not end in
      "." and nobody, the call included, has a handle on the directory. */
  ghost predicate RmdirDone(o: Outcome, geo: Geo, d: seq<byte>, e: seq<byte>, bb: seq<byte>, bb': seq<byte>, ib: seq<byte>, ib': seq<byte>,
                            open: map<nat, Inode>, open': map<nat, Inode>, cnt': map<nat, nat>, t: DT.Tree, t': DT.Tree) {
    && o.no >= 0 && (EndsInDot(o) <==> At(o.parent) == o.no)
    && Taken(geo, d, e, bb, bb', ib, ib', t, t', At(o.parent), o.no)
    && (EndsInDot(o) || SettledBut(geo, e, bb', ib', open', cnt', t', o.no))
    && (Settled(geo, e, bb', ib', open', cnt', t') <==> !EndsInDot(o) && o.no !in open && o.no !in Leaked(o))
  }

  lemma StillThere(geo: Geo, d: seq<byte>, e: seq<byte>, bb: seq<byte>, bb': seq<byte>, ib: seq<byte>, ib': seq<byte>,
                   t: DT.Tree, t': DT.Tree, p: nat, no: nat, c: nat)
    requires Taken(geo, d, e, bb, bb', ib, ib', t, t', p, no) && c in t.dirs
    ensures c in t'.dirs <==> p == no || c != no
  {
    hide Removed, SelfGone, GivenUp;
    if p != no {
      DropPlaces(t, p, no);
    }
  }

  /** Nothing that is done about the handles puts that right. */
  lemma SelfUnsettled(geo: Geo, d: seq<byte>, e: seq<byte>, bb: seq<byte>, bb': seq<byte>, ib: seq<byte>, ib': seq<byte>,
                      open: map<nat, Inode>, cnt: map<nat, nat>, t: DT.Tree, no: nat)
    requires SelfGone(geo, d, e, bb, bb', ib, ib', t, no)
    ensures !Settled(geo, e, bb', ib', open, cnt, t)
  {
    hide Sound, DirStored, Synced, Coherent, Counted, DT.TreeOk, TableInode, WithBit;
    AllocatedWith(ib, no, false);
  }

  lemma SelfSynced(geo: Geo, d: seq<byte>, e: seq<byte>, f: seq<byte>, bb: seq<byte>, ib: seq<byte>, t: DT.Tree, no: nat,
                   open: map<nat, Inode>, open': map<nat, Inode>, dir: DT.Dir)
    requires geo.Valid() && |d| == |e| == 512 * geo.sectors && no < MAX_FILES_PER_PART && no in t.dirs
    requires Stored(geo, d, TableOf(geo, d), bb, ib, t) && 0 < dir.size <= 512
    requires no in open && no in open' && open[no] == TableInode(geo, d, no) && open'[no].Valid() && open'[no].no == no
    requires EntryWritten(geo, d, e, open, open', no, dir) && f == PutInode(geo, e, open'[no])
    ensures Links(geo, f, TableOf(geo, f), bb, ib) && Allocated(ib, no)
    ensures KeptBut(d, TableOf(geo, d), f, TableOf(geo, f), ib, {no})
    ensures TableInode(geo, f, no) == open'[no] && open'[no].sectors == open[no].sectors
  {
    hide Sound, DirStored, Holds, DT.TreeOk, KeptBut, TableInode, PutInode, Links, Sec, PutSec;
    var table := TableOf(geo, d);
    assert table[no] == TableInode(geo, d, no);
    TreeDirs(d, table, ib, t, no);
    DirSynced(geo, d, e, f, table, bb, ib, t, no, open, open', dir);
    SoundLinks(geo, f, table[no := open'[no]], bb, ib);
    assert TableOf(geo, f)[no] == TableInode(geo, f, no);
  }

  lemma SelfTaken(geo: Geo, d0: seq<byte>, d2: seq<byte>, d3: seq<byte>, bb: seq<byte>, bb': seq<byte>, ib: seq<byte>,
                  open: map<nat, Inode>, cnt: map<nat, nat>, t: DT.Tree, no: nat)
    requires Settled(geo, d0, bb, ib, open, cnt, t) && |d2| == |d0| && |ib| == 512 && no in t.dirs && no != 0
    requires KeptBut(d0, TableOf(geo, d0), d2, TableOf(geo, d2), ib, {no}) && SameTableAndData(geo, d2, d3)
    requires GivenUp(geo, d0, bb, bb', ib, WithBit(ib, no, false), no)
    requires Links(geo, d3, TableOf(geo, d3), bb', WithBit(ib, no, false))
    ensures SelfGone(geo, d0, d3, bb, bb', ib, WithBit(ib, no, false), t, no) && BytesKept(geo, d0, d3, t, t)
    ensures !TreeStored(d3, TableOf(geo, d3), WithBit(ib, no, false), t)
  {
    hide Stored, TableInode, Synced, WithBit, Settled, DT.TreeOk, Coherent, DirStored, GivenUp;
    SettledStored(geo, d0, bb, ib, open, cnt, t);
    TableSame(geo, d2, d3);
    StoredParts(geo, d0, TableOf(geo, d0), bb, ib, t);
    TreeDirs(d0, TableOf(geo, d0), ib, t, no);
    UpPlace(t, no);
    var up := t.up[no];
    TreeDirs(d0, TableOf(geo, d0), ib, t, up);
    KeptOn(geo, d0, d2, d3, ib, {no});
    KeptAt(d0, TableOf(geo, d0), d3, TableOf(geo, d3), ib, {no}, up);
    DirKept(d0, d3, TableOf(geo, d0)[up], t.dirs[up]);
    assert TableOf(geo, d3)[up] == TableInode(geo, d3, up);
    KeptFiles(geo, d0, d3, bb, ib, t, t, no);
    AllocatedWith(ib, no, false);
  }

  /** What a step of the maps leaves of what was kept. */
  lemma KeptOn(geo: Geo, d0: seq<byte>, d2: seq<byte>, d3: seq<byte>, ib: seq<byte>, but: set<nat>)
    requires geo.Valid() && |d0| == |d2| == 512 * geo.sectors && SameTableAndData(geo, d2, d3)
    requires KeptBut(d0, TableOf(geo, d0), d2, TableOf(geo, d2), ib, but)
    requires forall k: nat, s: nat :: Allocated(ib, k) && k !in but && s <= INDEX_SLOT && Ref(d0, TableOf(geo, d0)[k], s) != 0 ==> Ref(d0, TableOf(geo, d0)[k], s) >= geo.dataLba
    ensures |d3| == |d2| && KeptBut(d0, TableOf(geo, d0), d3, TableOf(geo, d3), ib, but)
  {
    TableSame(geo, d2, d3);
  }

  /** A directory that was dropped reads as it did. */
  lemma RemovedNow(geo: Geo, d0: seq<byte>, d2: seq<byte>, d3: seq<byte>, bb: seq<byte>, ib: seq<byte>,
                   open: map<nat, Inode>, cnt: map<nat, nat>, t: DT.Tree, p: nat, no: nat)
    requires Settled(geo, d0, bb, ib, open, cnt, t) && |d2| == |d0| && DT.CanDrop(t, p, no) && no in t.dirs && no != p
    requires KeptBut(d0, TableOf(geo, d0), d2, TableOf(geo, d2), ib, {p}) && SameTableAndData(geo, d2, d3)
    ensures Removed(geo, d3, DT.TreeDrop(t, p, no), no)
  {
    hide Stored, TableInode, Synced, Settled, DT.TreeOk, Coherent, DirStored, Holds, Sec, DT.DropEntry, Ref, SameSectors;
    SettledStored(geo, d0, bb, ib, open, cnt, t);
    SettledDir(geo, d0, bb, ib, open, cnt, t, no);
    TableSame(geo, d2, d3);
    StoredParts(geo, d0, TableOf(geo, d0), bb, ib, t);
    TreeDirs(d0, TableOf(geo, d0), ib, t, no);
    KeptAt(d0, TableOf(geo, d0), d2, TableOf(geo, d2), ib, {p}, no);
    var i := TableInode(geo, d0, no);
    assert TableOf(geo, d0)[no] == i && TableOf(geo, d3)[no] == TableInode(geo, d3, no);
    DirKept(d0, d2, i, t.dirs[no]);
    DirStoredMeans(d2, i, t.dirs[no]);
    FieldsOf(Sec(d2, i.sectors[0]), t.dirs[no].slots, 1);
    DirSlots(t, no);
    DroppedIsNot(t, p, no);
  }

  lemma DroppedIsNot(t: DT.Tree, p: nat, no: nat)
    requires DT.CanDrop(t, p, no)
    ensures no in t.up && t.up[no] == p && p in t.dirs && p != no && no != 0
    ensures var t' := DT.TreeDrop(t, p, no);
            no !in t'.up && p in t'.dirs && DT.FindNo(t'.dirs[p].slots, no, 0) == |t'.dirs[p].slots|
  {
    DT.DropIndex(t, p, no);
    DT.DropSlots(t.dirs[p], no);
    DirSlots(t, p);
  }

  lemma ParentStillOpen(geo: Geo, disk: seq<byte>, bb: seq<byte>, ib: seq<byte>, open: map<nat, Inode>, cnt: map<nat, nat>, t: DT.Tree,
                        cnt0: map<nat, nat>, via: seq<nat>, no: nat, h: Handle)
    requires Settled(geo, disk, bb, ib, open, cnt, t) && Gained(cnt0, cnt, multiset(via) + multiset{no}) && h == ParentOf(via)
    ensures At(h) in open
  {
    hide Stored, Synced, Coherent;
    if via != [] {
      LastOfVia(via);
      assert Cnt(cnt, At(h)) >= 1;
    }
  }

  // ---- bytes ----

  /** The bytes of a regular file, by its number. */
  ghost function FileOf(geo: Geo, disk: seq<byte>, k: nat): seq<byte> {
    if geo.Valid() && |disk| == 512 * geo.sectors && k < MAX_FILES_PER_PART then FileBytes(disk, TableInode(geo, disk, k)) else []
  }

  /** A write at `p`, of at most what the 140 blocks hold: the machine halts exactly when
      there are too few free sectors, and otherwise the run is in place. */
  ghost predicate WriteDone(c: seq<byte>, c': seq<byte>, p: nat, p': nat, buf: seq<byte>, count: nat, r: nat, halted: bool, free: nat, free': nat) {
    && p <= |c| <= MAX_FILE_SIZE && count <= |buf|
    && var m := Min(count, MAX_FILE_SIZE - p);
    && (halted <==> free < Demand(|c|, p + m))
    && (!halted ==> r == m && p' == p + m && c' == Overwrite(c, p, buf[..m]) && free' == free - Demand(|c|, p + m))
  }

  const O_CREAT := 4

  function WithHandle(g: multiset<nat>, no: int): multiset<nat> {
    if no >= 0 then g + multiset{no} else g
  }

  lemma LeakedIs(o: Outcome)
    ensures Leaked(o) == if o.parent == NoDir || o.via == [] then o.via else o.via[..|o.via| - 1]
  {
  }

  /** What making a file and opening it leaves: the tree with one file more, or as it was if
      there is no inode number `n` or no room for an entry; the number of the file the path
      then leads to; and the handles that are open now and were not, those of three searches. */
  ghost predicate MadeDone(t: DT.Tree, t': DT.Tree, n: nat, o: Outcome, o': Outcome, no: int, stale: bool, cnt: map<nat, nat>, cnt': map<nat, nat>) {
    if n < MAX_FILES_PER_PART && HasRoom(t, At(o.parent)) then
      && Addable(t, o, n, DT.Regular) && t' == DT.TreeAdd(t, At(o.parent), DT.Slot(o.names[|o.names| - 1], n, DT.Regular))
      && no == (if o'.kind == DT.Regular then o'.no else -1) && (stale <==> o'.parent == NoDir && o.parent.Opened?)
      && Gained(cnt, cnt', WithHandle(multiset(Leaked(o')) + (multiset(Leaked(o)) + multiset(Leaked(o))), no))
    else
      t' == t && no == -1 && !stale && Gained(cnt, cnt', multiset(Leaked(o)) + multiset(Leaked(o)))
  }

  /** What open_file leaves. */
  ghost predicate OpenDone(t: DT.Tree, t': DT.Tree, n: nat, p: PT.Text, flags: nat, no: int, stale: bool, cnt: map<nat, nat>, cnt': map<nat, nat>) {
    var o := Search(t, p);
    if p == [] || p[|p| - 1] == DT.SLASH then t' == t && no == -1 && !stale && Gained(cnt, cnt', multiset{})
    else if o.no == -1 && flags >= O_CREAT then MadeDone(t, t', n, o, Search(t', p), no, stale, cnt, cnt')
    else
      && t' == t && no == (if o.kind == DT.Regular then o.no else -1) && !stale
      && Gained(cnt, cnt', WithHandle(multiset(Leaked(o)), no))
  }

  lemma MadeIsDone(t: DT.Tree, t': DT.Tree, n: nat, p: PT.Text, flags: nat, no: int, stale: bool, cnt: map<nat, nat>, cnt': map<nat, nat>)
    requires p != [] && p[|p| - 1] != DT.SLASH && flags >= O_CREAT && Search(t, p).no == -1
    requires MadeDone(t, t', n, Search(t, p), Search(t', p), no, stale, cnt, cnt')
    ensures OpenDone(t, t', n, p, flags, no, stale, cnt, cnt')
  {
    hide MadeDone, Search, Gained;
  }

  lemma FileThere(geo: Geo, disk: seq<byte>, bb: seq<byte>, ib: seq<byte>, open: map<nat, Inode>, cnt: map<nat, nat>, t: DT.Tree, k: nat)
    requires Settled(geo, disk, bb, ib, open, cnt, t) && k in t.files
    ensures geo.Valid() && |disk| == 512 * geo.sectors && k < MAX_FILES_PER_PART && Allocated(ib, k) && k !in t.dirs
    ensures var i := TableInode(geo, disk, k);
            && i.Valid() && i.no == k && i.size <= MAX_FILE_SIZE && FileOf(geo, disk, k) == Content(disk, i)
            && (k in open ==> open[k] == i)
  {
    hide Links, DT.TreeOk, DirStored, TableInode, Content, Ref;
    FilePlaces(t, 0, k) by { KeysHaveRoot(t); }
    KeysApart(t);
    InodeOkMeans(geo, disk, TableOf(geo, disk), bb, ib, k);
    assert TableOf(geo, disk)[k] == TableInode(geo, disk, k);
  }

  lemma WrittenTree(geo: Geo, d: seq<byte>, e: seq<byte>, bb: seq<byte>, bb': seq<byte>, ib: seq<byte>, open: map<nat, Inode>, open': map<nat, Inode>,
                    cnt: map<nat, nat>, t: DT.Tree, k: nat, p: nat, data: seq<byte>)
    requires Settled(geo, d, bb, ib, open, cnt, t) && k in t.files && k in open
    requires k in open' && open' == open[k := open'[k]] && open[k].Valid() && open'[k].Valid()
    requires Written(geo, d, e, ib, open[k], open'[k], p, data) && FsOk(geo, e, bb', ib, open')
    ensures Settled(geo, e, bb', ib, open', cnt, t)
    ensures k < MAX_FILES_PER_PART && geo.Valid() && |d| == |e| == 512 * geo.sectors
    ensures p <= |FileOf(geo, d, k)| && FileOf(geo, e, k) == Content(e, open'[k]) == Overwrite(FileOf(geo, d, k), p, data)
    ensures forall j: nat :: j in t.files && j != k ==> FileOf(geo, e, j) == FileOf(geo, d, j)
  {
    hide Settled, FsOk, DT.TreeOk, TableInode, Content, Overwrite, FileBytes, FileOk;
    SettledMeansFsOk(geo, d, bb, ib, open, cnt, t);
    SettledStored(geo, d, bb, ib, open, cnt, t);
    FileThere(geo, d, bb, ib, open, cnt, t, k);
    WrittenKept(geo, d, e, bb, ib, t, open[k], open'[k], p, data);
    SettledMeansFsOk(geo, e, bb', ib, open', cnt, t);
    FileThere(geo, e, bb', ib, open', cnt, t, k);
    forall j: nat | j in t.files && j != k
      ensures FileOf(geo, e, j) == FileOf(geo, d, j)
    {
      FileThere(geo, d, bb, ib, open, cnt, t, j);
      KeptBytes(geo, d, TableOf(geo, d), e, TableOf(geo, e), bb, ib, {k}, j);
      assert TableOf(geo, d)[j] == TableInode(geo, d, j) && TableOf(geo, e)[j] == TableInode(geo, e, j);
    }
  }

  lemma WrittenKept(geo: Geo, d: seq<byte>, e: seq<byte>, bb: seq<byte>, ib: seq<byte>, t: DT.Tree, m: Inode, m': Inode, p: nat, data: seq<byte>)
    requires geo.Valid() && |d| == 512 * geo.sectors && Stored(geo, d, TableOf(geo, d), bb, ib, t)
    requires m.Valid() && m'.Valid() && m.no !in t.dirs && Written(geo, d, e, ib, m, m', p, data)
    ensures |e| == |d| && KeptBut(d, TableOf(geo, d), e, TableOf(geo, e), ib, {m.no as nat})
    ensures TreeStored(e, TableOf(geo, e), ib, t)
  {
    hide Links, DT.TreeOk, DirStored, TableInode, Content, Overwrite, SameSectors, InodeOk;
    var t0, t1 := TableOf(geo, d), TableOf(geo, e);
    forall j: nat | Allocated(ib, j) && j != m.no
      ensures t1[j] == t0[j] && t0[j].Valid() && SameSectors(d, e, t0[j])
    {
      InodeOkMeans(geo, d, t0, bb, ib, j);
      assert t0[j] == TableInode(geo, d, j) && t1[j] == TableInode(geo, e, j);
    }
    forall x: nat | x in t.dirs
      ensures x < |t1| && DirStored(e, t1[x], t.dirs[x])
    {
      TreeDirs(d, t0, ib, t, x);
      DirKept(d, e, t0[x], t.dirs[x]);
    }
  }

  lemma PathStarts()
    ensures PT.Join([]) == [] && KindNo(DT.Unknown) == 0 && KindNo(DT.Directory) == 2
  {
  }

  lemma LastOfVia(via: seq<nat>)
    requires via != []
    ensures via[|via| - 1] in multiset(via)
    ensures multiset(via) - multiset{via[|via| - 1]} == multiset(via[..|via| - 1])
  {
    assert via == via[..|via| - 1] + [via[|via| - 1]];
  }

  lemma GainedNone(cnt: map<nat, nat>)
    ensures Gained(cnt, cnt, multiset{}) && Gained(cnt, cnt, multiset([]))
  {
  }

  // ---- the walk upward ----

  function Reversed(c: seq<DT.Name>): seq<DT.Name> {
    if c == [] then [] else [c[|c| - 1]] + Reversed(c[..|c| - 1])
  }

  lemma GainedMore(cnt0: map<nat, nat>, cnt1: map<nat, nat>, cnt2: map<nat, nat>, a: multiset<nat>, b: multiset<nat>)
    requires Gained(cnt0, cnt1, a) && Gained(cnt1, cnt2, b)
    ensures Gained(cnt0, cnt2, a + b) && (b == multiset{} ==> Gained(cnt0, cnt2, a))
  {
  }

  lemma UpStep(t: DT.Tree, c: nat, up: seq<DT.Name>)
    requires DT.TreeOk(t) && c in t.dirs && c != 0
    ensures c in t.up && t.up[c] in t.dirs && t.up[c] in t.depth && c in t.depth && t.depth[t.up[c]] < t.depth[c]
    ensures DT.EntryName(PW.NameIn(t, c))
    ensures var slots := t.dirs[t.up[c]].slots;
            DT.FindNo(slots, c, 0) < |slots| && slots[DT.FindNo(slots, c, 0)].name == PW.NameIn(t, c)
    ensures PW.PathOf(t, c) + Reversed(up) == PW.PathOf(t, t.up[c]) + Reversed(up + [PW.NameIn(t, c)])
  {
    hide DT.TreeOk, DT.EntryName, DT.FindNo, PW.Lookup;
    UpPlace(t, c);
    DT.DropIndex(t, t.up[c], c);
    PW.NameLeadsTo(t, c);
    var n := PW.NameIn(t, c);
    assert (up + [n])[..|up|] == up;
    assert PW.PathOf(t, c) == PW.PathOf(t, t.up[c]) + [n];
  }

  lemma UpPlace(t: DT.Tree, c: nat)
    requires DT.TreeOk(t) && c in t.dirs && c != 0
    ensures c in t.up && t.up[c] in t.dirs && t.up[c] in t.depth && c in t.depth && t.depth[t.up[c]] < t.depth[c]
  {
    assert DT.PlaceOk(t, c);
  }

  /** Where the inode that is opened for `child` leads. */
  lemma ParentBlock(geo: Geo, disk: seq<byte>, bb: seq<byte>, ib: seq<byte>, open: map<nat, Inode>, cnt: map<nat, nat>, t: DT.Tree, child: nat)
    requires Settled(geo, disk, bb, ib, open, cnt, t) && (child in t.dirs || Removed(geo, disk, t, child))
    ensures child < MAX_FILES_PER_PART && |disk| == 512 * geo.sectors && geo.Valid()
    ensures var i := if child in open then open[child] else TableInode(geo, disk, child);
            && i.Valid() && 512 * i.sectors[0] + 512 <= |disk|
            && var p := FieldNo(Sec(disk, i.sectors[0]), 1);
            && (child in t.dirs ==> child in t.up && p == t.up[child])
            && (child !in t.dirs ==> p in t.dirs && DT.FindNo(t.dirs[p].slots, child, 0) == |t.dirs[p].slots|)
  {
    hide DT.TreeOk, Settled, TableInode, Holds, Sec, DirReady, DT.FindNo;
    if child in t.dirs {
      SettledDir(geo, disk, bb, ib, open, cnt, t, child);
      DirSlots(t, child);
      var i := TableInode(geo, disk, child);
      ReadyBlocks(geo, disk, i, t.dirs[child]);
      FieldsOf(Sec(disk, i.sectors[0]), t.dirs[child].slots, 1);
    } else {
      OpenInTree(geo, disk, bb, ib, open, cnt, t);
    }
  }

  lemma OpenInTree(geo: Geo, disk: seq<byte>, bb: seq<byte>, ib: seq<byte>, open: map<nat, Inode>, cnt: map<nat, nat>, t: DT.Tree)
    requires Settled(geo, disk, bb, ib, open, cnt, t)
    ensures forall k: nat :: k in open ==> k in t.up
    ensures geo.Valid() && |disk| == 512 * geo.sectors
  {
    hide Sound, DirStored, DT.TreeOk, TableInode, Synced;
  }

  lemma TurnStep(up: seq<DT.Name>, done: seq<DT.Name>)
    requires PT.GoodNames(up)
    ensures PT.LastSlash(PT.Join(up)) < |PT.Join(up)| ==> up != []
    ensures up != [] ==>
      var below, n := up[..|up| - 1], up[|up| - 1];
      var i := PT.LastSlash(PT.Join(up));
      && PT.Join(up)[..i] == PT.Join(below)
      && PT.Join(done) + PT.Join(up)[i..] == PT.Join(done + [n])
      && done + Reversed(up) == done + [n] + Reversed(below)
  {
    hide PT.LastSlash;
    if up != [] {
      var below, n := up[..|up| - 1], up[|up| - 1];
      assert up == below + [n];
      PT.JoinSnoc(below, n);
      PT.JoinSnoc(done, n);
      PT.LastSlashOf(PT.Join(below), n);
      assert PT.Join(up)[|PT.Join(below)|..] == [DT.SLASH] + n;
    }
  }

  lemma NothingLeft(up: seq<DT.Name>)
    requires PT.LastSlash(PT.Join(up)) == |PT.Join(up)|
    ensures up == [] && Reversed(up) == []
  {
    if up != [] {
      PT.HasSlash(PT.Join(up), 0);
    }
  }

  lemma NotRoot(t: DT.Tree, d: nat)
    requires DT.TreeOk(t) && d in t.dirs && d != 0
    ensures PW.PathOf(t, d) != []
  {
  }

  lemma StillOpen(geo: Geo, disk: seq<byte>, bb: seq<byte>, ib: seq<byte>, open: map<nat, Inode>, cnt: map<nat, nat>, t: DT.Tree,
                  cnt0: map<nat, nat>, g: multiset<nat>, k: nat)
    requires Settled(geo, disk, bb, ib, open, cnt, t) && Gained(cnt0, cnt, g) && k in g
    ensures k in open
  {
    hide Stored, Synced, Coherent;
    assert Cnt(cnt, k) >= 1;
  }

  /** struct path_search_record */
  datatype Record = Record(searchedPath: PT.Text, parent: Handle, fileType: u32)

  class FileSystem {
    const vol: Volume
    var cwd: nat  // current_task->cwd_inode_nr
    ghost var tree: DT.Tree

    ghost predicate Valid()
      reads this, vol, vol.blockMap.bits, vol.inodeMap.bits
    {
      && vol.blockMap.bits != vol.inodeMap.bits
      && Settled(vol.geo, vol.disk, vol.blockMap.bits[..], vol.inodeMap.bits[..], vol.open, vol.openCnt, tree)
    }

    /** filesys_init for a formatted partition. */
    constructor Mount(g: Geo, d: seq<byte>, ghost t: DT.Tree)
      requires g.Valid() && |d| == 512 * g.sectors
      ensures Valid() <==> Stored(g, d, TableOf(g, d), d[512 * g.blockMapLba..512 * g.inodeMapLba], d[512 * g.inodeMapLba..512 * g.tableLba], t)
      ensures tree == t && cwd == 0 && vol.geo == g && vol.disk == d
      ensures fresh(vol) && fresh(vol.blockMap.bits) && fresh(vol.inodeMap.bits)
    {
      hide Stored, Synced, TableInode;
      vol := new Volume.Mount(g, d);
      cwd, tree := 0, t;
      new;
      MountSettled(g, d, vol.blockMap.bits[..], vol.inodeMap.bits[..], t);
    }

    // ---- searching ----

    method SearchDirEntry(d: nat, name: DT.Name) returns (no: int, fType: u32)
      requires Valid() && d in tree.dirs && d in vol.open && name != []
      ensures match PW.Lookup(tree, d, name)
              case Some(s) => no == s.no && fType == KindNo(s.kind)
              case None => no == -1
    {
      hide Settled, Sound, Ref, Holds, DirReady, DT.TreeOk, Sec, TableInode;
      ghost var slots := tree.dirs[d].slots;
      SettledDir(vol.geo, vol.disk, vol.blockMap.bits[..], vol.inodeMap.bits[..], vol.open, vol.openCnt, tree, d);
      ReadyBlocks(vol.geo, vol.disk, vol.open[d], tree.dirs[d]);
      var all := vol.AllBlocks(vol.open[d]);
      no, fType := -1, 0;
      var blockIdx := 0;
      while blockIdx < SLOTS
        invariant blockIdx <= SLOTS
        invariant blockIdx > 0 ==> DT.FindName(slots, name, 0) == |slots|
      {
        if all[blockIdx] != 0 {
          var buf := vol.IdeRead(all[blockIdx], 1);
          var i := ScanName(buf, name, slots);
          HoldsSize(buf, slots);
          if i < DT.ENTRIES {
            FieldsOf(buf, slots, i);
            return FieldNo(buf, i), FieldKind(buf, i);
          }
        }
        blockIdx := blockIdx + 1;
      }
    }

    /** inode_open, for an inode of the tree; `g` is what was opened so far. */
    method OpenHandle(k: nat, ghost cnt0: map<nat, nat>, ghost g: multiset<nat>)
      requires Valid() && k in tree.up && Gained(cnt0, vol.openCnt, g)
      modifies vol`open, vol`openCnt
      ensures Valid() && k in vol.open && k in vol.openCnt
      ensures Gained(cnt0, vol.openCnt, g + multiset{k})
    {
      hide Settled, Gained, TableInode, Synced, DT.TreeOk, DirReady;
      OpenStep(vol.geo, vol.disk, vol.blockMap.bits[..], vol.inodeMap.bits[..], vol.open, vol.openCnt, tree, k);
      ghost var i := TableInode(vol.geo, vol.disk, k);
      ghost var open, cnt := vol.open, vol.openCnt;
      vol.InodeOpen(k);
      assert i.(no := k) == i;
      assert vol.open == open[k := i] && vol.openCnt == cnt[k := Cnt(cnt, k) + 1];
    }

    /** inode_close, of one of those opened. */
    method CloseHandle(k: nat, ghost cnt0: map<nat, nat>, ghost g: multiset<nat>)
      requires Valid() && Gained(cnt0, vol.openCnt, g) && k in g && Cnt(cnt0, 0) >= 1
      modifies vol`open, vol`openCnt
      ensures Valid()
      ensures Gained(cnt0, vol.openCnt, g - multiset{k})
    {
      hide Settled, Gained;
      CloseStep(vol.geo, vol.disk, vol.blockMap.bits[..], vol.inodeMap.bits[..], vol.open, vol.openCnt, tree, k, cnt0, g);
      SettledForm(vol.geo, vol.disk, vol.blockMap.bits[..], vol.inodeMap.bits[..], vol.open, vol.openCnt, tree);
      vol.InodeClose(k);
    }

    method DirOpen(k: nat, ghost cnt0: map<nat, nat>, ghost via: seq<nat>) returns (h: Handle)
      requires Valid() && k in tree.dirs && Gained(cnt0, vol.openCnt, multiset(via))
      modifies vol`open, vol`openCnt
      ensures Valid() && h == Opened(k) && k in vol.open
      ensures Gained(cnt0, vol.openCnt, multiset(via + [k]))
    {
      hide Settled, Gained, DT.TreeOk;
      SettledForm(vol.geo, vol.disk, vol.blockMap.bits[..], vol.inodeMap.bits[..], vol.open, vol.openCnt, tree);
      DirSlots(tree, k);
      OpenHandle(k, cnt0, multiset(via));
      assert multiset(via + [k]) == multiset(via) + multiset{k};
      return Opened(k);
    }

    /** dir_close, of the directory a search left as the parent. */
    method DirClose(h: Handle, ghost cnt0: map<nat, nat>, ghost via: seq<nat>)
      requires Valid() && Gained(cnt0, vol.openCnt, multiset(via)) && Cnt(cnt0, 0) >= 1
      requires h == NoDir || h == ParentOf(via)
      modifies vol`open, vol`openCnt
      ensures Valid()
      ensures Gained(cnt0, vol.openCnt, multiset(if h == NoDir || via == [] then via else via[..|via| - 1]))
    {
      hide Settled, Gained;
      match h
      case Opened(k) =>
        LastOfVia(via);
        CloseHandle(k, cnt0, multiset(via));
      case _ =>
    }

    method SearchFile(pathname: PT.Text) returns (no: int, rec: Record, ghost o: Outcome)
      requires Valid() && PT.Clean(pathname) && pathname != [] && pathname[0] == DT.SLASH
      modifies vol`open, vol`openCnt
      ensures Valid() && o == Search(tree, pathname)
      ensures no == o.no && rec == Record(PT.Join(o.names), o.parent, KindNo(o.kind))
      ensures Gained(old(vol.openCnt), vol.openCnt, multiset(o.via))
    {
      hide Settled, Gained, PT.NameOf, PT.RestOf, PW.Lookup, DT.TreeOk, PT.Join;
      o := Search(tree, pathname);
      GainedNone(vol.openCnt);
      PathStarts();
      if pathname == [DT.SLASH] || pathname == [DT.SLASH] + DT.DOT || pathname == [DT.SLASH] + DT.DOTDOT {
        return 0, Record([], RootDir, 2), o;
      }
      var subPath := pathname;
      var parentDir, searchedPath := RootDir, [];
      ghost var names, via: seq<nat> := [], [];
      assert multiset(via) == multiset{};
      SettledForm(vol.geo, vol.disk, vol.blockMap.bits[..], vol.inodeMap.bits[..], vol.open, vol.openCnt, tree);
      while true
        invariant Valid() && PT.Clean(subPath)
        invariant parentDir == ParentOf(via) && At(parentDir) in tree.dirs && At(parentDir) in vol.open
        invariant searchedPath == PT.Join(names) && (searchedPath == [] <==> names == [])
        invariant Gained(old(vol.openCnt), vol.openCnt, multiset(via))
        invariant SearchFrom(tree, At(parentDir), subPath, names, via) == o
        decreases |subPath|
      {
        PT.NameIsPart(subPath);
        var name, rest := PT.PathParse(subPath);
        if name == [] {
          return -1, Record(searchedPath, parentDir, 0), o;
        }
        if searchedPath == [] {
          searchedPath := [DT.SLASH];
        } else {
          searchedPath := searchedPath + [DT.SLASH];
        }
        searchedPath := searchedPath + name;
        PT.JoinSnoc(names, name);
        names := names + [name];
        var subNo, fType := SearchDirEntry(At(parentDir), name);
        if subNo == -1 {
          return -1, Record(searchedPath, parentDir, 0), o;
        }
        if rest.Null? {
          return subNo, Record(searchedPath, parentDir, fType), o;
        }
        if fType != 2 {
          return -1, Record(searchedPath, NoDir, 0), o;
        }
        FoundIsSubdir(tree, At(parentDir), name);
        parentDir := DirOpen(subNo, old(vol.openCnt), via);
        via := via + [subNo];
        subPath := rest.text;
      }
    }

    // ---- where one is ----

    method Chdir(path: PT.Text) returns (r: int)
      requires Valid() && PT.Clean(path) && path != [] && path[0] == DT.SLASH
      modifies `cwd, vol`open, vol`openCnt
      ensures Valid()
      ensures var o := Search(tree, path);
        && (r == 0 <==> o.kind == DT.Directory) && (r == 0 || r == -1)
        && cwd == (if r == 0 then o.no else old(cwd))
        && (r == 0 ==> cwd in tree.dirs)
        && Gained(old(vol.openCnt), vol.openCnt, multiset(Leaked(o)))
    {
      hide Settled, Gained, Search, DT.TreeOk, PT.Join, PW.Walk, PW.Lookup, PT.Components, Special;
      SettledForm(vol.geo, vol.disk, vol.blockMap.bits[..], vol.inodeMap.bits[..], vol.open, vol.openCnt, tree);
      var no, rec;
      ghost var o;
      no, rec, o := SearchFile(path);
      SearchMeans(tree, path);
      FoundDirectory(tree, path);
      if no == -1 {
        DirClose(rec.parent, old(vol.openCnt), o.via);
        return -1;
      }
      if rec.fileType != 2 {
        DirClose(rec.parent, old(vol.openCnt), o.via);
        return -1;
      }
      cwd := no;
      DirClose(rec.parent, old(vol.openCnt), o.via);
      return 0;
    }

    /** The second entry of the directory's block, whether the directory is still there or was
        just removed. */
    method GetParentDirInodeNr(child: nat) returns (p: nat)
      requires Valid() && (child in tree.dirs || Removed(vol.geo, vol.disk, tree, child))
      modifies vol`open, vol`openCnt
      ensures Valid() && vol.open == old(vol.open) && vol.openCnt == old(vol.openCnt)
      ensures child in tree.dirs ==> child in tree.up && p == tree.up[child]
      ensures child !in tree.dirs ==> p in tree.dirs && DT.FindNo(tree.dirs[p].slots, child, 0) == |tree.dirs[p].slots|
    {
      hide Settled, DT.TreeOk, Removed, TableInode, Holds, Sec, Synced, DT.FindNo;
      ghost var open, cnt := vol.open, vol.openCnt;
      SettledForm(vol.geo, vol.disk, vol.blockMap.bits[..], vol.inodeMap.bits[..], open, cnt, tree);
      StillCounted(vol.geo, vol.disk, vol.blockMap.bits[..], vol.inodeMap.bits[..], open, cnt, tree, open);
      ParentBlock(vol.geo, vol.disk, vol.blockMap.bits[..], vol.inodeMap.bits[..], open, cnt, tree, child);
      vol.InodeOpen(child);
      var blockLba := vol.open[child].sectors[0];
      vol.InodeClose(child);
      assert vol.open == open && vol.openCnt == cnt;
      var ioBuf := vol.IdeRead(blockLba, 1);
      return FieldNo(ioBuf, 1);
    }

    method GetChildDirName(p: nat, c: nat, path: PT.Text) returns (ok: bool, path': PT.Text)
      requires Valid() && p in tree.dirs && c < U32_SIZE
      modifies vol`open, vol`openCnt
      ensures Valid()
      ensures Gained(old(vol.openCnt), vol.openCnt, multiset{})
      ensures var slots := tree.dirs[p].slots;
        var i := DT.FindNo(slots, c, 0);
        && (ok <==> i < |slots|)
        && path' == if i < |slots| then path + [DT.SLASH] + slots[i].name else path
    {
      hide Settled, Gained, DT.TreeOk, DirReady, TableInode, Holds, Sec, Synced, Ref;
      ghost var slots := tree.dirs[p].slots;
      SettledForm(vol.geo, vol.disk, vol.blockMap.bits[..], vol.inodeMap.bits[..], vol.open, vol.openCnt, tree);
      DirSlots(tree, p);
      GainedNone(vol.openCnt);
      assert multiset{} + multiset{p} == multiset{p} && multiset{p} - multiset{p} == multiset{};
      OpenHandle(p, old(vol.openCnt), multiset{});
      SettledDir(vol.geo, vol.disk, vol.blockMap.bits[..], vol.inodeMap.bits[..], vol.open, vol.openCnt, tree, p);
      ReadyBlocks(vol.geo, vol.disk, vol.open[p], tree.dirs[p]);
      var allBlocks := vol.AllBlocks(vol.open[p]);
      var blockCnt := if vol.open[p].sectors[12] != 0 then 140 else 12;
      CloseHandle(p, old(vol.openCnt), multiset{p});
      var blockIdx := 0;
      while blockIdx < blockCnt
        invariant blockIdx <= blockCnt
        invariant Valid() && Gained(old(vol.openCnt), vol.openCnt, multiset{})
        invariant blockIdx > 0 ==> DT.FindNo(slots, c, 0) == |slots|
      {
        if allBlocks[blockIdx] != 0 {
          var ioBuf := vol.IdeRead(allBlocks[blockIdx], 1);
          var i := ScanNo(ioBuf, c, slots);
          HoldsSize(ioBuf, slots);
          if i < DT.ENTRIES {
            FieldsOf(ioBuf, slots, i);
            return true, path + [DT.SLASH] + FieldName(ioBuf, i);
          }
        }
        blockIdx := blockIdx + 1;
      }
      return false, path;
    }

    /** The walk up by ".." and the turning round of what it gathered: the path of the working
        directory. From a directory that was just removed the first step up finds no entry for
        it, and there is no path. */
    method Getcwd() returns (ok: bool, buf: PT.Text)
      requires Valid() && (cwd in tree.dirs || Removed(vol.geo, vol.disk, tree, cwd))
      modifies vol`open, vol`openCnt
      ensures Valid() && DT.TreeOk(tree)
      ensures ok <==> cwd in tree.dirs
      ensures ok ==> buf == PT.Render(PW.PathOf(tree, cwd))
      ensures Gained(old(vol.openCnt), vol.openCnt, multiset{})
    {
      hide Settled, Gained, DT.TreeOk, Removed, PT.LastSlash, PT.Join, DT.GoodName, PW.NameIn, DT.FindNo;
      SettledForm(vol.geo, vol.disk, vol.blockMap.bits[..], vol.inodeMap.bits[..], vol.open, vol.openCnt, tree);
      GainedNone(vol.openCnt);
      PathStarts();
      var child := cwd;
      if child == 0 {
        return true, [DT.SLASH];
      }
      ghost var there := cwd in tree.dirs;
      if there {
        DirSlots(tree, cwd);
      }
      var reverse: PT.Text := [];
      ghost var up: seq<DT.Name> := [];
      while child != 0
        invariant Valid()
        invariant there ==> child in tree.dirs && child in tree.depth && PW.PathOf(tree, cwd) == PW.PathOf(tree, child) + Reversed(up)
        invariant !there ==> child == cwd && Removed(vol.geo, vol.disk, tree, cwd)
        invariant reverse == PT.Join(up) && PT.GoodNames(up)
        invariant Gained(old(vol.openCnt), vol.openCnt, multiset{})
        decreases if there then tree.depth[child] else 0
      {
        if there {
          UpStep(tree, child, up);
        }
        var p := GetParentDirInodeNr(child);
        ghost var cnt := vol.openCnt;
        ParentBlock(vol.geo, vol.disk, vol.blockMap.bits[..], vol.inodeMap.bits[..], vol.open, vol.openCnt, tree, child);
        ok, reverse := GetChildDirName(p, child, reverse);
        GainedMore(old(vol.openCnt), cnt, vol.openCnt, multiset{}, multiset{});
        if !ok {
          return false, [];
        }
        PT.JoinSnoc(up, PW.NameIn(tree, child));
        up := up + [PW.NameIn(tree, child)];
        child := p;
      }
      buf := [];
      ghost var done: seq<DT.Name> := [];
      assert PW.PathOf(tree, cwd) == done + Reversed(up);
      var lastSlash := PT.LastSlash(reverse);
      while lastSlash < |reverse|
        invariant Valid() && Gained(old(vol.openCnt), vol.openCnt, multiset{})
        invariant lastSlash == PT.LastSlash(reverse)
        invariant reverse == PT.Join(up) && buf == PT.Join(done) && PT.GoodNames(up)
        invariant PW.PathOf(tree, cwd) == done + Reversed(up)
        decreases |up|
      {
        TurnStep(up, done);
        buf := buf + reverse[lastSlash..];
        reverse := reverse[..lastSlash];
        done := done + [up[|up| - 1]];
        up := up[..|up| - 1];
        lastSlash := PT.LastSlash(reverse);
      }
      NothingLeft(up);
      assert done + [] == done;
      NotRoot(tree, cwd);
      return true, buf;
    }

    // ---- entries ----

    /** create_dir_entry: the first free entry of the directory's blocks, of which there is
        one. The inode in memory grows if the entry is the furthest yet. */
    method CreateDirEntry(d: nat, no: u32, filename: DT.Name, fType: DT.Kind, ghost dir: DT.Dir) returns (ok: bool)
      requires vol.Formed() && d in vol.open && DirReady(vol.geo, vol.disk, vol.open[d], dir)
      requires Storable(DT.Slot(filename, no, fType)) && fType != DT.Unknown
      modifies vol`disk, vol`open
      ensures vol.Formed()
      ensures ok <==> DT.FindFree(dir.slots, 0) < |dir.slots|
      ensures ok <==> exists i: nat :: i < |dir.slots| && dir.slots[i].kind == DT.Unknown
      ensures ok ==> DT.EnteredAt(dir, DT.AddEntry(dir, DT.Slot(filename, no, fType)), DT.Slot(filename, no, fType), DT.FindFree(dir.slots, 0))
      ensures ok ==> d in vol.open && vol.open[d].size == Max(old(vol.open[d].size), DT.ENTRY_SIZE * (DT.FindFree(dir.slots, 0) + 1))
      ensures !ok ==> vol.disk == old(vol.disk) && vol.open == old(vol.open)
      ensures ok ==> EntryWritten(vol.geo, old(vol.disk), vol.disk, old(vol.open), vol.open, d, DT.AddEntry(dir, DT.Slot(filename, no, fType)))
    {
      hide Ref, Sec, Splice, Holds, Le32, DirReady, Synced, Storable;
      ghost var i0, s := vol.open[d], DT.Slot(filename, no, fType);
      DT.AddMeans(dir, s);
      ReadyEntries(vol.geo, vol.disk, i0, dir);
      var blockIdx := 0;
      var dirSize := vol.open[d].size;
      while blockIdx * 512 < dirSize && blockIdx < 12
        invariant blockIdx <= 1
        invariant vol.Formed() && vol.disk == old(vol.disk) && vol.open == old(vol.open)
        invariant blockIdx == 1 ==> DT.FindFree(dir.slots, 0) == |dir.slots|
      {
        var blockLba := vol.open[d].sectors[blockIdx];
        var buf := vol.IdeRead(blockLba, 1);
        var i := ScanFree(buf, dir.slots);
        if i < DT.ENTRIES {
          HoldsSize(buf, dir.slots);
          NameFits(s);
          FillsEntry(buf, dir.slots, i, s);
          buf := Splice(buf, 24 * i, filename);
          buf := Splice(buf, 24 * i + 16, Le32(no));
          buf := Splice(buf, 24 * i + 20, Le32(KindNo(fType)));
          PutDataTable(vol.geo, vol.disk, blockLba, buf, vol.blockMap.bits[..], vol.inodeMap.bits[..]);
          SecOfPutSec(vol.disk, blockLba, buf, blockLba);
          vol.IdeWrite(blockLba, buf, 1);
          var newSize := (blockIdx * 21 + i + 1) * 24;
          if newSize > vol.open[d].size {
            vol.open := vol.open[d := vol.open[d].(size := newSize)];
          }
          return true;
        }
        blockIdx := blockIdx + 1;
      }
      return false;
    }

    /** delete_dir_entry: the first entry with the inode number, in any of the 140 blocks. */
    method DeleteDirEntry(d: nat, no: u32, ghost dir: DT.Dir) returns (ok: bool)
      requires vol.Formed() && d in vol.open && DirReady(vol.geo, vol.disk, vol.open[d], dir)
      modifies vol`disk, vol`open
      ensures vol.Formed()
      ensures ok <==> DT.FindNo(dir.slots, no, 0) < |dir.slots|
      ensures ok <==> exists i: nat :: i < |dir.slots| && dir.slots[i].no == no
      ensures ok ==> DT.ClearedAt(dir, DT.DropEntry(dir, no), no, DT.FindNo(dir.slots, no, 0))
      ensures !ok ==> vol.disk == old(vol.disk) && vol.open == old(vol.open)
      ensures ok ==> EntryWritten(vol.geo, old(vol.disk), vol.disk, old(vol.open), vol.open, d, DT.DropEntry(dir, no))
    {
      hide Ref, Sec, Splice, Holds, Zeros, DirReady, Synced;
      ghost var i0 := vol.open[d];
      DT.DropMeans(dir, no);
      ReadyBlocks(vol.geo, vol.disk, i0, dir);
      ReadyEntries(vol.geo, vol.disk, i0, dir);
      var all := vol.AllBlocks(vol.open[d]);
      var blockIdx := 0;
      while blockIdx < SLOTS
        invariant blockIdx <= SLOTS
        invariant vol.Formed() && vol.disk == old(vol.disk) && vol.open == old(vol.open)
        invariant blockIdx > 0 ==> DT.FindNo(dir.slots, no, 0) == |dir.slots|
      {
        if all[blockIdx] != 0 {
          var buf := vol.IdeRead(all[blockIdx], 1);
          var i := ScanNo(buf, no, dir.slots);
          if i < DT.ENTRIES {
            HoldsSize(buf, dir.slots);
            FreeImage();
            HoldsPut(buf, dir.slots, i, DT.FREE);
            buf := Splice(buf, 24 * i, Zeros(24));
            PutDataTable(vol.geo, vol.disk, all[blockIdx], buf, vol.blockMap.bits[..], vol.inodeMap.bits[..]);
            SecOfPutSec(vol.disk, all[blockIdx], buf, all[blockIdx]);
            vol.IdeWrite(all[blockIdx], buf, 1);
            var itemOff := (blockIdx * 21 + i) * 24;
            if itemOff + 24 >= vol.open[d].size {
              vol.open := vol.open[d := vol.open[d].(size := itemOff)];
            }
            return true;
          }
        }
        blockIdx := blockIdx + 1;
      }
      return false;
    }

    // ---- creating a file ----

    /** The second half of create_file: a number, the empty inode to disk, the entry in the
        parent and the parent to disk; the number is given back when there is no room. */
    method EnterFile(p: nat, filename: DT.Name) returns (r: int)
      requires Valid() && p in tree.dirs && p in vol.open && DT.EntryName(filename) && PW.Lookup(tree, p, filename) == PW.None
      modifies `tree, vol`disk, vol`open, vol.inodeMap.bits
      ensures Valid() && (r == 0 || r == -1)
      ensures var n := FreeNo(old(vol.inodeMap.bits[..]), 0);
        && (r == 0 <==> n < MAX_FILES_PER_PART && HasRoom(old(tree), p))
        && (r == 0 ==>
              && DT.CanAdd(old(tree), p, DT.Slot(filename, n, DT.Regular)) && p in old(tree).depth
              && tree == DT.TreeAdd(old(tree), p, DT.Slot(filename, n, DT.Regular))
              && FileOf(vol.geo, vol.disk, n) == [])
      ensures r == -1 ==> tree == old(tree)
      ensures BytesKept(vol.geo, old(vol.disk), vol.disk, old(tree), tree)
    {
      hide Settled, DT.TreeOk, DirReady, Stored, StoredPlus, KeptBut, TableOf, TableInode, BytesKept,
           FileBytes, Synced, EmptyInode, PutInode, EntryWritten, DT.AddEntry, DT.TreeAdd, DT.CanAdd, WithBit, Allocated, FreeNo, SameTableAndData,
           Storable, DT.GoodName, PW.Lookup;
      ghost var d0, bb, ib0, open0, t := vol.disk, vol.blockMap.bits[..], vol.inodeMap.bits[..], vol.open, tree;
      SettledSizes(vol.geo, d0, bb, ib0, open0, vol.openCnt, t);
      SettledStored(vol.geo, d0, bb, ib0, open0, vol.openCnt, t);
      SettledForm(vol.geo, d0, bb, ib0, open0, vol.openCnt, t);
      SettledDir(vol.geo, d0, bb, ib0, open0, vol.openCnt, t, p);
      BytesSame(vol.geo, d0, t);
      var n := vol.InodeBitmapAlloc();
      if n == -1 {
        NoFreeNo(ib0, 0);
        return -1;
      }
      FreeNoIs(ib0, 0, n);
      ghost var s, d1 := DT.Slot(filename, n, DT.Regular), vol.disk;
      EnterMissing(vol.geo, d0, bb, ib0, open0, vol.openCnt, t, p, s);
      NewFileStored(vol.geo, d0, d1, bb, ib0, t, n);
      vol.InodeSync(EmptyInode(n));
      ghost var d2, ib1 := vol.disk, vol.inodeMap.bits[..];
      ghost var t2 := TableOf(vol.geo, d2);
      PlusReady(vol.geo, d0, d2, t2, bb, ib0, ib1, t, n, p, open0[p]);
      var ok := CreateDirEntry(p, n, filename, DT.Regular, tree.dirs[p]);
      if !ok {
        vol.InodeBitmapFree(n);
        UndoNumber(vol.geo, d0, d2, vol.disk, t2, bb, ib0, ib1, open0, vol.openCnt, t, n, p);
        return -1;
      }
      ghost var d3, open3 := vol.disk, vol.open;
      EntryWrittenInode(vol.geo, d2, d3, open0, open3, p, DT.AddEntry(t.dirs[p], s));
      vol.InodeSync(vol.open[p]);
      AddSynced(vol.geo, d2, t2, d3, vol.disk, bb, ib1, t, p, s, open0, open3);
      tree := DT.TreeAdd(t, p, s);
      CreateDone(vol.geo, d0, d2, vol.disk, t2, bb, ib0, ib1, open0, open3, vol.openCnt, t, tree, p, n);
      return 0;
    }

    /** create_file. Nothing looks whether the search got to the end of the path: what is
        entered is the first component that was missing. */
    method CreateFile(path: PT.Text) returns (r: int, halted: bool)
      requires Valid() && PT.Clean(path) && path != [] && path[0] == DT.SLASH && path[|path| - 1] != DT.SLASH
      modifies `tree, vol`disk, vol`open, vol`openCnt, vol.inodeMap.bits
      ensures !halted ==> Valid()
      ensures var o, n := Search(old(tree), path), FreeNo(old(vol.inodeMap.bits[..]), 0);
        && (halted <==> o.no == -1 && o.parent == NoDir && n < MAX_FILES_PER_PART)
        && (!halted ==>
              && (r == 0 || r == -1)
              && (r == 0 <==> o.no == -1 && o.parent != NoDir && n < MAX_FILES_PER_PART && HasRoom(old(tree), At(o.parent)))
              && (r == 0 ==>
                    && Addable(old(tree), o, n, DT.Regular)
                    && tree == DT.TreeAdd(old(tree), At(o.parent), DT.Slot(o.names[|o.names| - 1], n, DT.Regular))
                    && FileOf(vol.geo, vol.disk, n) == [])
              && (r == -1 ==> tree == old(tree))
              && BytesKept(vol.geo, old(vol.disk), vol.disk, old(tree), tree)
              && Gained(old(vol.openCnt), vol.openCnt, multiset(Leaked(o))))
    {
      hide Settled, Gained, Search, DT.TreeOk, PT.Join, PT.LastSlash, Special, BytesKept, DT.TreeAdd, DT.CanAdd, FreeNo, DT.GoodName, PW.Lookup, FileOf, Allocated;
      ghost var cnt0, ib0 := vol.openCnt, vol.inodeMap.bits[..];
      SettledForm(vol.geo, vol.disk, vol.blockMap.bits[..], vol.inodeMap.bits[..], vol.open, vol.openCnt, tree);
      BytesSame(vol.geo, vol.disk, tree);
      var no, rec;
      ghost var o;
      no, rec, o := SearchFile(path);
      SearchMeans(tree, path);
      halted := false;
      if no != -1 {
        DirClose(rec.parent, cnt0, o.via);
        r := -1;
        return;
      }
      if rec.parent == NoDir {
        halted := AllocForNull();
        if !halted {
          DirClose(NoDir, cnt0, o.via);
        }
        r := -1;
        return;
      }
      ParentOpen(vol.geo, vol.disk, vol.blockMap.bits[..], vol.inodeMap.bits[..], vol.open, vol.openCnt, tree, cnt0, o.via, rec.parent);
      MissingName(tree, path);
      var slash := PT.LastSlash(rec.searchedPath);
      LastName(o.names);
      r := EnterFile(At(rec.parent), rec.searchedPath[slash + 1..]);
      DirClose(rec.parent, cnt0, o.via);
    }

    /** create_file when the search left no directory: with an inode number to be had it goes on
        to read the directory's inode through the null pointer. */
    method AllocForNull() returns (halted: bool)
      requires Valid()
      modifies vol`disk, vol.inodeMap.bits
      ensures halted <==> FreeNo(old(vol.inodeMap.bits[..]), 0) < MAX_FILES_PER_PART
      ensures !halted ==> Valid() && vol.disk == old(vol.disk) && vol.inodeMap.bits[..] == old(vol.inodeMap.bits[..])
    {
      hide Settled, FreeNo, Allocated, Synced;
      ghost var ib := vol.inodeMap.bits[..];
      SettledForm(vol.geo, vol.disk, vol.blockMap.bits[..], ib, vol.open, vol.openCnt, tree);
      SettledSizes(vol.geo, vol.disk, vol.blockMap.bits[..], ib, vol.open, vol.openCnt, tree);
      var n := vol.InodeBitmapAlloc();
      if n == -1 {
        NoFreeNo(ib, 0);
      } else {
        FreeNoIs(ib, 0, n);
      }
      halted := n != -1;
    }

    /** dir_close of the directory a search left as the parent, other handles being open. */
    method CloseParent(h: Handle, ghost cnt0: map<nat, nat>, ghost via: seq<nat>, ghost more: multiset<nat>)
      requires Valid() && Gained(cnt0, vol.openCnt, multiset(via) + more) && Cnt(cnt0, 0) >= 1
      requires h == NoDir || h == ParentOf(via)
      modifies vol`open, vol`openCnt
      ensures Valid()
      ensures Gained(cnt0, vol.openCnt, multiset(if h == NoDir || via == [] then via else via[..|via| - 1]) + more)
    {
      hide Settled, Gained;
      if h.Opened? {
        LastOfVia(via);
        CloseHandle(h.no, cnt0, multiset(via) + more);
        assert multiset(via) + more - multiset{h.no} == multiset(via) - multiset{h.no} + more;
      }
    }

    /** The end of open_file, descriptors aside: a regular file gets a handle. */
    method OpenFound(no: int, rec: Record, ghost o: Outcome, ghost cnt0: map<nat, nat>, ghost more: multiset<nat>) returns (r: int)
      requires Valid() && Gained(cnt0, vol.openCnt, multiset(o.via) + more) && Cnt(cnt0, 0) >= 1
      requires no == o.no != -1 && rec == Record(PT.Join(o.names), o.parent, KindNo(o.kind))
      requires o.parent == NoDir || o.parent == ParentOf(o.via)
      requires (KindNo(o.kind) == 1 <==> o.kind == DT.Regular) && (o.kind == DT.Regular ==> o.no in tree.files && o.no in tree.up)
      modifies vol`open, vol`openCnt
      ensures Valid() && r == (if o.kind == DT.Regular then o.no else -1)
      ensures r != -1 ==> r in vol.open
      ensures Gained(cnt0, vol.openCnt, WithHandle(multiset(Leaked(o)) + more, r))
    {
      hide Settled, Gained, DT.TreeOk, PT.Join;
      if rec.fileType != 1 {
        CloseParent(rec.parent, cnt0, o.via, more);
        return -1;
      }
      OpenHandle(no, cnt0, multiset(o.via) + more);
      assert multiset(o.via) + more + multiset{no as nat} == multiset(o.via) + (more + multiset{no as nat});
      CloseParent(rec.parent, cnt0, o.via, more + multiset{no as nat});
      assert multiset(Leaked(o)) + (more + multiset{no as nat}) == multiset(Leaked(o)) + more + multiset{no as nat};
      StillOpen(vol.geo, vol.disk, vol.blockMap.bits[..], vol.inodeMap.bits[..], vol.open, vol.openCnt, tree, cnt0, multiset(Leaked(o)) + more + multiset{no as nat}, no);
      return no;
    }

    /** The second search of open_file, with the record of the first, whose directory `h` is
        closed by now. A search that ends at a file in the middle of the path leaves the record's
        directory alone, and open_file closes that: `stale` says that it has been closed before. */
    method SearchAgain(pathname: PT.Text, h: Handle, ghost cnt0: map<nat, nat>, ghost g: multiset<nat>) returns (no: int, stale: bool)
      requires Valid() && PT.Clean(pathname) && pathname != [] && pathname[0] == DT.SLASH
      requires Gained(cnt0, vol.openCnt, g) && Cnt(cnt0, 0) >= 1
      modifies vol`open, vol`openCnt
      ensures Valid()
      ensures var o := Search(tree, pathname);
        && no == (if o.kind == DT.Regular then o.no else -1)
        && (stale <==> o.parent == NoDir && h.Opened?)
        && Gained(cnt0, vol.openCnt, WithHandle(multiset(Leaked(o)) + g, no))
      ensures no != -1 ==> no in tree.files && no in vol.open
    {
      hide Settled, Gained, Search, DT.TreeOk, PT.Join, Special, PW.Lookup, PW.Walk, PT.Components, Leaked, KindNo, PT.Clean, PT.GoodNames;
      ghost var cnt1 := vol.openCnt;
      SettledForm(vol.geo, vol.disk, vol.blockMap.bits[..], vol.inodeMap.bits[..], vol.open, vol.openCnt, tree);
      var rec;
      ghost var o;
      no, rec, o := SearchFile(pathname);
      SearchMeans(tree, pathname);
      FoundDirectory(tree, pathname);
      LeakedIs(o);
      GainedMore(cnt0, cnt1, vol.openCnt, g, multiset(o.via));
      assert g + multiset(o.via) == multiset(o.via) + g;
      if no == -1 {
        CloseParent(rec.parent, cnt0, o.via, g);
        return -1, rec.parent == NoDir && h.Opened?;
      }
      if o.kind == DT.Regular {
        FileFound(tree, pathname);
      }
      no := OpenFound(no, rec, o, cnt0, g);
      stale := false;
    }

    /** The part of open_file under O_CREAT, after a search that found nothing. */
    method MakeAndOpen(pathname: PT.Text, h: Handle, ghost o: Outcome, ghost cnt0: map<nat, nat>) returns (no: int, stale: bool, halted: bool)
      requires Valid() && PT.Clean(pathname) && pathname != [] && pathname[0] == DT.SLASH && pathname[|pathname| - 1] != DT.SLASH
      requires o == Search(tree, pathname) && o.no == -1 && h == o.parent && (h == NoDir || h == ParentOf(o.via))
      requires Gained(cnt0, vol.openCnt, multiset(o.via)) && Cnt(cnt0, 0) >= 1
      modifies `tree, vol`disk, vol`open, vol`openCnt, vol.inodeMap.bits
      ensures halted <==> o.parent == NoDir && FreeNo(old(vol.inodeMap.bits[..]), 0) < MAX_FILES_PER_PART
      ensures !halted ==> Valid()
      ensures !halted ==> MadeDone(old(tree), tree, FreeNo(old(vol.inodeMap.bits[..]), 0), o, Search(tree, pathname), no, stale, cnt0, vol.openCnt)
      ensures !halted && no != -1 ==> no in tree.files && no in vol.open
      ensures !halted ==> BytesKept(vol.geo, old(vol.disk), vol.disk, old(tree), tree)
    {
      hide Settled, Gained, Search, DT.TreeOk, PT.Join, Special, BytesKept, DT.TreeAdd, Addable, FreeNo, HasRoom, PW.Lookup, PW.Walk, PT.Components, Leaked, KindNo, PT.Clean, PT.GoodNames, FileOf;
      ghost var cnt1 := vol.openCnt;
      no, stale := -1, false;
      var r;
      r, halted := CreateFile(pathname);
      if halted {
        return;
      }
      GainedMore(cnt0, cnt1, vol.openCnt, multiset(o.via), multiset(Leaked(o)));
      CloseParent(h, cnt0, o.via, multiset(Leaked(o)));
      LeakedIs(o);
      if r != 0 {
        return;
      }
      no, stale := SearchAgain(pathname, h, cnt0, multiset(Leaked(o)) + multiset(Leaked(o)));
    }

    /** open_file, descriptors aside. With O_CREAT a file is made where the search stopped and
        the path is searched again; if that finds nothing the new file stays. The call goes on
        with a null pointer when nothing was found because a file stands in the way. When
        `stale` is set it is about to close a handle that it has closed; so far all is in order. */
    method OpenFile(pathname: PT.Text, flags: nat) returns (no: int, stale: bool, halted: bool)
      requires Valid() && PT.Clean(pathname) && pathname != [] && pathname[0] == DT.SLASH && flags <= 7
      modifies `tree, vol`disk, vol`open, vol`openCnt, vol.inodeMap.bits
      ensures var o, n := Search(old(tree), pathname), FreeNo(old(vol.inodeMap.bits[..]), 0);
        halted <==> pathname[|pathname| - 1] != DT.SLASH && flags >= O_CREAT && o.no == -1 && o.parent == NoDir && n < MAX_FILES_PER_PART
      ensures !halted ==> Valid()
      ensures !halted ==> OpenDone(old(tree), tree, FreeNo(old(vol.inodeMap.bits[..]), 0), pathname, flags, no, stale, old(vol.openCnt), vol.openCnt)
      ensures !halted && no != -1 ==> no in tree.files && no in vol.open
      ensures !halted ==> BytesKept(vol.geo, old(vol.disk), vol.disk, old(tree), tree)
    {
      hide Settled, Gained, Search, DT.TreeOk, PT.Join, Special, BytesKept, DT.TreeAdd, Addable, FreeNo, HasRoom, PW.Lookup, PW.Walk, PT.Components, Leaked, MadeDone;
      ghost var cnt0 := vol.openCnt;
      SettledForm(vol.geo, vol.disk, vol.blockMap.bits[..], vol.inodeMap.bits[..], vol.open, vol.openCnt, tree);
      BytesSame(vol.geo, vol.disk, tree);
      GainedNone(cnt0);
      if pathname[|pathname| - 1] == DT.SLASH {
        return -1, false, false;
      }
      var rec;
      ghost var o;
      no, rec, o := SearchFile(pathname);
      SearchMeans(tree, pathname);
      FoundDirectory(tree, pathname);
      LeakedIs(o);
      assert multiset(o.via) + multiset{} == multiset(o.via);
      assert multiset(Leaked(o)) + multiset{} == multiset(Leaked(o));
      if no != -1 {
        if o.kind == DT.Regular {
          FileFound(tree, pathname);
        }
        no := OpenFound(no, rec, o, cnt0, multiset{});
        return no, false, false;
      }
      if flags < O_CREAT {
        DirClose(rec.parent, cnt0, o.via);
        return -1, false, false;
      }
      ghost var t, n := tree, FreeNo(vol.inodeMap.bits[..], 0);
      no, stale, halted := MakeAndOpen(pathname, rec.parent, o, cnt0);
      if !halted {
        MadeIsDone(t, tree, n, pathname, flags, no, stale, cnt0, vol.openCnt);
      }
    }

    // ---- making a directory ----

    /** The second half of sys_mkdir: a number, a sector with the first two entries, the
        entry in the parent, and both inodes to disk; or all of it undone. */
    method EnterDirectory(p: nat, dirname: DT.Name) returns (r: int)
      requires Valid() && p in tree.dirs && p in vol.open && DT.GoodName(dirname)
      modifies `tree, vol`disk, vol`open, vol.blockMap.bits, vol.inodeMap.bits
      ensures Counted(vol.open, vol.openCnt) && (r == 0 || r == -1) && |vol.disk| == |old(vol.disk)|
      ensures Valid() <==> r == -1 || PW.Lookup(old(tree), p, dirname) == PW.None
      ensures var n := FreeNo(old(vol.inodeMap.bits[..]), 0);
        && (r == 0 <==> n < MAX_FILES_PER_PART && ClearBits(old(vol.blockMap.bits[..])) != {} && HasRoom(old(tree), p))
        && (r == 0 ==>
              && |ClearBits(vol.blockMap.bits[..])| == |ClearBits(old(vol.blockMap.bits[..]))| - 1
              && Entered(vol.geo, vol.disk, vol.blockMap.bits[..], vol.inodeMap.bits[..], old(tree), tree, p, DT.Slot(dirname, n, DT.Directory)))
      ensures r == -1 ==> tree == old(tree) && vol.blockMap.bits[..] == old(vol.blockMap.bits[..]) && vol.inodeMap.bits[..] == old(vol.inodeMap.bits[..])
      ensures BytesKept(vol.geo, old(vol.disk), vol.disk, old(tree), tree)
    {
      hide Settled, DT.TreeOk, DirReady, Stored, StoredPlus, KeptBut, TableOf, TableInode, BytesKept, DirLaid,
           FileBytes, Synced, EmptyInode, PutInode, PutSec, EntryWritten, DT.AddEntry, DT.TreeAdd, DT.CanAdd, WithBit, Bit, ClearBits, Allocated, FreeNo,
           SameTableAndData, Storable, DT.NewDir, Holds, DirStored, DT.GoodName, Splice, Le32, PW.Lookup, Sound, Doubled;
      ghost var d0, bb, ib0, open0, t := vol.disk, vol.blockMap.bits[..], vol.inodeMap.bits[..], vol.open, tree;
      SettledSizes(vol.geo, d0, bb, ib0, open0, vol.openCnt, t);
      SettledStored(vol.geo, d0, bb, ib0, open0, vol.openCnt, t);
      SettledForm(vol.geo, d0, bb, ib0, open0, vol.openCnt, t);
      SettledDir(vol.geo, d0, bb, ib0, open0, vol.openCnt, t, p);
      BytesSame(vol.geo, d0, t);
      StillCounted(vol.geo, d0, bb, ib0, open0, vol.openCnt, t, open0);
      var n := vol.InodeBitmapAlloc();
      if n == -1 {
        NoFreeNo(ib0, 0);
        return -1;
      }
      FreeNoIs(ib0, 0, n);
      ghost var s, d1 := DT.Slot(dirname, n, DT.Directory), vol.disk;
      EnterMissing(vol.geo, d0, bb, ib0, open0, vol.openCnt, t, p, s);
      AllocatedBit(ib0, n);
      BitRestored(ib0, n);
      var lba := vol.BlockBitmapAlloc();
      if lba == -1 {
        vol.InodeBitmapFree(n);
        SameTableMore(vol.geo, d0, d1, vol.disk);
        MapsOnly(vol.geo, d0, vol.disk, bb, ib0, open0, vol.openCnt, tree, p);
        return -1;
      }
      ghost var x, d2, bb1, ib1 := lba - vol.geo.dataLba, vol.disk, vol.blockMap.bits[..], vol.inodeMap.bits[..];
      FreeHere(vol.geo, d0, bb, ib0, open0, vol.openCnt, tree, x);
      SameTableMore(vol.geo, d0, d1, d2);
      ClearBitsOfWithBit(bb, x, true);
      var ioBuf := NewBlock(n, p);
      PutDataTable(vol.geo, d2, lba, ioBuf, bb1, ib1);
      PutSecIs(d2, lba, ioBuf);
      vol.IdeWrite(lba, ioBuf, 1);
      ghost var d3 := vol.disk;
      NewDirStored(vol.geo, d0, d2, ioBuf, d3, bb, ib0, t, n, x, p);
      LaidReady(vol.geo, d0, d3, bb, ib0, tree, n, x, p, open0[p]);
      var ok := CreateDirEntry(p, n, dirname, DT.Directory, tree.dirs[p]);
      if !ok {
        vol.InodeBitmapFree(n);
        ghost var d4 := vol.disk;
        vol.BlockBitmapFree(lba);
        BitRestored(bb, x);
        SameTableMore(vol.geo, d3, d4, vol.disk);
        BlockUndone(vol.geo, d0, d3, vol.disk, bb, ib0, open0, vol.openCnt, tree, p);
        return -1;
      }
      ghost var d4, open4 := vol.disk, vol.open;
      EntryWrittenInode(vol.geo, d3, d4, open0, open4, p, DT.AddEntry(t.dirs[p], s));
      vol.InodeSync(vol.open[p]);
      ghost var d5 := vol.disk;
      vol.InodeSync(DirInode(n, lba));
      ghost var table := TableOf(vol.geo, d0)[n := DirInode(n, lba)];
      if PW.Lookup(t, p, dirname) == PW.None {
        tree := DT.TreeAdd(t, p, s);
        MkdirDone(vol.geo, d0, d3, d4, d5, vol.disk, bb, bb1, ib0, ib1, open0, open4, vol.openCnt, t, tree, p, s, DirInode(n, lba), table);
      } else {
        DoubledDone(vol.geo, d0, d3, d4, d5, vol.disk, bb, bb1, ib0, ib1, open0, open4, vol.openCnt, t, p, s, DirInode(n, lba), table);
      }
      return 0;
    }

    /** The block of a new directory, put together in io_buf. */
    method NewBlock(n: u32, p: u32) returns (ioBuf: seq<byte>)
      ensures Holds(ioBuf, DT.NewDir(n, p).slots) && |ioBuf| == SECTOR_SIZE
    {
      ioBuf := Zeros(512);
      ioBuf := Splice(Splice(Splice(ioBuf, 0, DT.DOT), 16, Le32(n)), 20, Le32(2));
      ioBuf := Splice(Splice(Splice(ioBuf, 24, DT.DOTDOT), 40, Le32(p)), 44, Le32(2));
      DirBlockHolds(n, p);
    }

    /** sys_mkdir when the search left no directory: with a number and a sector to be had it goes
        on to read the directory's inode through the null pointer. */
    method AllocDirForNull() returns (halted: bool)
      requires Valid()
      modifies vol`disk, vol.blockMap.bits, vol.inodeMap.bits
      ensures halted <==> FreeNo(old(vol.inodeMap.bits[..]), 0) < MAX_FILES_PER_PART && ClearBits(old(vol.blockMap.bits[..])) != {}
      ensures !halted ==>
        && Valid() && |vol.disk| == |old(vol.disk)| && BytesKept(vol.geo, old(vol.disk), vol.disk, tree, tree)
        && vol.blockMap.bits[..] == old(vol.blockMap.bits[..]) && vol.inodeMap.bits[..] == old(vol.inodeMap.bits[..])
    {
      hide Settled, FreeNo, Allocated, Synced, BytesKept, WithBit, Bit, ClearBits, SameTableAndData;
      ghost var d0, bb, ib := vol.disk, vol.blockMap.bits[..], vol.inodeMap.bits[..];
      SettledForm(vol.geo, d0, bb, ib, vol.open, vol.openCnt, tree);
      SettledSizes(vol.geo, d0, bb, ib, vol.open, vol.openCnt, tree);
      BytesSame(vol.geo, d0, tree);
      var n := vol.InodeBitmapAlloc();
      if n == -1 {
        NoFreeNo(ib, 0);
        return false;
      }
      FreeNoIs(ib, 0, n);
      AllocatedBit(ib, n);
      BitRestored(ib, n);
      ghost var d1 := vol.disk;
      var lba := vol.BlockBitmapAlloc();
      if lba == -1 {
        vol.InodeBitmapFree(n);
        SameTableMore(vol.geo, d0, d1, vol.disk);
        MapsOnly(vol.geo, d0, vol.disk, bb, ib, vol.open, vol.openCnt, tree, 0);
      }
      halted := lba != -1;
    }

    /** dir_close of the directory a search left as the parent, whatever is on the disk. */
    method DirCloseAny(h: Handle, ghost cnt0: map<nat, nat>, ghost via: seq<nat>)
      requires Counted(vol.open, vol.openCnt) && Gained(cnt0, vol.openCnt, multiset(via)) && Cnt(cnt0, 0) >= 1
      requires h == NoDir || h == ParentOf(via)
      modifies vol`open, vol`openCnt
      ensures old(Valid()) ==> Valid()
      ensures Gained(cnt0, vol.openCnt, multiset(if h == NoDir || via == [] then via else via[..|via| - 1]))
    {
      hide Settled, Gained, Counted;
      if h.Opened? {
        LastOfVia(via);
        CountStep(vol.open, vol.openCnt, h.no, cnt0, multiset(via));
        if Valid() {
          CloseStep(vol.geo, vol.disk, vol.blockMap.bits[..], vol.inodeMap.bits[..], vol.open, vol.openCnt, tree, h.no, cnt0, multiset(via));
        }
        vol.InodeClose(h.no);
      }
    }

    /** sys_mkdir. Only the depth of the path and of what was searched is compared. When they
        agree although a file stands in the way, the call goes on with a null pointer; when they
        agree although all components were found, the name of the directory they lead to is
        entered in that directory, a second time if it was listed there. */
    method Mkdir(pathname: PT.Text) returns (r: int, halted: bool)
      requires Valid() && PT.Clean(pathname) && pathname != [] && pathname[0] == DT.SLASH
      modifies `tree, vol`disk, vol`open, vol`openCnt, vol.blockMap.bits, vol.inodeMap.bits
      ensures var o, n := Search(old(tree), pathname), FreeNo(old(vol.inodeMap.bits[..]), 0);
        halted <==> DepthPassed(pathname, o) && o.parent == NoDir && n < MAX_FILES_PER_PART && ClearBits(old(vol.blockMap.bits[..])) != {}
      ensures !halted ==> |vol.disk| == |old(vol.disk)| && BytesKept(vol.geo, old(vol.disk), vol.disk, old(tree), tree)
      ensures !halted ==>
        var o, n := Search(old(tree), pathname), FreeNo(old(vol.inodeMap.bits[..]), 0);
        && (r == 0 || r == -1)
        && (r == 0 <==> DepthPassed(pathname, o) && o.parent != NoDir && n < MAX_FILES_PER_PART
                        && ClearBits(old(vol.blockMap.bits[..])) != {} && HasRoom(old(tree), At(o.parent)))
      ensures !halted && r == 0 ==>
        var o, n := Search(old(tree), pathname), FreeNo(old(vol.inodeMap.bits[..]), 0);
        && o.names != [] && At(o.parent) in old(tree).dirs
        && Entered(vol.geo, vol.disk, vol.blockMap.bits[..], vol.inodeMap.bits[..], old(tree), tree, At(o.parent), DT.Slot(o.names[|o.names| - 1], n, DT.Directory))
        && |ClearBits(vol.blockMap.bits[..])| == |ClearBits(old(vol.blockMap.bits[..]))| - 1
        && (Valid() <==> PW.Lookup(old(tree), At(o.parent), o.names[|o.names| - 1]) == PW.None)
      ensures !halted && r == -1 ==>
        Valid() && tree == old(tree) && vol.blockMap.bits[..] == old(vol.blockMap.bits[..]) && vol.inodeMap.bits[..] == old(vol.inodeMap.bits[..])
      ensures !halted ==> Gained(old(vol.openCnt), vol.openCnt, multiset(Leaked(Search(old(tree), pathname))))
    {
      hide Settled, Gained, Search, DT.TreeOk, PT.Join, PT.LastSlash, Special, BytesKept, Entered, HasRoom, ClearBits, FreeNo, DT.GoodName, PT.Components, PW.Lookup, Slashes, Counted;
      ghost var cnt0 := vol.openCnt;
      SettledForm(vol.geo, vol.disk, vol.blockMap.bits[..], vol.inodeMap.bits[..], vol.open, vol.openCnt, tree);
      BytesSame(vol.geo, vol.disk, tree);
      halted := false;
      var no, rec;
      ghost var o;
      no, rec, o := SearchFile(pathname);
      SearchMeans(tree, pathname);
      DepthSearched(tree, pathname);
      if no != -1 {
        DirClose(rec.parent, cnt0, o.via);
        r := -1;
        return;
      }
      var pathnameDepth := PathDepthCnt(pathname);
      var pathSearchedDepth := PathDepthCnt(rec.searchedPath);
      if pathnameDepth != pathSearchedDepth {
        DirClose(rec.parent, cnt0, o.via);
        r := -1;
        return;
      }
      if rec.parent == NoDir {
        halted := AllocDirForNull();
        if !halted {
          DirClose(NoDir, cnt0, o.via);
        }
        r := -1;
        return;
      }
      ParentOpen(vol.geo, vol.disk, vol.blockMap.bits[..], vol.inodeMap.bits[..], vol.open, vol.openCnt, tree, cnt0, o.via, rec.parent);
      var slash := PT.LastSlash(rec.searchedPath);
      LastName(o.names);
      r := EnterDirectory(At(rec.parent), rec.searchedPath[slash + 1..]);
      ghost var valid := Valid();
      DirCloseAny(rec.parent, cnt0, o.via);
      if !valid {
        EnteredTwice(vol.geo, vol.disk, vol.blockMap.bits[..], vol.inodeMap.bits[..], vol.open, vol.openCnt,
                     old(tree), tree, At(o.parent), DT.Slot(o.names[|o.names| - 1], FreeNo(old(vol.inodeMap.bits[..]), 0), DT.Directory));
      }
    }

    // ---- taking out ----

    /** inode_close while the copy of a released inode may still be in memory. */
    method CloseBut(k: nat, ghost cnt0: map<nat, nat>, ghost g: multiset<nat>, ghost gone: nat)
      requires Counted(vol.open, vol.openCnt) && Gained(cnt0, vol.openCnt, g) && k in g && Cnt(cnt0, 0) >= 1
      modifies vol`open, vol`openCnt
      ensures Counted(vol.open, vol.openCnt) && Gained(cnt0, vol.openCnt, g - multiset{k})
      ensures old(SettledBut(vol.geo, vol.disk, vol.blockMap.bits[..], vol.inodeMap.bits[..], vol.open, vol.openCnt, tree, gone)) ==>
                SettledBut(vol.geo, vol.disk, vol.blockMap.bits[..], vol.inodeMap.bits[..], vol.open, vol.openCnt, tree, gone)
    {
      hide SettledBut, Gained, Counted;
      CloseButStep(vol.geo, vol.disk, vol.blockMap.bits[..], vol.inodeMap.bits[..], vol.open, vol.openCnt, tree, gone, k, cnt0, g);
      vol.InodeClose(k);
    }

    /** The first entry with the number goes, the directory is written back, and the inode is
        released. In the directory itself that entry is "."; then the tree is as it was. */
    method TakeOut(p: nat, no: nat)
      requires Valid() && Takeable(tree, p, no) && p in vol.open && no in vol.open
      modifies `tree, vol`disk, vol`open, vol.blockMap.bits, vol.inodeMap.bits
      ensures Counted(vol.open, vol.openCnt)
      ensures Taken(vol.geo, old(vol.disk), vol.disk, old(vol.blockMap.bits[..]), vol.blockMap.bits[..],
                    old(vol.inodeMap.bits[..]), vol.inodeMap.bits[..], old(tree), tree, p, no)
      ensures p != no ==> SettledBut(vol.geo, vol.disk, vol.blockMap.bits[..], vol.inodeMap.bits[..], vol.open, vol.openCnt, tree, no)
      ensures |vol.disk| == |old(vol.disk)| && BytesKept(vol.geo, old(vol.disk), vol.disk, old(tree), tree)
    {
      hide Settled, DT.TreeOk, DirReady, Stored, StoredPlus, KeptBut, TableOf, TableInode, BytesKept, SettledBut, Links, Removed,
           Synced, PutInode, EntryWritten, DT.DropEntry, DT.TreeDrop, DT.CanDrop, WithBit, ClearBits, Allocated, OwnBits, SameTableAndData;
      ghost var d0, bb, ib, open0, t := vol.disk, vol.blockMap.bits[..], vol.inodeMap.bits[..], vol.open, tree;
      TakePlaces(t, p, no);
      SettledStored(vol.geo, d0, bb, ib, open0, vol.openCnt, t);
      SettledForm(vol.geo, d0, bb, ib, open0, vol.openCnt, t);
      SettledDir(vol.geo, d0, bb, ib, open0, vol.openCnt, t, p);
      SettledInode(vol.geo, d0, bb, ib, open0, vol.openCnt, t, no);
      var ok := DeleteDirEntry(p, no, tree.dirs[p]);
      ghost var d1, open1 := vol.disk, vol.open;
      EntryWrittenInode(vol.geo, d0, d1, open0, open1, p, DT.DropEntry(t.dirs[p], no));
      vol.InodeSync(vol.open[p]);
      ghost var d2 := vol.disk;
      StillCounted(vol.geo, d0, bb, ib, open0, vol.openCnt, t, open1);
      if p == no {
        SelfSynced(vol.geo, d0, d1, d2, bb, ib, t, no, open0, open1, DT.DropEntry(t.dirs[p], no));
        OwnSame(vol.geo, open1[no], open0[no]);
      } else {
        DropSynced(vol.geo, d0, d1, d2, bb, ib, t, p, no, open0, open1);
      }
      vol.InodeRelease(vol.open[no]);
      if p == no {
        SelfTaken(vol.geo, d0, d2, vol.disk, bb, vol.blockMap.bits[..], ib, open0, vol.openCnt, t, no);
      } else {
        tree := DT.TreeDrop(t, p, no);
        TakenOut(vol.geo, d0, d2, vol.disk, bb, vol.blockMap.bits[..], ib, open0, open1, vol.openCnt, t, p, no);
        if no in t.dirs {
          RemovedNow(vol.geo, d0, d2, vol.disk, bb, ib, open0, vol.openCnt, t, p, no);
        }
      }
    }

    method Unlink(pathname: PT.Text) returns (r: int)
      requires Valid() && PT.Clean(pathname) && pathname != [] && pathname[0] == DT.SLASH
      modifies `tree, vol`disk, vol`open, vol`openCnt, vol.blockMap.bits, vol.inodeMap.bits
      ensures Valid()
      ensures var o := Search(old(tree), pathname);
        && (r == 0 || r == -1)
        && (r == 0 <==> o.kind == DT.Regular && o.no !in old(vol.open))
        && (r == 0 ==> EntryGone(vol.geo, old(vol.disk), old(vol.blockMap.bits[..]), vol.blockMap.bits[..],
                                 old(vol.inodeMap.bits[..]), vol.inodeMap.bits[..], old(tree), tree, At(o.parent), o.no))
        && (r == -1 ==> tree == old(tree) && vol.disk == old(vol.disk))
        && BytesKept(vol.geo, old(vol.disk), vol.disk, old(tree), tree)
        && Gained(old(vol.openCnt), vol.openCnt, multiset(Leaked(o)))
    {
      hide Settled, SettledBut, Gained, Search, DT.TreeOk, PT.Join, Special, BytesKept, EntryGone, DT.CanDrop, PT.Components, PW.Lookup, PW.Walk, TableInode, Synced, Allocated;
      ghost var cnt0 := vol.openCnt;
      HandleMeans(vol.geo, vol.disk, vol.blockMap.bits[..], vol.inodeMap.bits[..], vol.open, vol.openCnt, tree);
      SettledForm(vol.geo, vol.disk, vol.blockMap.bits[..], vol.inodeMap.bits[..], vol.open, vol.openCnt, tree);
      BytesSame(vol.geo, vol.disk, tree);
      var no, rec;
      ghost var o;
      no, rec, o := SearchFile(pathname);
      SearchMeans(tree, pathname);
      FoundDirectory(tree, pathname);
      if no == -1 {
        DirClose(rec.parent, cnt0, o.via);
        return -1;
      }
      if rec.fileType != 1 {
        DirClose(rec.parent, cnt0, o.via);
        return -1;
      }
      ghost var g := multiset(o.via);
      FileFound(tree, pathname);
      OpenHandle(no, cnt0, g);
      OpenedOnce(cnt0, vol.openCnt, o.via, no);
      assert g + multiset{no} - multiset{no} == g;
      if vol.openCnt[no] > 1 {
        CloseHandle(no, cnt0, g + multiset{no});
        DirClose(rec.parent, cnt0, o.via);
        return -1;
      }
      ParentStillOpen(vol.geo, vol.disk, vol.blockMap.bits[..], vol.inodeMap.bits[..], vol.open, vol.openCnt, tree, cnt0, o.via, no, rec.parent);
      SettledInode(vol.geo, vol.disk, vol.blockMap.bits[..], vol.inodeMap.bits[..], vol.open, vol.openCnt, tree, no);
      DropIsTake(tree, At(rec.parent), no);
      TakeOut(At(rec.parent), no);
      CloseBut(no, cnt0, g + multiset{no}, no);
      ButClosed(vol.geo, vol.disk, vol.blockMap.bits[..], vol.inodeMap.bits[..], vol.open, vol.openCnt, tree, no, cnt0, o.via);
      DirClose(rec.parent, cnt0, o.via);
      return 0;
    }

    /** dir_remove: the assertion that nothing follows the first block never fails. */
    method DirRemove(p: nat, no: nat)
      requires Valid() && Takeable(tree, p, no) && no in tree.dirs && p in vol.open && no in vol.open
      modifies `tree, vol`disk, vol`open, vol.blockMap.bits, vol.inodeMap.bits
      ensures Counted(vol.open, vol.openCnt)
      ensures Taken(vol.geo, old(vol.disk), vol.disk, old(vol.blockMap.bits[..]), vol.blockMap.bits[..],
                    old(vol.inodeMap.bits[..]), vol.inodeMap.bits[..], old(tree), tree, p, no)
      ensures p != no ==> SettledBut(vol.geo, vol.disk, vol.blockMap.bits[..], vol.inodeMap.bits[..], vol.open, vol.openCnt, tree, no)
      ensures |vol.disk| == |old(vol.disk)| && BytesKept(vol.geo, old(vol.disk), vol.disk, old(tree), tree)
    {
      hide Settled, SettledBut, DT.TreeOk, DT.CanDrop, BytesKept, Taken, DirReady, TableInode, Holds, Sec;
      SettledDir(vol.geo, vol.disk, vol.blockMap.bits[..], vol.inodeMap.bits[..], vol.open, vol.openCnt, tree, no);
      ReadyBlocks(vol.geo, vol.disk, vol.open[no], tree.dirs[no]);
      var blockIdx := 1;
      while blockIdx < 13
        invariant 1 <= blockIdx <= 13
        invariant Valid() && tree == old(tree) && vol.open == old(vol.open) && vol.disk == old(vol.disk)
        invariant vol.blockMap.bits[..] == old(vol.blockMap.bits[..]) && vol.inodeMap.bits[..] == old(vol.inodeMap.bits[..])
      {
        SectorRef(vol.disk, vol.open[no], blockIdx);
        assert vol.open[no].sectors[blockIdx] == 0;
        blockIdx := blockIdx + 1;
      }
      TakeOut(p, no);
    }

    /** The end of sys_rmdir: the directory is removed and both handles are closed. */
    method RemoveEmpty(no: nat, parent: Handle, ghost cnt0: map<nat, nat>, ghost o: Outcome)
      requires Valid() && Takeable(tree, At(parent), no) && no in tree.dirs && no in vol.open
      requires Gained(cnt0, vol.openCnt, multiset(o.via) + multiset{no}) && Cnt(cnt0, 0) >= 1
      requires parent == o.parent == ParentOf(o.via)
      modifies `tree, vol`disk, vol`open, vol`openCnt, vol.blockMap.bits, vol.inodeMap.bits
      ensures Taken(vol.geo, old(vol.disk), vol.disk, old(vol.blockMap.bits[..]), vol.blockMap.bits[..],
                    old(vol.inodeMap.bits[..]), vol.inodeMap.bits[..], old(tree), tree, At(parent), no)
      ensures At(parent) != no ==> SettledBut(vol.geo, vol.disk, vol.blockMap.bits[..], vol.inodeMap.bits[..], vol.open, vol.openCnt, tree, no)
      ensures Valid() <==> At(parent) != no && Cnt(cnt0, no) == 0 && no !in Leaked(o)
      ensures |vol.disk| == |old(vol.disk)| && BytesKept(vol.geo, old(vol.disk), vol.disk, old(tree), tree)
      ensures Gained(cnt0, vol.openCnt, multiset(Leaked(o)))
    {
      hide Settled, SettledBut, Gained, Counted, DT.TreeOk, BytesKept, EntryGone, SelfGone, Removed, Takeable, TableInode, Synced;
      ghost var g, d, bb, ib := multiset(o.via), vol.disk, vol.blockMap.bits[..], vol.inodeMap.bits[..];
      SettledForm(vol.geo, vol.disk, vol.blockMap.bits[..], vol.inodeMap.bits[..], vol.open, vol.openCnt, tree);
      ParentStillOpen(vol.geo, vol.disk, vol.blockMap.bits[..], vol.inodeMap.bits[..], vol.open, vol.openCnt, tree, cnt0, o.via, no, parent);
      DirRemove(At(parent), no);
      assert g + multiset{no} - multiset{no} == g;
      CloseBut(no, cnt0, g + multiset{no}, no);
      if parent.Opened? {
        LastOfVia(o.via);
        CloseBut(parent.no, cnt0, g, no);
      }
      if At(parent) == no {
        SelfUnsettled(vol.geo, d, vol.disk, bb, vol.blockMap.bits[..], ib, vol.inodeMap.bits[..], vol.open, vol.openCnt, tree, no);
      } else {
        ButClosed(vol.geo, vol.disk, vol.blockMap.bits[..], vol.inodeMap.bits[..], vol.open, vol.openCnt, tree, no, cnt0, Leaked(o));
      }
    }

    /** sys_rmdir. It stops in an assertion exactly when the path leads to the root, and removes
        a directory exactly when its size is that of its first two entries; then it holds
        nothing else. By a path that ends in "." it takes the directory out of itself, and the
        directory it lies in lists it still; otherwise all is in order again unless there is a
        handle on it. */
    method Rmdir(pathname: PT.Text) returns (r: int, halted: bool)
      requires Valid() && PT.Clean(pathname) && pathname != [] && pathname[0] == DT.SLASH
      modifies `tree, vol`disk, vol`open, vol`openCnt, vol.blockMap.bits, vol.inodeMap.bits
      ensures halted <==> Search(old(tree), pathname).no == 0
      ensures !halted ==> |vol.disk| == |old(vol.disk)| && BytesKept(vol.geo, old(vol.disk), vol.disk, old(tree), tree)
      ensures !halted ==> (r == 0 || r == -1) && (r == 0 <==> Removable(old(tree), Search(old(tree), pathname)))
      ensures !halted && r == 0 ==>
        RmdirDone(Search(old(tree), pathname), vol.geo, old(vol.disk), vol.disk, old(vol.blockMap.bits[..]), vol.blockMap.bits[..],
                  old(vol.inodeMap.bits[..]), vol.inodeMap.bits[..], old(vol.open), vol.open, vol.openCnt, old(tree), tree)
      ensures !halted && cwd in old(tree).dirs ==>
        (cwd in tree.dirs <==> r == -1 || EndsInDot(Search(old(tree), pathname)) || Search(old(tree), pathname).no != cwd)
      ensures !halted && r == -1 ==> Valid() && tree == old(tree) && vol.disk == old(vol.disk)
      ensures !halted ==> Gained(old(vol.openCnt), vol.openCnt, multiset(Leaked(Search(old(tree), pathname))))
    {
      hide Settled, SettledBut, Gained, Search, DT.TreeOk, PT.Join, Special, BytesKept, Taken, Takeable, PT.Components, PW.Lookup, PW.Walk, TableInode, Synced, Allocated, DirReady;
      ghost var cnt0 := vol.openCnt;
      HandleMeans(vol.geo, vol.disk, vol.blockMap.bits[..], vol.inodeMap.bits[..], vol.open, vol.openCnt, tree);
      SettledForm(vol.geo, vol.disk, vol.blockMap.bits[..], vol.inodeMap.bits[..], vol.open, vol.openCnt, tree);
      BytesSame(vol.geo, vol.disk, tree);
      var no, rec;
      ghost var o;
      no, rec, o := SearchFile(pathname);
      SearchMeans(tree, pathname);
      FoundDirectory(tree, pathname);
      if no == -1 {
        DirClose(rec.parent, cnt0, o.via);
        return -1, false;
      }
      if no == 0 {
        return 0, true;  // ASSERT(inode_no != 0)
      }
      if rec.fileType == 1 {
        DirClose(rec.parent, cnt0, o.via);
        return -1, false;
      }
      SubdirFound(tree, pathname);
      ghost var g := multiset(o.via);
      OpenHandle(no, cnt0, g);  // dir_open
      assert g + multiset{no} - multiset{no} == g;
      SettledDir(vol.geo, vol.disk, vol.blockMap.bits[..], vol.inodeMap.bits[..], vol.open, vol.openCnt, tree, no);
      ReadyEntries(vol.geo, vol.disk, vol.open[no], tree.dirs[no]);
      if vol.open[no].size != 48 {
        CloseHandle(no, cnt0, g + multiset{no});
        DirClose(rec.parent, cnt0, o.via);
        return -1, false;
      }
      ghost var t, d, bb, ib := tree, vol.disk, vol.blockMap.bits[..], vol.inodeMap.bits[..];
      RemoveEmpty(no, rec.parent, cnt0, o);
      if cwd in t.dirs {
        StillThere(vol.geo, d, vol.disk, bb, vol.blockMap.bits[..], ib, vol.inodeMap.bits[..], t, tree, At(o.parent), no, cwd);
      }
      return 0, false;
    }

    // ---- bytes ----

    /** write_file down to the tree: the bytes of the one file change as written, those of
        every other file stay, and so does the tree. */
    method WriteFile(f: File, buf: seq<byte>, count: u32) returns (r: u32, halted: bool)
      requires Valid() && f.inode in vol.open && f.inode in tree.files && f.pos <= vol.open[f.inode].size && count <= |buf|
      modifies vol`disk, vol`open, f`pos, vol.blockMap.bits
      ensures !halted ==> Valid()
      ensures (old(f.pos) + count) % U32_SIZE > MAX_FILE_SIZE ==>
        !halted && r == MINUS_ONE && f.pos == old(f.pos) && vol.disk == old(vol.disk)
      ensures (old(f.pos) + count) % U32_SIZE <= MAX_FILE_SIZE ==>
        WriteDone(FileOf(vol.geo, old(vol.disk), f.inode), FileOf(vol.geo, vol.disk, f.inode), old(f.pos), f.pos, buf, count, r, halted,
                  |ClearBits(old(vol.blockMap.bits[..]))|, |ClearBits(vol.blockMap.bits[..])|)
      ensures !halted ==> forall j: nat :: j in tree.files && j != f.inode ==>
        FileOf(vol.geo, vol.disk, j) == FileOf(vol.geo, old(vol.disk), j)
    {
      hide Settled, DT.TreeOk, TableInode, Content, Demand, ClearBits, Overwrite, FsOk, Written, FileOf, Synced;
      ghost var d0, bb, ib, open0, k, p := vol.disk, vol.blockMap.bits[..], vol.inodeMap.bits[..], vol.open, f.inode, f.pos;
      SettledMeansFsOk(vol.geo, d0, bb, ib, open0, vol.openCnt, tree);
      FileThere(vol.geo, d0, bb, ib, open0, vol.openCnt, tree, k);
      r, halted := vol.FileWrite(f, buf, count);
      if !halted && (p + count) % U32_SIZE <= MAX_FILE_SIZE {
        WrittenTree(vol.geo, d0, vol.disk, bb, vol.blockMap.bits[..], ib, open0, vol.open, vol.openCnt, tree, k, p, buf[..Min(count, MAX_FILE_SIZE - p)]);
      }
    }

    method ReadFile(f: File, count: u32) returns (buf: seq<byte>)
      requires Valid() && f.inode in vol.open && f.inode in tree.files
      modifies f`pos
      ensures Valid()
      ensures buf == From(FileOf(vol.geo, vol.disk, f.inode), old(f.pos), count)
      ensures f.pos == old(f.pos) + |buf|
    {
      hide Settled, DT.TreeOk, TableInode, Content, FsOk, FileOf, Synced;
      SettledMeansFsOk(vol.geo, vol.disk, vol.blockMap.bits[..], vol.inodeMap.bits[..], vol.open, vol.openCnt, tree);
      FileThere(vol.geo, vol.disk, vol.blockMap.bits[..], vol.inodeMap.bits[..], vol.open, vol.openCnt, tree, f.inode);
      buf := vol.FileRead(f, count);
    }
  }
}
