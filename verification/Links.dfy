/** How the invariant of a partition rides over each kind of update: a sector taken, given
    back or overwritten, an inode written back, a file grown by a block, and a run of bytes put
    into one block. Each step keeps every reference apart from every other, and says what the
    other inodes have kept. */
module LinkSteps {
  import opened Bytes
  import opened Bitmaps
  import opened Inodes
  import opened Numbers
  import opened Volumes

  /** Only sectors of the data area are ever looked through. */
  lemma LinksSameData(geo: Geo, d: seq<byte>, e: seq<byte>, table: seq<Inode>, bb: seq<byte>, ib: seq<byte>)
    requires geo.Valid() && Links(geo, d, table, bb, ib)
    requires forall l: nat :: l >= geo.dataLba ==> Sec(e, l) == Sec(d, l)
    ensures Links(geo, e, table, bb, ib)
    ensures forall k: nat :: Allocated(ib, k) ==> SameSectors(d, e, table[k])
  {
    forall k: nat | Allocated(ib, k)
      ensures SameSectors(d, e, table[k])
    {
    }
    LinksSameRefs(geo, d, e, table, bb, ib);
  }

  lemma LinksSameRefs(geo: Geo, d: seq<byte>, e: seq<byte>, table: seq<Inode>, bb: seq<byte>, ib: seq<byte>)
    requires geo.Valid() && Links(geo, d, table, bb, ib)
    requires forall k: nat :: Allocated(ib, k) ==> SameSectors(d, e, table[k])
    ensures Links(geo, e, table, bb, ib)
  {
    forall k: nat | Allocated(ib, k)
      ensures forall s: nat :: s <= INDEX_SLOT ==> Ref(e, table[k], s) == Ref(d, table[k], s)
    {
      SameSectorsMeans(d, e, table[k]);
    }
  }

  /** What one slot refers to, no other slot does. */
  lemma SlotIsAlone(geo: Geo, d: seq<byte>, table: seq<Inode>, bb: seq<byte>, ib: seq<byte>, k: nat, s: nat)
    requires geo.Valid() && Links(geo, d, table, bb, ib)
    requires Allocated(ib, k) && s <= INDEX_SLOT && Ref(d, table[k], s) != 0
    ensures Sized(geo, table, bb, ib)
    ensures geo.dataLba <= Ref(d, table[k], s) < geo.sectors
    ensures forall j: nat, t: nat :: Allocated(ib, j) && t <= INDEX_SLOT && (j != k || t != s) ==> Ref(d, table[j], t) != Ref(d, table[k], s)
  {
  }

  lemma FreeIsUsable(geo: Geo, d: seq<byte>, table: seq<Inode>, bb: seq<byte>, ib: seq<byte>, x: nat)
    requires geo.Valid() && Links(geo, d, table, bb, ib) && x < 8 * |bb| && !Bit(bb, x)
    ensures Sized(geo, table, bb, ib)
    ensures x < geo.usable
    ensures forall j: nat, t: nat :: Allocated(ib, j) && t <= INDEX_SLOT ==> Ref(d, table[j], t) != geo.dataLba + x
  {
  }

  /** A block of an inode is overwritten. */
  lemma WriteBlock(geo: Geo, disk: seq<byte>, table: seq<Inode>, bb: seq<byte>, ib: seq<byte>,
                   k: nat, b: nat, s: seq<byte>)
    requires geo.Valid() && |disk| == 512 * geo.sectors && Links(geo, disk, table, bb, ib)
    requires Allocated(ib, k) && b < SLOTS && |s| == SECTOR_SIZE
    requires Ref(disk, table[k], b) != 0
    ensures var e := PutSec(disk, Ref(disk, table[k], b), s);
            && Links(geo, e, table, bb, ib)
            && (forall j: nat :: Allocated(ib, j) && j != k ==> SameSectors(disk, e, table[j]))
            && (forall t: nat :: t <= INDEX_SLOT ==> Ref(e, table[k], t) == Ref(disk, table[k], t))
            && (forall t: nat :: t <= INDEX_SLOT && t != b && Ref(disk, table[k], t) != 0 ==>
                  Sec(e, Ref(disk, table[k], t)) == Sec(disk, Ref(disk, table[k], t)))
            && Sec(e, Ref(disk, table[k], b)) == s
  {
    var x := Ref(disk, table[k], b);
    var e := PutSec(disk, x, s);
    forall l: nat
      ensures Sec(e, l) == if l == x then s else Sec(disk, l)
    {
      SecOfPutSec(disk, x, s, l);
    }
    forall j: nat | Allocated(ib, j) && j != k
      ensures SameSectors(disk, e, table[j])
    {
    }
    assert Ref(disk, table[k], INDEX_SLOT) != x;
    forall j: nat | Allocated(ib, j)
      ensures forall t: nat :: t <= INDEX_SLOT ==> Ref(e, table[j], t) == Ref(disk, table[j], t)
    {
      if j != k {
        SameSectorsMeans(disk, e, table[j]);
      }
    }
  }

  /** One empty slot of one inode comes to hold a sector that was free. */
  lemma LinksExtend(geo: Geo, d: seq<byte>, table: seq<Inode>, bb: seq<byte>, ib: seq<byte>,
                    e: seq<byte>, table': seq<Inode>, k: nat, b: nat, x: nat)
    requires geo.Valid() && Links(geo, d, table, bb, ib)
    requires Allocated(ib, k) && b <= INDEX_SLOT && x < geo.usable && !Bit(bb, x)
    requires |table'| == |table| && forall j: nat :: j < |table| ==> table'[j].Valid()
    requires forall j: nat, t: nat :: Allocated(ib, j) && t <= INDEX_SLOT && (j != k || t != b) ==> Ref(e, table'[j], t) == Ref(d, table[j], t)
    requires Ref(e, table'[k], b) == geo.dataLba + x
    ensures Links(geo, e, table', WithBit(bb, x, true), ib)
  {
    var bb' := WithBit(bb, x, true);
    forall y: nat | y < 8 * |bb|
      ensures Bit(bb', y) == (y == x || Bit(bb, y))
    {
      BitOfWithBit(bb, x, true, y);
    }
    forall j: nat, t: nat | Allocated(ib, j) && t <= INDEX_SLOT
      ensures Ref(e, table'[j], t) == 0 || Marked(geo, bb', Ref(e, table'[j], t))
    {
    }
    // no other slot holds the new sector: what is referred to is marked, and it was not
    assert forall j: nat, t: nat :: Allocated(ib, j) && t <= INDEX_SLOT && (j != k || t != b) ==> Ref(e, table'[j], t) != geo.dataLba + x;
  }

  /** Inodes given up, with whatever of theirs is unmarked: the others keep theirs. */
  lemma LinksShrink(geo: Geo, disk: seq<byte>, table: seq<Inode>, bb: seq<byte>, ib: seq<byte>, bb': seq<byte>, ib': seq<byte>)
    requires geo.Valid() && Links(geo, disk, table, bb, ib)
    requires |bb'| == |bb| && |ib'| == |ib|
    requires forall k: nat :: Allocated(ib', k) ==> Allocated(ib, k)
    requires forall y: nat :: geo.usable <= y < 8 * |bb| ==> Bit(bb', y)
    requires forall k: nat, s: nat :: Allocated(ib', k) && s <= INDEX_SLOT && Ref(disk, table[k], s) != 0 ==> Marked(geo, bb', Ref(disk, table[k], s))
    ensures Links(geo, disk, table, bb', ib')
  {
  }

  /** A sector nothing refers to is unmarked. */
  lemma LinksFree(geo: Geo, disk: seq<byte>, table: seq<Inode>, bb: seq<byte>, ib: seq<byte>, x: nat)
    requires geo.Valid() && Links(geo, disk, table, bb, ib) && x < geo.usable
    requires forall j: nat, s: nat :: Allocated(ib, j) && s <= INDEX_SLOT ==> Ref(disk, table[j], s) != geo.dataLba + x
    ensures Links(geo, disk, table, WithBit(bb, x, false), ib)
  {
    hide Ref;
    var bb' := WithBit(bb, x, false);
    forall y: nat | y < 8 * |bb|
      ensures Bit(bb', y) == (y != x && Bit(bb, y))
    {
      BitOfWithBit(bb, x, false, y);
    }
    LinksShrink(geo, disk, table, bb, ib, bb', ib);
  }

  /** The bits of the sectors named in the first `n` of an inode's thirteen numbers. */
  function OwnBits(geo: Geo, i: Inode, n: nat): set<nat>
    requires n <= |i.sectors|
  {
    set s: nat | s < n && i.sectors[s] >= geo.dataLba :: i.sectors[s] - geo.dataLba
  }

  // ---- the steps of taking a file one block further ----

  ghost predicate Others(geo: Geo, d: seq<byte>, e: seq<byte>, ib: seq<byte>, k: nat)
    requires geo.Valid()
  {
    && |d| == |e| == 512 * geo.sectors
    && (forall j: nat :: j < MAX_FILES_PER_PART && j != k ==> TableInode(geo, e, j) == TableInode(geo, d, j))
    && (forall j: nat :: Allocated(ib, j) && j != k ==> SameSectors(d, e, TableInode(geo, d, j)))
  }

  lemma OthersTransitive(geo: Geo, d: seq<byte>, e: seq<byte>, f: seq<byte>, ib: seq<byte>, k: nat)
    requires geo.Valid() && Others(geo, d, e, ib, k) && Others(geo, e, f, ib, k)
    ensures Others(geo, d, f, ib, k)
  {
    forall j: nat | Allocated(ib, j) && j != k
      ensures SameSectors(d, f, TableInode(geo, d, j))
    {
      SameSectorsMeans(d, e, TableInode(geo, d, j));
    }
  }

  ghost predicate SameData(geo: Geo, d: seq<byte>, e: seq<byte>) {
    forall l: nat :: l >= geo.dataLba ==> Sec(e, l) == Sec(d, l)
  }

  /** The block map changed, in memory and on disk; table and data did not. */
  lemma MapStep(geo: Geo, d: seq<byte>, e: seq<byte>, k: nat, m: Inode, bb: seq<byte>, ib: seq<byte>)
    requires geo.Valid() && |d| == 512 * geo.sectors && k < MAX_FILES_PER_PART && m.Valid()
    requires Links(geo, d, TableOf(geo, d)[k := m], bb, ib) && SameTableAndData(geo, d, e)
    ensures Links(geo, e, TableOf(geo, e)[k := m], bb, ib)
    ensures SameData(geo, d, e) && Others(geo, d, e, ib, k)
    ensures Allocated(ib, k) ==> SameSectors(d, e, m)
  {
    SameTableAndDataKeeps(geo, d, e);
    assert TableOf(geo, e) == TableOf(geo, d);
    var t := TableOf(geo, d)[k := m];
    LinksSameData(geo, d, e, t, bb, ib);
    forall j: nat | Allocated(ib, j) && j != k
      ensures SameSectors(d, e, TableInode(geo, d, j))
    {
      assert t[j] == TableInode(geo, d, j);
    }
    assert t[k] == m;
  }

  /** The inode was written back. */
  lemma SyncStep(geo: Geo, d: seq<byte>, m: Inode, bb: seq<byte>, ib: seq<byte>)
    requires geo.Valid() && |d| == 512 * geo.sectors && m.no < MAX_FILES_PER_PART && m.Valid()
    requires Links(geo, d, TableOf(geo, d)[m.no := m], bb, ib)
    ensures var e := PutInode(geo, d, m);
            && Links(geo, e, TableOf(geo, e)[m.no := m], bb, ib)
            && SameData(geo, d, e) && Others(geo, d, e, ib, m.no)
            && TableInode(geo, e, m.no) == m
            && (Allocated(ib, m.no) ==> SameSectors(d, e, m))
  {
    hide PutInode;
    var e := PutInode(geo, d, m);
    PutInodeEffect(geo, d, m, bb, ib);
    var t := TableOf(geo, d)[m.no := m];
    assert TableOf(geo, e)[m.no := m] == t;
    LinksSameData(geo, d, e, t, bb, ib);
    forall j: nat | Allocated(ib, j) && j != m.no
      ensures SameSectors(d, e, TableInode(geo, d, j))
    {
      assert t[j] == TableInode(geo, d, j);
    }
    assert t[m.no] == m;
  }

  /** A free sector goes into one of the twelve direct slots. */
  lemma DirectStep(geo: Geo, d: seq<byte>, table: seq<Inode>, bb: seq<byte>, ib: seq<byte>, k: nat, b: nat, x: nat)
    requires geo.Valid() && Links(geo, d, table, bb, ib) && Allocated(ib, k)
    requires b < DIRECT && Ref(d, table[k], b) == 0
    requires x < 8 * |bb| && !Bit(bb, x) && geo.dataLba + x < U32_SIZE
    ensures var m := table[k].(sectors := table[k].sectors[b := geo.dataLba + x]);
            && Links(geo, d, table[k := m], WithBit(bb, x, true), ib)
            && (forall t: nat :: t <= INDEX_SLOT ==> Ref(d, m, t) == if t == b then geo.dataLba + x else Ref(d, table[k], t))
  {
    var m := table[k].(sectors := table[k].sectors[b := geo.dataLba + x]);
    assert m.sectors[12] == table[k].sectors[12];
    LinksExtend(geo, d, table, bb, ib, d, table[k := m], k, b, x);
  }

  lemma ClearedEntry(w: nat)
    requires w < 128
    ensures Entry(Zeros(512), w) == 0
  {
    var z := Zeros(512);
    assert z[4 * w] == z[4 * w + 1] == z[4 * w + 2] == z[4 * w + 3] == 0;
  }

  /** A free sector, cleared, becomes the index block. */
  lemma IndexStep(geo: Geo, d: seq<byte>, table: seq<Inode>, bb: seq<byte>, ib: seq<byte>, k: nat, x: nat)
    requires geo.Valid() && |d| == 512 * geo.sectors && Links(geo, d, table, bb, ib) && Allocated(ib, k)
    requires table[k].sectors[12] == 0
    requires x < 8 * |bb| && !Bit(bb, x)
    ensures geo.dataLba + x < geo.sectors
    ensures var m := table[k].(sectors := table[k].sectors[12 := geo.dataLba + x]);
            var e := PutSec(d, geo.dataLba + x, Zeros(512));
            && Links(geo, e, table[k := m], WithBit(bb, x, true), ib)
            && (forall t: nat :: t <= INDEX_SLOT ==> Ref(e, m, t) == if t == INDEX_SLOT then geo.dataLba + x else Ref(d, table[k], t))
            && (forall l: nat :: l != geo.dataLba + x ==> Sec(e, l) == Sec(d, l))
            && (forall j: nat :: Allocated(ib, j) ==> SameSectors(d, e, table[j]))
  {
    hide Links, PutSec, Zeros;
    FreeIsUsable(geo, d, table, bb, ib, x);
    var at := geo.dataLba + x;
    var m := table[k].(sectors := table[k].sectors[12 := at]);
    var e := PutSec(d, at, Zeros(512));
    forall l: nat
      ensures Sec(e, l) == if l == at then Zeros(512) else Sec(d, l)
    {
      SecOfPutSec(d, at, Zeros(512), l);
    }
    forall j: nat | Allocated(ib, j)
      ensures SameSectors(d, e, table[j])
      ensures forall t: nat :: t <= INDEX_SLOT ==> Ref(e, table[j], t) == Ref(d, table[j], t)
    {
      SameSectorsMeans(d, e, table[j]);
    }
    forall t: nat | t <= INDEX_SLOT
      ensures Ref(e, m, t) == if t == INDEX_SLOT then at else Ref(d, table[k], t)
    {
      if DIRECT <= t < INDEX_SLOT {
        ClearedEntry(t - DIRECT);
      }
    }
    LinksExtend(geo, d, table, bb, ib, e, table[k := m], k, INDEX_SLOT, x);
  }

  lemma EntryRef(d: seq<byte>, e: seq<byte>, m: Inode, b: nat, at: u32, t: nat)
    requires m.Valid() && m.sectors[12] != 0 && DIRECT <= b < SLOTS && t <= INDEX_SLOT
    requires Sec(e, m.sectors[12]) == Splice(Sec(d, m.sectors[12]), 4 * (b - 12), Le32(at))
    ensures Ref(e, m, t) == if t == b then at else Ref(d, m, t)
  {
    hide Splice, Sec;
    if DIRECT <= t < INDEX_SLOT {
      WordOfSplice(Sec(d, m.sectors[12]), 4 * (b - 12), at, 4 * (t - 12));
    }
  }

  /** A free sector is entered in the index block. */
  lemma EntryStep(geo: Geo, d: seq<byte>, table: seq<Inode>, bb: seq<byte>, ib: seq<byte>, k: nat, b: nat, x: nat)
    requires geo.Valid() && |d| == 512 * geo.sectors && Links(geo, d, table, bb, ib) && Allocated(ib, k)
    requires DIRECT <= b < SLOTS && table[k].sectors[12] != 0 && Ref(d, table[k], b) == 0
    requires x < 8 * |bb| && !Bit(bb, x)
    ensures geo.dataLba + x < geo.sectors && table[k].sectors[12] < geo.sectors
    ensures var i := table[k].sectors[12];
            var e := PutSec(d, i, Splice(Sec(d, i), 4 * (b - 12), Le32(geo.dataLba + x)));
            && Links(geo, e, table, WithBit(bb, x, true), ib)
            && (forall t: nat :: t <= INDEX_SLOT ==> Ref(e, table[k], t) == if t == b then geo.dataLba + x else Ref(d, table[k], t))
            && (forall l: nat :: l != i ==> Sec(e, l) == Sec(d, l))
            && (forall j: nat :: Allocated(ib, j) && j != k ==> SameSectors(d, e, table[j]))
  {
    hide Links, Splice, PutSec, Le32, Sec;
    FreeIsUsable(geo, d, table, bb, ib, x);
    IndexRef(d, table[k]);
    var i := table[k].sectors[12];
    SlotIsAlone(geo, d, table, bb, ib, k, INDEX_SLOT);
    var at := geo.dataLba + x;
    var s := Splice(Sec(d, i), 4 * (b - 12), Le32(at));
    var e := PutSec(d, i, s);
    forall l: nat
      ensures Sec(e, l) == if l == i then s else Sec(d, l)
    {
      SecOfPutSec(d, i, s, l);
    }
    forall j: nat | Allocated(ib, j) && j != k
      ensures SameSectors(d, e, table[j])
      ensures forall t: nat :: t <= INDEX_SLOT ==> Ref(e, table[j], t) == Ref(d, table[j], t)
    {
      SameSectorsMeans(d, e, table[j]);
    }
    forall t: nat | t <= INDEX_SLOT
      ensures Ref(e, table[k], t) == if t == b then at else Ref(d, table[k], t)
    {
      EntryRef(d, e, table[k], b, at, t);
    }
    LinksExtend(geo, d, table, bb, ib, e, table, k, b, x);
  }

  /** Everything but the numbers of slots `b` and up, and the index block, is as it was. */
  ghost predicate Kept(geo: Geo, d: seq<byte>, e: seq<byte>, ib: seq<byte>, m: Inode, m': Inode, b: nat)
    requires geo.Valid() && m.Valid() && m'.Valid()
  {
    && (forall s: nat :: s < b && s < SLOTS ==> Ref(e, m', s) == Ref(d, m, s))
    && (forall s: nat :: s < b && s < SLOTS && Ref(d, m, s) != 0 ==> Sec(e, Ref(d, m, s)) == Sec(d, Ref(d, m, s)))
    && Others(geo, d, e, ib, m.no)
  }

  lemma KeptTransitive(geo: Geo, d: seq<byte>, e: seq<byte>, f: seq<byte>, ib: seq<byte>, m: Inode, m1: Inode, m2: Inode, b: nat)
    requires geo.Valid() && m.Valid() && m1.Valid() && m2.Valid() && m.no == m1.no
    requires Kept(geo, d, e, ib, m, m1, b) && Kept(geo, e, f, ib, m1, m2, b)
    ensures Kept(geo, d, f, ib, m, m2, b)
  {
    OthersTransitive(geo, d, e, f, ib, m.no);
  }

  lemma KeptBySync(geo: Geo, d: seq<byte>, e: seq<byte>, ib: seq<byte>, m: Inode, b: nat)
    requires geo.Valid() && m.Valid() && Others(geo, d, e, ib, m.no) && SameSectors(d, e, m)
    ensures Kept(geo, d, e, ib, m, m, b)
    ensures forall s: nat :: s <= INDEX_SLOT ==> Ref(e, m, s) == Ref(d, m, s)
    ensures forall n: nat :: Shape(d, m, n) ==> Shape(e, m, n)
  {
    SameSectorsMeans(d, e, m);
  }

  /** A file keeps its bytes while it is given blocks beyond them. */
  lemma KeptContent(geo: Geo, d: seq<byte>, e: seq<byte>, ib: seq<byte>, m: Inode, m': Inode, b: nat)
    requires geo.Valid() && m.Valid() && m'.Valid() && Kept(geo, d, e, ib, m, m', b)
    requires m'.size == m.size <= MAX_FILE_SIZE && Blocks(m.size) <= b && Shape(d, m, b)
    ensures Content(e, m') == Content(d, m)
  {
    hide Ref, Sec, Others;
    forall p: nat | p < m.size
      ensures ByteAt(e, m', p) == ByteAt(d, m, p)
    {
      assert p / 512 < b && Ref(d, m, p / 512) != 0;
    }
  }

  lemma DirectGrown(geo: Geo, d: seq<byte>, e: seq<byte>, m: Inode, bb: seq<byte>, ib: seq<byte>, b: nat, x: nat)
    requires geo.Valid() && |d| == 512 * geo.sectors && m.Valid() && Allocated(ib, m.no)
    requires Links(geo, d, TableOf(geo, d)[m.no := m], bb, ib) && SameTableAndData(geo, d, e)
    requires b < DIRECT && Shape(d, m, b) && x < 8 * |bb| && !Bit(bb, x)
    ensures geo.dataLba + x < geo.sectors
    ensures var m' := m.(sectors := m.sectors[b := geo.dataLba + x]);
            && Links(geo, e, TableOf(geo, e)[m.no := m'], WithBit(bb, x, true), ib)
            && Kept(geo, d, e, ib, m, m', b) && Shape(e, m', b + 1)
            && Ref(e, m', b) == geo.dataLba + x
  {
    var k := m.no;
    MapStep(geo, d, e, k, m, bb, ib);
    SameSectorsMeans(d, e, m);
    var table := TableOf(geo, e)[k := m];
    DirectStep(geo, e, table, bb, ib, k, b, x);
    var m' := m.(sectors := m.sectors[b := geo.dataLba + x]);
    assert table[k := m'] == TableOf(geo, e)[k := m'];
  }

  /** Others are kept by a data write that spares their sectors. */
  lemma OthersOfDataWrite(geo: Geo, d: seq<byte>, lba: nat, s: seq<byte>, ib: seq<byte>, k: nat)
    requires geo.Valid() && |d| == 512 * geo.sectors && geo.dataLba <= lba < geo.sectors && |s| == SECTOR_SIZE
    requires forall j: nat :: Allocated(ib, j) && j != k ==> SameSectors(d, PutSec(d, lba, s), TableInode(geo, d, j))
    ensures Others(geo, d, PutSec(d, lba, s), ib, k)
    ensures TableOf(geo, PutSec(d, lba, s)) == TableOf(geo, d)
  {
    PutDataKeepsMeta(geo, d, lba, s);
    SameMetaKeeps(geo, d, PutSec(d, lba, s), [], []);
  }

  lemma IndexGrown(geo: Geo, d: seq<byte>, e: seq<byte>, m: Inode, bb: seq<byte>, ib: seq<byte>, x: nat)
    requires geo.Valid() && |d| == 512 * geo.sectors && m.Valid() && Allocated(ib, m.no)
    requires Links(geo, d, TableOf(geo, d)[m.no := m], bb, ib) && SameTableAndData(geo, d, e)
    requires Shape(d, m, DIRECT) && x < 8 * |bb| && !Bit(bb, x)
    ensures geo.dataLba + x < geo.sectors
    ensures var m' := m.(sectors := m.sectors[12 := geo.dataLba + x]);
            var f := PutSec(e, geo.dataLba + x, Zeros(512));
            && SameMeta(geo, e, f)
            && Links(geo, f, TableOf(geo, f)[m.no := m'], WithBit(bb, x, true), ib)
            && Kept(geo, d, f, ib, m, m', DIRECT)
            && (forall s: nat :: s < SLOTS ==> (Ref(f, m', s) != 0 <==> s < DIRECT))
  {
    hide Links, PutSec, Zeros, Ref;
    var k := m.no;
    var at := geo.dataLba + x;
    MapStep(geo, d, e, k, m, bb, ib);
    SameSectorsMeans(d, e, m);
    var table := TableOf(geo, e)[k := m];
    FreeIsUsable(geo, e, table, bb, ib, x);
    IndexStep(geo, e, table, bb, ib, k, x);
    var m' := m.(sectors := m.sectors[12 := at]);
    var f := PutSec(e, at, Zeros(512));
    PutDataKeepsMeta(geo, e, at, Zeros(512));
    forall j: nat | Allocated(ib, j) && j != k
      ensures SameSectors(e, f, TableInode(geo, e, j))
    {
      assert table[j] == TableInode(geo, e, j);
    }
    OthersOfDataWrite(geo, e, at, Zeros(512), ib, k);
    OthersTransitive(geo, d, e, f, ib, k);
    assert table[k := m'] == TableOf(geo, f)[k := m'];
  }

  lemma EntryGrown(geo: Geo, d: seq<byte>, e: seq<byte>, m: Inode, bb: seq<byte>, ib: seq<byte>, b: nat, x: nat)
    requires geo.Valid() && |d| == 512 * geo.sectors && m.Valid() && Allocated(ib, m.no)
    requires Links(geo, d, TableOf(geo, d)[m.no := m], bb, ib) && SameTableAndData(geo, d, e)
    requires DIRECT <= b < SLOTS && m.sectors[12] != 0
    requires forall s: nat :: s < SLOTS ==> (Ref(d, m, s) != 0 <==> s < b)
    requires x < 8 * |bb| && !Bit(bb, x)
    ensures geo.dataLba <= m.sectors[12] < geo.sectors && geo.dataLba + x < geo.sectors
    ensures Sec(e, m.sectors[12]) == Sec(d, m.sectors[12])
    ensures var f := PutSec(e, m.sectors[12], Splice(Sec(d, m.sectors[12]), 4 * (b - 12), Le32(geo.dataLba + x)));
            && SameMeta(geo, e, f)
            && Links(geo, f, TableOf(geo, f)[m.no := m], WithBit(bb, x, true), ib)
            && Kept(geo, d, f, ib, m, m, b)
            && Shape(f, m, b + 1)
            && Ref(f, m, b) == geo.dataLba + x
  {
    hide Links, PutSec, Splice, Ref, Le32;
    var k := m.no;
    MapStep(geo, d, e, k, m, bb, ib);
    SameSectorsMeans(d, e, m);
    var table := TableOf(geo, e)[k := m];
    EntryStep(geo, e, table, bb, ib, k, b, x);
    var i := m.sectors[12];
    var s := Splice(Sec(d, i), 4 * (b - 12), Le32(geo.dataLba + x));
    assert Ref(d, m, INDEX_SLOT) == i by { IndexRef(d, m); }
    SlotIsAlone(geo, e, table, bb, ib, k, INDEX_SLOT);
    var f := PutSec(e, i, s);
    PutDataKeepsMeta(geo, e, i, s);
    forall j: nat | Allocated(ib, j) && j != k
      ensures SameSectors(e, f, TableInode(geo, e, j))
    {
      assert table[j] == TableInode(geo, e, j);
    }
    OthersOfDataWrite(geo, e, i, s, ib, k);
    OthersTransitive(geo, d, e, f, ib, k);
    assert table == TableOf(geo, f)[k := m];
  }

  lemma IndexRef(d: seq<byte>, m: Inode)
    requires m.Valid()
    ensures Ref(d, m, INDEX_SLOT) == m.sectors[12]
  {
  }

  function Overwrite(c: seq<byte>, at: nat, d: seq<byte>): (r: seq<byte>)
    requires at <= |c|
    ensures |r| == Max(|c|, at + |d|)
  {
    if at + |d| <= |c| then c[..at] + d + c[at + |d|..] else c[..at] + d
  }

  /** What a file reads as after a write: the run that was written comes back, and
      the rest, before it and after it, is what it was. */
  lemma OverwriteReads(c: seq<byte>, at: nat, d: seq<byte>)
    requires at <= |c|
    ensures Overwrite(c, at, d)[at..at + |d|] == d
    ensures Overwrite(c, at, d)[..at] == c[..at]
    ensures at + |d| <= |c| ==> Overwrite(c, at, d)[at + |d|..] == c[at + |d|..]
  {
  }

  lemma OverwriteMore(c: seq<byte>, at: nat, d: seq<byte>, more: seq<byte>)
    requires at <= |c|
    ensures Overwrite(Overwrite(c, at, d), at + |d|, more) == Overwrite(c, at, d + more)
  {
  }

  /** What a write of `data` at `p` makes of inode `m`, now `m'`: its bytes are the old
      ones with the run in place, it grew if the run went past its end, and every other
      inode, with every sector it refers to, is as it was. */
  ghost predicate Written(geo: Geo, d: seq<byte>, e: seq<byte>, ib: seq<byte>, m: Inode, m': Inode, p: nat, data: seq<byte>)
    requires geo.Valid() && m.Valid() && m'.Valid()
  {
    && p <= m.size <= MAX_FILE_SIZE && m'.size <= MAX_FILE_SIZE
    && m' == m.(size := m'.size, sectors := m'.sectors)
    && m'.size == Max(m.size, p + |data|)
    && Content(e, m') == Overwrite(Content(d, m), p, data)
    && Others(geo, d, e, ib, m.no)
  }

  /** A written run reads back, and the bytes before it and after it are the old ones. */
  lemma WrittenReadsBack(geo: Geo, d: seq<byte>, e: seq<byte>, ib: seq<byte>, m: Inode, m': Inode, p: nat, data: seq<byte>)
    requires geo.Valid() && m.Valid() && m'.Valid() && Written(geo, d, e, ib, m, m', p, data)
    ensures Content(e, m')[p..p + |data|] == data
    ensures Content(e, m')[..p] == Content(d, m)[..p]
    ensures p + |data| <= m.size ==> Content(e, m')[p + |data|..] == Content(d, m)[p + |data|..]
    ensures forall j: nat :: Allocated(ib, j) && j != m.no && FileOk(d, TableInode(geo, d, j)) ==>
              && TableInode(geo, e, j) == TableInode(geo, d, j)
              && Content(e, TableInode(geo, e, j)) == Content(d, TableInode(geo, d, j))
  {
    hide Content, Overwrite, Ref, Sec, Shape;
    OverwriteReads(Content(d, m), p, data);
    forall j: nat | Allocated(ib, j) && j != m.no && FileOk(d, TableInode(geo, d, j))
      ensures TableInode(geo, e, j) == TableInode(geo, d, j)
      ensures FileOk(e, TableInode(geo, e, j)) && Content(e, TableInode(geo, e, j)) == Content(d, TableInode(geo, d, j))
    {
      SameSectorsMeans(d, e, TableInode(geo, d, j));
    }
  }

  lemma WrittenNothing(geo: Geo, d: seq<byte>, ib: seq<byte>, m: Inode, p: nat)
    requires geo.Valid() && |d| == 512 * geo.sectors && m.Valid() && p <= m.size <= MAX_FILE_SIZE
    ensures Written(geo, d, d, ib, m, m, p, [])
  {
  }

  lemma WrittenMore(geo: Geo, d: seq<byte>, e: seq<byte>, f: seq<byte>, ib: seq<byte>, m: Inode, m1: Inode, m2: Inode,
                    p: nat, data: seq<byte>, more: seq<byte>)
    requires geo.Valid() && m.Valid() && m1.Valid() && m2.Valid()
    requires Written(geo, d, e, ib, m, m1, p, data) && Written(geo, e, f, ib, m1, m2, p + |data|, more)
    ensures Written(geo, d, f, ib, m, m2, p, data + more)
  {
    hide Content, Overwrite, Others;
    OverwriteMore(Content(d, m), p, data, more);
    OthersTransitive(geo, d, e, f, ib, m.no);
  }

  lemma WrittenSynced(geo: Geo, d: seq<byte>, e: seq<byte>, f: seq<byte>, ib: seq<byte>, m: Inode, m': Inode, p: nat, data: seq<byte>)
    requires geo.Valid() && m.Valid() && m'.Valid() && m'.no == m.no
    requires Written(geo, d, e, ib, m, m', p, data) && FileOk(e, m')
    requires Others(geo, e, f, ib, m.no) && SameSectors(e, f, m')
    ensures Written(geo, d, f, ib, m, m', p, data) && FileOk(f, m')
  {
    hide Content, Overwrite, Others, SameSectors, FileOk;
    SameSectorsMeans(e, f, m');
    OthersTransitive(geo, d, e, f, ib, m.no);
  }

  lemma WrittenSize(geo: Geo, d: seq<byte>, e: seq<byte>, ib: seq<byte>, m: Inode, m': Inode, p: nat, data: seq<byte>)
    requires geo.Valid() && m.Valid() && m'.Valid() && Written(geo, d, e, ib, m, m', p, data)
    ensures m'.size == Max(m.size, p + |data|) <= MAX_FILE_SIZE && m'.no == m.no
    ensures Others(geo, d, e, ib, m.no)
  {
  }

  /** A run of bytes goes into one block of the file, which may grow within it. */
  lemma ChunkStep(geo: Geo, d: seq<byte>, m: Inode, bb: seq<byte>, ib: seq<byte>, p: nat, data: seq<byte>)
    requires geo.Valid() && |d| == 512 * geo.sectors && m.Valid() && Allocated(ib, m.no)
    requires Links(geo, d, TableOf(geo, d)[m.no := m], bb, ib)
    requires p <= m.size <= MAX_FILE_SIZE && p < MAX_FILE_SIZE
    requires 0 < |data| <= 512 - p % 512
    requires Shape(d, m, Blocks(Max(m.size, p + |data|)))
    ensures geo.dataLba <= Ref(d, m, p / 512) < geo.sectors
    ensures var m' := m.(size := Max(m.size, p + |data|));
            var lba := Ref(d, m, p / 512);
            var e := PutSec(d, lba, Splice(Sec(d, lba), p % 512, data));
            && SameMeta(geo, d, e)
            && Links(geo, e, TableOf(geo, e)[m.no := m'], bb, ib)
            && FileOk(e, m')
            && Content(e, m') == Overwrite(Content(d, m), p, data)
            && Others(geo, d, e, ib, m.no)
            && (forall s: nat :: s <= INDEX_SLOT ==> Ref(e, m', s) == Ref(d, m, s))
  {
    hide Links, PutSec, Ref;
    var k := m.no;
    var b := p / 512;
    var table := TableOf(geo, d)[k := m];
    assert b < Blocks(Max(m.size, p + |data|));
    SlotIsAlone(geo, d, table, bb, ib, k, b);
    var lba := Ref(d, m, b);
    var s := Splice(Sec(d, lba), p % 512, data);
    var e := PutSec(d, lba, s);
    WriteBlock(geo, d, table, bb, ib, k, b, s);
    PutDataKeepsMeta(geo, d, lba, s);
    forall j: nat | Allocated(ib, j) && j != k
      ensures SameSectors(d, e, TableInode(geo, d, j))
    {
      assert table[j] == TableInode(geo, d, j);
    }
    OthersOfDataWrite(geo, d, lba, s, ib, k);
    var m' := m.(size := Max(m.size, p + |data|));
    assert table[k] == m;
    SizeRefs(e, m, m'.size);
    assert table == TableOf(geo, e)[k := m];
    ResizeLinks(geo, e, TableOf(geo, e)[k := m], bb, ib, k, m'.size);
    assert TableOf(geo, e)[k := m][k := m'] == TableOf(geo, e)[k := m'];
    ChunkContent(d, e, m, p, data);
  }

  /** The size takes no part in what an inode refers to. */
  lemma SizeRefs(d: seq<byte>, m: Inode, size: u32)
    requires m.Valid()
    ensures forall s: nat :: s <= INDEX_SLOT ==> Ref(d, m.(size := size), s) == Ref(d, m, s)
    ensures forall n: nat :: Shape(d, m, n) ==> Shape(d, m.(size := size), n)
  {
  }

  lemma ResizeLinks(geo: Geo, d: seq<byte>, table: seq<Inode>, bb: seq<byte>, ib: seq<byte>, k: nat, size: u32)
    requires geo.Valid() && Links(geo, d, table, bb, ib) && k < |table|
    ensures Links(geo, d, table[k := table[k].(size := size)], bb, ib)
  {
    var t := table[k := table[k].(size := size)];
    SizeRefs(d, table[k], size);
    assert forall j: nat, s: nat :: j < |t| && s <= INDEX_SLOT ==> Ref(d, t[j], s) == Ref(d, table[j], s);
  }

  lemma ChunkContent(d: seq<byte>, e: seq<byte>, m: Inode, p: nat, data: seq<byte>)
    requires m.Valid() && p <= m.size <= MAX_FILE_SIZE && p < MAX_FILE_SIZE
    requires 0 < |data| <= 512 - p % 512
    requires Shape(d, m, Blocks(Max(m.size, p + |data|)))
    requires forall s: nat :: s <= INDEX_SLOT ==> Ref(e, m, s) == Ref(d, m, s)
    requires forall s: nat :: s <= INDEX_SLOT && s != p / 512 && Ref(d, m, s) != 0 ==> Sec(e, Ref(d, m, s)) == Sec(d, Ref(d, m, s))
    requires Sec(e, Ref(d, m, p / 512)) == Splice(Sec(d, Ref(d, m, p / 512)), p % 512, data)
    ensures Content(e, m.(size := Max(m.size, p + |data|))) == Overwrite(Content(d, m), p, data)
  {
    hide Ref, Sec, Splice;
    var m' := m.(size := Max(m.size, p + |data|));
    SizeRefs(e, m, m'.size);
    forall q: nat | q < m'.size
      ensures ByteAt(e, m', q) == Overwrite(Content(d, m), p, data)[q]
    {
      assert q / 512 < Blocks(m'.size) <= SLOTS;
      assert Ref(d, m, q / 512) != 0;
      assert Ref(e, m', q / 512) == Ref(d, m, q / 512);
      if p <= q < p + |data| {
        assert q / 512 == p / 512 && q - p == q % 512 - p % 512;
        assert Overwrite(Content(d, m), p, data)[q] == data[q - p];
      } else {
        assert Overwrite(Content(d, m), p, data)[q] == Content(d, m)[q] == ByteAt(d, m, q);
      }
    }
  }

  // ---- the state between system calls ----

  /** Open inodes are allocated and the table holds what memory holds. */
  ghost predicate Coherent(geo: Geo, disk: seq<byte>, ib: seq<byte>, open: map<nat, Inode>)
    requires geo.Valid() && |disk| == 512 * geo.sectors
  {
    forall k: nat :: k in open ==>
      && Allocated(ib, k) && open[k].Valid() && open[k].no == k
      && TableInode(geo, disk, k) == open[k]
  }

  ghost predicate FilesOk(geo: Geo, disk: seq<byte>, ib: seq<byte>)
    requires geo.Valid() && |disk| == 512 * geo.sectors
  {
    forall k: nat :: Allocated(ib, k) ==>
      TableInode(geo, disk, k).no == k && FileOk(disk, TableInode(geo, disk, k))
  }

  ghost predicate FsOk(geo: Geo, disk: seq<byte>, bb: seq<byte>, ib: seq<byte>, open: map<nat, Inode>) {
    && geo.Valid()
    && |disk| == 512 * geo.sectors
    && Synced(geo, disk, bb, ib)
    && Links(geo, disk, TableOf(geo, disk), bb, ib)
    && FilesOk(geo, disk, ib)
    && Coherent(geo, disk, ib, open)
  }

  /** From between calls into the middle of one that works on an open inode. */
  lemma EnterCall(geo: Geo, disk: seq<byte>, bb: seq<byte>, ib: seq<byte>, open: map<nat, Inode>, k: nat)
    requires FsOk(geo, disk, bb, ib, open) && k in open
    ensures Allocated(ib, k) && open[k].Valid() && open[k].no == k
    ensures Links(geo, disk, TableOf(geo, disk)[k := open[k]], bb, ib)
    ensures FileOk(disk, open[k])
    ensures Content(disk, open[k]) == Content(disk, TableInode(geo, disk, k))
  {
    assert TableOf(geo, disk)[k := open[k]] == TableOf(geo, disk);
  }

  /** And back: one inode was worked on and written back, the others were kept. */
  lemma LeaveCall(geo: Geo, d: seq<byte>, e: seq<byte>, bb0: seq<byte>, bb: seq<byte>, ib: seq<byte>,
                  open: map<nat, Inode>, open': map<nat, Inode>, k: nat)
    requires FsOk(geo, d, bb0, ib, open) && Others(geo, d, e, ib, k)
    requires k in open && k in open' && open'[k].Valid() && open'[k].no == k && open' == open[k := open'[k]]
    requires Links(geo, e, TableOf(geo, e)[k := open'[k]], bb, ib) && Synced(geo, e, bb, ib)
    requires TableInode(geo, e, k) == open'[k] && FileOk(e, open'[k])
    ensures FsOk(geo, e, bb, ib, open')
  {
    hide Links, Ref, Shape, FileOk, Synced, SameSectors, TableInode;
    assert TableOf(geo, e)[k := open'[k]] == TableOf(geo, e);
    LeaveFiles(geo, d, e, ib, k);
    assert Coherent(geo, e, ib, open');
  }

  lemma LeaveFiles(geo: Geo, d: seq<byte>, e: seq<byte>, ib: seq<byte>, k: nat)
    requires geo.Valid() && |d| == 512 * geo.sectors && FilesOk(geo, d, ib) && Others(geo, d, e, ib, k)
    requires Allocated(ib, k) ==> TableInode(geo, e, k).no == k && FileOk(e, TableInode(geo, e, k))
    ensures FilesOk(geo, e, ib)
  {
    hide Links, Ref, Shape, FileOk, Synced, SameSectors, TableInode;
    forall j: nat | Allocated(ib, j)
      ensures TableInode(geo, e, j).no == j && FileOk(e, TableInode(geo, e, j))
    {
      if j != k {
        SameSectorsMeans(d, e, TableInode(geo, d, j));
      }
    }
  }

  // ---- giving an inode up ----

  lemma SectorRef(d: seq<byte>, i: Inode, n: nat)
    requires i.Valid() && n < 13
    ensures Ref(d, i, if n == 12 then INDEX_SLOT else n) == i.sectors[n]
  {
  }

  /** What the freed inode's thirteen numbers name, the others do not refer to. */
  lemma OwnSectorsAlone(geo: Geo, d: seq<byte>, table: seq<Inode>, bb: seq<byte>, ib: seq<byte>, k: nat)
    requires geo.Valid() && Links(geo, d, table, bb, ib) && Allocated(ib, k)
    ensures Sized(geo, table, bb, ib)
    ensures forall n: nat :: n < 13 && table[k].sectors[n] != 0 ==> geo.dataLba <= table[k].sectors[n] < geo.dataLba + geo.usable
    ensures forall n: nat, j: nat, s: nat :: n < 13 && table[k].sectors[n] != 0 && Allocated(ib, j) && j != k && s <= INDEX_SLOT ==>
              Ref(d, table[j], s) != table[k].sectors[n]
  {
    hide Ref;
    forall n: nat | n < 13
      ensures Ref(d, table[k], if n == 12 then INDEX_SLOT else n) == table[k].sectors[n]
    {
      SectorRef(d, table[k], n);
    }
  }

  lemma DropInode(geo: Geo, d: seq<byte>, table: seq<Inode>, bb: seq<byte>, ib: seq<byte>, k: nat)
    requires geo.Valid() && Links(geo, d, table, bb, ib) && k < MAX_FILES_PER_PART
    ensures |ib| == 512
    ensures Links(geo, d, table, bb, WithBit(ib, k, false))
    ensures forall j: nat :: Allocated(WithBit(ib, k, false), j) <==> Allocated(ib, j) && j != k
  {
    hide Ref;
    forall j: nat | j < MAX_FILES_PER_PART
      ensures Bit(WithBit(ib, k, false), j) == (j != k && Bit(ib, j))
    {
      BitOfWithBit(ib, k, false, j);
    }
    LinksShrink(geo, d, table, bb, ib, bb, WithBit(ib, k, false));
  }

  /** One of the numbers of an inode no longer allocated is freed in the map. */
  lemma FreeSector(geo: Geo, d: seq<byte>, e: seq<byte>, i: Inode, n: nat, bb: seq<byte>, ib: seq<byte>)
    requires geo.Valid() && |d| == 512 * geo.sectors && i.Valid() && n < 13
    requires Links(geo, d, TableOf(geo, d), bb, ib) && SameTableAndData(geo, d, e)
    requires geo.dataLba <= i.sectors[n] < geo.dataLba + geo.usable
    requires forall j: nat, s: nat :: Allocated(ib, j) && s <= INDEX_SLOT ==> Ref(d, TableOf(geo, d)[j], s) != i.sectors[n]
    ensures TableOf(geo, e) == TableOf(geo, d) && SameData(geo, d, e)
    ensures |bb| * 8 >= geo.usable
    ensures Links(geo, e, TableOf(geo, e), WithBit(bb, i.sectors[n] - geo.dataLba, false), ib)
    ensures forall j: nat, s: nat :: Allocated(ib, j) && s <= INDEX_SLOT ==> Ref(e, TableOf(geo, e)[j], s) == Ref(d, TableOf(geo, d)[j], s)
    ensures ClearBits(WithBit(bb, i.sectors[n] - geo.dataLba, false)) == ClearBits(bb) + {i.sectors[n] - geo.dataLba}
  {
    hide Ref;
    SameTableAndDataKeeps(geo, d, e);
    var t := TableOf(geo, d);
    assert TableOf(geo, e) == t;
    LinksFree(geo, d, t, bb, ib, i.sectors[n] - geo.dataLba);
    ClearBitsOfWithBit(bb, i.sectors[n] - geo.dataLba, false);
    LinksSameData(geo, d, e, t, WithBit(bb, i.sectors[n] - geo.dataLba, false), ib);
    forall j: nat | Allocated(ib, j)
      ensures forall s: nat :: s <= INDEX_SLOT ==> Ref(e, t[j], s) == Ref(d, t[j], s)
    {
      SameSectorsMeans(d, e, t[j]);
    }
  }
}
