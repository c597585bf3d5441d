/** Directories as slots of entries, and the tree they make: what creating and
    deleting entries keeps, what a path leads to, and the walk upward. */
module DirTree {
  import opened Bytes
  import opened Numbers

  type Name = seq<byte>

  const SLASH: byte := 47
  const DOT: Name := [46]
  const DOTDOT: Name := [46, 46]
  const MAX_FILE_NAME_LEN := 16
  const ENTRY_SIZE := 24
  const ENTRIES := 21  // BLOCK_SIZE / sizeof(struct dir_entry)

  /** enum file_types */
  datatype Kind = Unknown | Regular | Directory

  datatype Slot = Slot(name: Name, no: nat, kind: Kind)

  const FREE := Slot([], 0, Unknown)

  /** A directory: the entries of its one block, and i_size. */
  datatype Dir = Dir(slots: seq<Slot>, size: nat)

  /** The directories by inode number, the regular files, and for the sake of the
      invariant the directory each one lies in and how far below the root it is. */
  datatype Tree = Tree(dirs: map<nat, Dir>, files: set<nat>, up: map<nat, nat>, depth: map<nat, nat>)

  predicate GoodName(n: Name) {
    1 <= |n| < MAX_FILE_NAME_LEN && 0 !in n && SLASH !in n
  }

  /** A name an entry other than the first two can bear. */
  predicate EntryName(n: Name) {
    GoodName(n) && n != DOT && n != DOTDOT
  }

  // ---- scanning the slots ----

  /** What a scan looks for: an inode number, a name, or a free slot. */
  datatype Sought = Numbered(no: nat) | Named(name: Name) | Vacant

  predicate Matches(s: Slot, k: Sought) {
    match k
    case Numbered(no) => s.no == no
    case Named(name) => s.name == name
    case Vacant => s.kind == Unknown
  }

  /** The first slot from `i` on that is the one sought, |slots| if none is. */
  function Find(slots: seq<Slot>, k: Sought, i: nat): (r: nat)
    requires i <= |slots|
    ensures i <= r <= |slots|
    ensures r < |slots| ==> Matches(slots[r], k)
    ensures forall j: nat :: i <= j < r ==> !Matches(slots[j], k)
    decreases |slots| - i
  {
    if i == |slots| || Matches(slots[i], k) then i else Find(slots, k, i + 1)
  }

  function FindNo(slots: seq<Slot>, no: nat, i: nat): nat
    requires i <= |slots|
  {
    Find(slots, Numbered(no), i)
  }

  function FindName(slots: seq<Slot>, name: Name, i: nat): nat
    requires i <= |slots|
  {
    Find(slots, Named(name), i)
  }

  function FindFree(slots: seq<Slot>, i: nat): nat
    requires i <= |slots|
  {
    Find(slots, Vacant, i)
  }

  // ---- the invariant ----

  ghost predicate EntryOk(t: Tree, d: nat, s: Slot) {
    && EntryName(s.name) && s.no != 0
    && ((s.kind == Directory && s.no in t.dirs) || (s.kind == Regular && s.no in t.files))
    && s.no in t.up && t.up[s.no] == d
  }

  /** Every live entry lies below i_size, which stays within the one block. */
  predicate BelowSize(dir: Dir) {
    && |dir.slots| == ENTRIES
    && 2 * ENTRY_SIZE <= dir.size <= ENTRIES * ENTRY_SIZE && dir.size % ENTRY_SIZE == 0
    && forall i: nat :: i < ENTRIES && dir.slots[i] != FREE ==> ENTRY_SIZE * (i + 1) <= dir.size
  }

  /** No two entries beyond the first two share a name or an inode number. */
  predicate Distinct(slots: seq<Slot>) {
    forall i: nat, j: nat :: 2 <= i < j < |slots| && slots[i] != FREE && slots[j] != FREE ==>
      slots[i].name != slots[j].name && slots[i].no != slots[j].no
  }

  ghost predicate DirOk(t: Tree, d: nat) {
    && d in t.dirs && d in t.up && |t.dirs[d].slots| == ENTRIES
    && BelowSize(t.dirs[d]) && Distinct(t.dirs[d].slots)
    && t.dirs[d].slots[0] == Slot(DOT, d, Directory)
    && t.dirs[d].slots[1] == Slot(DOTDOT, t.up[d], Directory)
    && (forall i: nat :: 2 <= i < ENTRIES ==> t.dirs[d].slots[i] == FREE || EntryOk(t, d, t.dirs[d].slots[i]))
  }

  /** Where a file or directory is: the one place it is listed, a step further from the root. */
  ghost predicate PlaceOk(t: Tree, c: nat) {
    && c in t.up && t.up[c] in t.dirs
    && (c == 0 ==> t.up[c] == 0)
    && (c != 0 ==> ListedIn(t.dirs[t.up[c]].slots, c))
    && (c != 0 && c in t.dirs ==> c in t.depth && t.up[c] in t.depth && t.depth[c] == t.depth[t.up[c]] + 1)
  }

  predicate ListedIn(slots: seq<Slot>, c: nat) {
    exists i: nat :: 2 <= i < |slots| && slots[i].no == c && slots[i] != FREE
  }

  ghost predicate KeysOk(t: Tree) {
    0 in t.dirs && t.dirs.Keys !! t.files && t.up.Keys == t.dirs.Keys + t.files && t.depth.Keys == t.dirs.Keys
  }

  /** A tree rooted at 0: each directory's ".." is the one directory that lists it, one
      step nearer the root, and each file is listed once. */
  ghost predicate TreeOk(t: Tree) {
    && KeysOk(t)
    && (forall d: nat {:trigger DirOk(t, d)} :: d in t.dirs ==> DirOk(t, d))
    && (forall c: nat {:trigger PlaceOk(t, c)} :: c in t.up ==> PlaceOk(t, c))
  }

  /** What formatting leaves: the root with its first two entries. */
  function NewDir(d: nat, parent: nat): Dir {
    Dir([Slot(DOT, d, Directory), Slot(DOTDOT, parent, Directory)] + seq(ENTRIES - 2, _ => FREE), 2 * ENTRY_SIZE)
  }

  function EmptyTree(): Tree {
    Tree(map[0 := NewDir(0, 0)], {}, map[0 := 0], map[0 := 0])
  }

  lemma NewDirOk(t: Tree, d: nat)
    requires d in t.dirs && d in t.up && t.dirs[d] == NewDir(d, t.up[d])
    ensures DirOk(t, d)
  {
    hide EntryOk;
    var slots := NewDir(d, t.up[d]).slots;
    assert slots[0] == Slot(DOT, d, Directory) && slots[1] == Slot(DOTDOT, t.up[d], Directory);
    assert forall i: nat :: 2 <= i < ENTRIES ==> slots[i] == FREE;
  }

  /** Formatting makes a tree of the root alone. */
  lemma EmptyTreeOk()
    ensures TreeOk(EmptyTree())
  {
    hide DirOk, NewDir;
    NewDirOk(EmptyTree(), 0);
  }

  // ---- creating and deleting entries ----

  /** create_dir_entry: the first free slot, if there is one. */
  function AddEntry(dir: Dir, s: Slot): Dir {
    var i := FindFree(dir.slots, 0);
    if i == |dir.slots| then dir else Dir(dir.slots[i := s], Max(dir.size, ENTRY_SIZE * (i + 1)))
  }

  /** delete_dir_entry: the first slot with that inode number is cleared. */
  function DropEntry(dir: Dir, no: nat): Dir {
    var i := FindNo(dir.slots, no, 0);
    if i == |dir.slots| then dir else Dir(dir.slots[i := FREE], if ENTRY_SIZE * i + ENTRY_SIZE >= dir.size then ENTRY_SIZE * i else dir.size)
  }

  /** The entry is in the first vacant place. The size grows to the end of that place if it lies
      beyond the size, and stays otherwise. */
  ghost predicate EnteredAt(dir: Dir, dir': Dir, s: Slot, i: nat) {
    && i < |dir.slots| && dir.slots[i].kind == Unknown && (forall j: nat :: j < i ==> dir.slots[j].kind != Unknown)
    && |dir'.slots| == |dir.slots| && dir'.slots[i] == s && (forall j: nat :: j < |dir.slots| && j != i ==> dir'.slots[j] == dir.slots[j])
    && (ENTRY_SIZE * (i + 1) <= dir.size ==> dir'.size == dir.size)
    && (ENTRY_SIZE * (i + 1) > dir.size ==> dir'.size == ENTRY_SIZE * (i + 1))
  }

  /** The first place with that number is vacant. The size shrinks to that place if the size
      ended with it, or before it, and stays otherwise. */
  ghost predicate ClearedAt(dir: Dir, dir': Dir, no: nat, i: nat) {
    && i < |dir.slots| && dir.slots[i].no == no && (forall j: nat :: j < i ==> dir.slots[j].no != no)
    && |dir'.slots| == |dir.slots| && dir'.slots[i] == FREE && (forall j: nat :: j < |dir.slots| && j != i ==> dir'.slots[j] == dir.slots[j])
    && (ENTRY_SIZE * (i + 1) < dir.size ==> dir'.size == dir.size)
    && (ENTRY_SIZE * (i + 1) >= dir.size ==> dir'.size == ENTRY_SIZE * i)
  }

  lemma AddMeans(dir: Dir, s: Slot)
    ensures FindFree(dir.slots, 0) == |dir.slots| ==> AddEntry(dir, s) == dir && forall j: nat :: j < |dir.slots| ==> dir.slots[j].kind != Unknown
    ensures FindFree(dir.slots, 0) < |dir.slots| ==> EnteredAt(dir, AddEntry(dir, s), s, FindFree(dir.slots, 0))
  {
    assert forall j: nat :: j < FindFree(dir.slots, 0) ==> !Matches(dir.slots[j], Vacant);
  }

  lemma DropMeans(dir: Dir, no: nat)
    ensures FindNo(dir.slots, no, 0) == |dir.slots| ==> DropEntry(dir, no) == dir && forall j: nat :: j < |dir.slots| ==> dir.slots[j].no != no
    ensures FindNo(dir.slots, no, 0) < |dir.slots| ==> ClearedAt(dir, DropEntry(dir, no), no, FindNo(dir.slots, no, 0))
  {
    assert forall j: nat :: j < FindNo(dir.slots, no, 0) ==> !Matches(dir.slots[j], Numbered(no));
  }

  function TreeAdd(t: Tree, d: nat, s: Slot): Tree
    requires d in t.dirs && d in t.depth
  {
    var dirs := t.dirs[d := AddEntry(t.dirs[d], s)];
    if s.kind == Directory then
      Tree(dirs[s.no := NewDir(s.no, d)], t.files, t.up[s.no := d], t.depth[s.no := t.depth[d] + 1])
    else
      Tree(dirs, t.files + {s.no}, t.up[s.no := d], t.depth)
  }

  function TreeDrop(t: Tree, d: nat, no: nat): Tree
    requires d in t.dirs
  {
    var dirs := t.dirs[d := DropEntry(t.dirs[d], no)];
    Tree(dirs - {no}, t.files - {no}, t.up - {no}, t.depth - {no})
  }

  /** A file or directory that is not in the tree, under a name that is not in the
      directory, and a free slot for it. */
  ghost predicate CanAdd(t: Tree, d: nat, s: Slot) {
    && TreeOk(t) && d in t.dirs && FindFree(t.dirs[d].slots, 0) < |t.dirs[d].slots| == ENTRIES
    && s.kind != Unknown && EntryName(s.name) && s.no != 0 && s.no !in t.up
    && FindName(t.dirs[d].slots, s.name, 0) == ENTRIES
  }

  lemma AddEntryKeeps(dir: Dir, s: Slot)
    requires BelowSize(dir) && Distinct(dir.slots) && dir.slots[0].kind != Unknown && dir.slots[1].kind != Unknown
    requires FindFree(dir.slots, 0) < ENTRIES && FindName(dir.slots, s.name, 0) == ENTRIES
    requires forall i: nat :: i < ENTRIES ==> dir.slots[i].no != s.no
    ensures BelowSize(AddEntry(dir, s)) && Distinct(AddEntry(dir, s).slots)
    ensures 2 <= FindFree(dir.slots, 0)
  {
    var i := FindFree(dir.slots, 0);
    var slots' := dir.slots[i := s];
    assert forall j: nat :: j < ENTRIES && j != i ==> slots'[j] == dir.slots[j];
  }

  lemma AddKeepsDir(t: Tree, d: nat, s: Slot, x: nat)
    requires CanAdd(t, d, s) && x in t.dirs
    ensures DirOk(TreeAdd(t, d, s), x)
  {
    hide AddEntry, EntryName, Distinct, BelowSize;
    var t' := TreeAdd(t, d, s);
    assert DirOk(t, x);
    forall j: nat | 2 <= j < ENTRIES
      ensures t.dirs[x].slots[j] == FREE || EntryOk(t', x, t.dirs[x].slots[j])
      ensures t.dirs[x].slots[j].no != s.no
    {
      assert t.dirs[x].slots[j] == FREE || EntryOk(t, x, t.dirs[x].slots[j]);
    }
    if x == d {
      AddKeepsThatDir(t, d, s, t');
    }
  }

  lemma AddKeepsThatDir(t: Tree, d: nat, s: Slot, t': Tree)
    requires CanAdd(t, d, s) && t' == TreeAdd(t, d, s)
    requires forall j: nat :: 2 <= j < ENTRIES ==> t.dirs[d].slots[j] == FREE || EntryOk(t', d, t.dirs[d].slots[j])
    requires forall j: nat :: 2 <= j < ENTRIES ==> t.dirs[d].slots[j].no != s.no
    ensures DirOk(t', d)
  {
    hide EntryName, Distinct, BelowSize;
    assert DirOk(t, d) && PlaceOk(t, d);
    var dir := t.dirs[d];
    assert dir.slots[0].no != s.no && dir.slots[1].no != s.no;
    AddEntryKeeps(dir, s) by {
      assert |dir.slots| == ENTRIES;
    }
    assert EntryOk(t', d, s);
  }

  lemma AddKeepsPlace(t: Tree, d: nat, s: Slot, c: nat)
    requires CanAdd(t, d, s) && c in TreeAdd(t, d, s).up
    ensures PlaceOk(TreeAdd(t, d, s), c)
  {
    hide EntryName, Distinct, BelowSize;
    var t' := TreeAdd(t, d, s);
    assert DirOk(t, d) && PlaceOk(t, d);
    var i := FindFree(t.dirs[d].slots, 0);
    assert 2 <= i && t'.dirs[d].slots[i] == s;
    if c in t.up {
      assert PlaceOk(t, c) && DirOk(t, t.up[c]);
      if c != 0 {
        var slots := t.dirs[t.up[c]].slots;
        var j: nat :| 2 <= j < |slots| && slots[j].no == c && slots[j] != FREE;
        assert EntryOk(t, t.up[c], slots[j]);
        assert t'.dirs[t'.up[c]].slots[j] == slots[j];
      }
    }
  }

  /** A new entry for a new file or directory makes a tree again. */
  lemma AddKeepsTree(t: Tree, d: nat, s: Slot)
    requires CanAdd(t, d, s)
    ensures TreeOk(TreeAdd(t, d, s))
  {
    hide DirOk, PlaceOk, AddEntry, EntryName, NewDir;
    var t' := TreeAdd(t, d, s);
    forall x: nat | x in t'.dirs
      ensures DirOk(t', x)
    {
      if x in t.dirs {
        AddKeepsDir(t, d, s, x);
      } else {
        NewDirOk(t', x);
      }
    }
    forall c: nat | c in t'.up
      ensures PlaceOk(t', c)
    {
      AddKeepsPlace(t, d, s, c);
    }
  }

  /** What can be taken out: a file, or a directory with nothing but its first two entries. */
  ghost predicate CanDrop(t: Tree, d: nat, no: nat) {
    && TreeOk(t) && d in t.dirs && no in t.up && no != 0 && t.up[no] == d
    && (no in t.dirs ==> forall i: nat :: 2 <= i < |t.dirs[no].slots| ==> t.dirs[no].slots[i] == FREE)
  }

  /** The scan for an inode number does not stop at the first two entries: neither the
      directory itself nor its parent is ever the one to be taken out. */
  lemma DropIndex(t: Tree, d: nat, no: nat)
    requires TreeOk(t) && d in t.dirs && no in t.up && no != 0 && t.up[no] == d
    ensures var slots := t.dirs[d].slots;
            var i := FindNo(slots, no, 0);
            && |slots| == ENTRIES && 2 <= i < ENTRIES && slots[i] != FREE && EntryOk(t, d, slots[i])
            && (forall j: nat :: 2 <= j < ENTRIES && j != i && slots[j] != FREE ==> slots[j].no != no)
            && no != d && no != t.up[d]
  {
    assert DirOk(t, d) && PlaceOk(t, d) && PlaceOk(t, no) && PlaceOk(t, t.up[d]);
    var slots := t.dirs[d].slots;
    var i := FindNo(slots, no, 0);
    var j: nat :| 2 <= j < |slots| && slots[j].no == no && slots[j] != FREE;
    assert EntryOk(t, d, slots[j]);
  }

  lemma DropEntryKeeps(dir: Dir, no: nat)
    requires BelowSize(dir) && Distinct(dir.slots) && 2 <= FindNo(dir.slots, no, 0) < ENTRIES
    requires dir.slots[0] != FREE && dir.slots[1] != FREE && dir.slots[FindNo(dir.slots, no, 0)] != FREE
    requires forall j: nat :: 2 <= j < ENTRIES && j != FindNo(dir.slots, no, 0) && dir.slots[j] != FREE ==> dir.slots[j].no != no
    ensures BelowSize(DropEntry(dir, no)) && Distinct(DropEntry(dir, no).slots)
  {
    var i := FindNo(dir.slots, no, 0);
    var slots' := dir.slots[i := FREE];
    assert forall j: nat :: j < ENTRIES && j != i ==> slots'[j] == dir.slots[j];
  }

  lemma DropKeepsDir(t: Tree, d: nat, no: nat, x: nat)
    requires CanDrop(t, d, no) && x in t.dirs && x != no
    ensures DirOk(TreeDrop(t, d, no), x)
  {
    hide EntryName, Distinct, BelowSize, DropEntry;
    DropIndex(t, d, no);
    var t' := TreeDrop(t, d, no);
    assert DirOk(t, x) && DirOk(t, d);
    assert no != t.up[x] by {
      NotAbove(t, d, no, x);
    }
    forall j: nat | 2 <= j < ENTRIES && t.dirs[x].slots[j] != FREE && t.dirs[x].slots[j].no != no
      ensures EntryOk(t', x, t.dirs[x].slots[j])
    {
      assert EntryOk(t, x, t.dirs[x].slots[j]);
    }
    if x == d {
      DropEntryKeeps(t.dirs[d], no);
      DropSlots(t.dirs[d], no);
    } else {
      forall j: nat | 2 <= j < ENTRIES && t.dirs[x].slots[j] != FREE
        ensures t.dirs[x].slots[j].no != no
      {
        assert EntryOk(t, x, t.dirs[x].slots[j]);
      }
    }
  }

  lemma DropSlots(dir: Dir, no: nat)
    requires |dir.slots| == ENTRIES && FindNo(dir.slots, no, 0) < ENTRIES
    ensures |DropEntry(dir, no).slots| == ENTRIES
    ensures forall j: nat :: j < ENTRIES ==> DropEntry(dir, no).slots[j] == if j == FindNo(dir.slots, no, 0) then FREE else dir.slots[j]
  {
  }

  /** Nothing lies in what is taken out. */
  lemma NotAbove(t: Tree, d: nat, no: nat, x: nat)
    requires CanDrop(t, d, no) && x in t.up && x != no
    ensures t.up[x] != no
  {
    assert PlaceOk(t, x);
  }

  lemma DropKeepsPlace(t: Tree, d: nat, no: nat, c: nat)
    requires CanDrop(t, d, no) && c in t.up && c != no
    ensures PlaceOk(TreeDrop(t, d, no), c)
  {
    hide EntryName, Distinct, BelowSize, DropEntry, EntryOk;
    DropIndex(t, d, no);
    NotAbove(t, d, no, c);
    DropSlots(t.dirs[d], no);
    var t' := TreeDrop(t, d, no);
    assert PlaceOk(t, c);
    if c != 0 {
      var slots := t.dirs[t.up[c]].slots;
      var j: nat :| 2 <= j < |slots| && slots[j].no == c && slots[j] != FREE;
      assert t'.dirs[t'.up[c]].slots[j] == slots[j];
    }
  }

  /** Taking out a file or an empty directory leaves a tree. */
  lemma DropKeepsTree(t: Tree, d: nat, no: nat)
    requires CanDrop(t, d, no)
    ensures FindNo(t.dirs[d].slots, no, 0) < |t.dirs[d].slots| == ENTRIES
    ensures TreeOk(TreeDrop(t, d, no))
  {
    hide DirOk, PlaceOk, DropEntry, EntryName;
    DropIndex(t, d, no);
    var t' := TreeDrop(t, d, no);
    forall x: nat | x in t'.dirs
      ensures DirOk(t', x)
    {
      DropKeepsDir(t, d, no, x);
    }
    forall c: nat | c in t'.up
      ensures PlaceOk(t', c)
    {
      DropKeepsPlace(t, d, no, c);
    }
  }

  // ---- when a directory looks empty ----

  /** dir_is_empty goes by the size alone. When it says so the directory is empty. */
  lemma SizeMeansEmpty(t: Tree, d: nat)
    requires TreeOk(t) && d in t.dirs && t.dirs[d].size == 2 * ENTRY_SIZE
    ensures |t.dirs[d].slots| == ENTRIES && forall i: nat :: 2 <= i < ENTRIES ==> t.dirs[d].slots[i] == FREE
  {
    assert DirOk(t, d);
  }

  /** An entry that is made and taken out again leaves no trace exactly when the first vacant
      place, which it takes, is not the last one below the size. */
  lemma AddThenDrop(t: Tree, d: nat, s: Slot)
    requires CanAdd(t, d, s)
    ensures var dir := t.dirs[d];
            DropEntry(AddEntry(dir, s), s.no) == dir <==> ENTRY_SIZE * (FindFree(dir.slots, 0) + 1) != dir.size
  {
    hide EntryName, Distinct;
    var dir := t.dirs[d];
    assert DirOk(t, d) && PlaceOk(t, d);
    forall j: nat | j < ENTRIES
      ensures dir.slots[j].no != s.no
      ensures dir.slots[j].kind == Unknown ==> dir.slots[j] == FREE
    {
      assert 2 <= j ==> dir.slots[j] == FREE || EntryOk(t, d, dir.slots[j]);
    }
    AddDropped(dir, s);
  }

  lemma AddDropped(dir: Dir, s: Slot)
    requires BelowSize(dir) && FindFree(dir.slots, 0) < ENTRIES
    requires forall j: nat :: j < ENTRIES ==> dir.slots[j].no != s.no && (dir.slots[j].kind == Unknown ==> dir.slots[j] == FREE)
    ensures DropEntry(AddEntry(dir, s), s.no) == dir <==> ENTRY_SIZE * (FindFree(dir.slots, 0) + 1) != dir.size
  {
    var i, dir1 := FindFree(dir.slots, 0), AddEntry(dir, s);
    AddMeans(dir, s);
    DropMeans(dir1, s.no);
    assert dir1.slots[i].no == s.no;
    assert DropEntry(dir1, s.no).slots == dir.slots;
    if dir.size < ENTRIES * ENTRY_SIZE {
      assert dir.slots[dir.size / ENTRY_SIZE] == FREE;
    }
  }

  /** Taken out and made again it leaves none exactly when no place before it was vacant. */
  lemma DropThenAdd(t: Tree, d: nat, no: nat)
    requires CanDrop(t, d, no)
    ensures var dir, i := t.dirs[d], FindNo(t.dirs[d].slots, no, 0);
            && i < |dir.slots|
            && (AddEntry(DropEntry(dir, no), dir.slots[i]) == dir <==> forall j: nat :: j < i ==> dir.slots[j].kind != Unknown)
  {
    var dir, i := t.dirs[d], FindNo(t.dirs[d].slots, no, 0);
    DropIndex(t, d, no);
    assert DirOk(t, d);
    DropMeans(dir, no);
    var dir1 := DropEntry(dir, no);
    AddMeans(dir1, dir.slots[i]);
    assert dir1.slots[i] == FREE;
    if FindFree(dir1.slots, 0) == i {
      assert AddEntry(dir1, dir.slots[i]).slots == dir.slots;
    } else {
      assert AddEntry(dir1, dir.slots[i]).slots[i] == FREE;
    }
  }

  /** Beyond "." and ".." the directory lists nothing, or nothing but `no`. */
  predicate ListsOnly(dir: Dir, no: nat) {
    |dir.slots| == ENTRIES && forall i: nat :: 2 <= i < ENTRIES && dir.slots[i] != FREE ==> dir.slots[i].no == no
  }

  /** The converse fails. A directory whose last entry is taken out is empty, and its size says
      so exactly when that entry was the first after ".." and the size was that of three entries. */
  lemma LastDropped(t: Tree, d: nat, no: nat)
    requires CanDrop(t, d, no) && ListsOnly(t.dirs[d], no)
    ensures var dir := t.dirs[d];
            var dir' := DropEntry(dir, no);
            && |dir'.slots| == ENTRIES && (forall i: nat :: 2 <= i < ENTRIES ==> dir'.slots[i] == FREE)
            && (dir'.size == 2 * ENTRY_SIZE <==> FindNo(dir.slots, no, 0) == 2 && dir.size == 3 * ENTRY_SIZE)
  {
    DropIndex(t, d, no);
    DropSlots(t.dirs[d], no);
    assert DirOk(t, d);
  }

  /** For one: of two entries the first is taken out, then the second, and the size stays at the
      slot of the second. */
  lemma EmptyButTooLong(a: Slot, b: Slot)
    requires a.kind != Unknown && b.kind != Unknown && a.no > 1 && b.no > 1 && a.no != b.no
    ensures var r0 := NewDir(1, 0);
            var r4 := DropEntry(DropEntry(AddEntry(AddEntry(r0, a), b), a.no), b.no);
            r4.slots == r0.slots && r4.size == 3 * ENTRY_SIZE
  {
    var r0 := NewDir(1, 0);
    assert r0.slots[0].kind == Directory && r0.slots[1].kind == Directory && r0.slots[2] == FREE && r0.slots[3] == FREE;
    assert FindFree(r0.slots, 0) == FindFree(r0.slots, 1) == FindFree(r0.slots, 2) == 2;
    var r1 := AddEntry(r0, a);
    assert FindFree(r1.slots, 0) == FindFree(r1.slots, 1) == FindFree(r1.slots, 2) == FindFree(r1.slots, 3) == 3;
    var r2 := AddEntry(r1, b);
    assert FindNo(r2.slots, a.no, 0) == FindNo(r2.slots, a.no, 1) == FindNo(r2.slots, a.no, 2) == 2;
    var r3 := DropEntry(r2, a.no);
    assert FindNo(r3.slots, b.no, 0) == FindNo(r3.slots, b.no, 1) == FindNo(r3.slots, b.no, 2) == FindNo(r3.slots, b.no, 3) == 3;
  }
}
