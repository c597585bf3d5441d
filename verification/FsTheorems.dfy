/** What the calls of the file system come to together. */
module FsTheorems {
  // A directory one has changed to says its own path, a file that was created is found, a run
  // that was written reads back, and what unlinking gives back to the block map.

  import opened Bytes
  import opened Inodes
  import opened Numbers
  import opened Volumes
  import opened LinkSteps
  import opened FileIo
  import opened FsSteps
  import opened FsState
  import opened FsCalls
  import opened DirTree
  import opened PathText
  import opened PathWalk
  import opened PathSearch

  /** sys_chdir to a washed path and then sys_getcwd: Chdir leaves the number the search
      found, Getcwd renders the path of that number, and that is the path again. */
  lemma ChdirThenGetcwd(t: Tree, p: Text, d: nat)
    requires TreeOk(t) && Clean(p) && p == WashText(p)
    requires Search(t, p).kind == Directory && Search(t, p).no == d
    ensures d in t.dirs && Render(PathOf(t, d)) == p
  {
    hide TreeOk, Search;
    WashTwice(p);
    var c := Components(p);
    WashedNames([], c);
    ComponentsOfRender(Wash([], c));
    FindsByPath(t, c, d);
  }

  /** And every directory is reached so, by the path sys_getcwd gives. */
  lemma GetcwdThenChdir(t: Tree, d: nat)
    requires TreeOk(t) && d in t.dirs
    ensures Search(t, Render(PathOf(t, d))).kind == Directory && Search(t, Render(PathOf(t, d))).no == d
    ensures WashText(Render(PathOf(t, d))) == Render(PathOf(t, d))
  {
    hide TreeOk, Search;
    PathLeadsTo(t, d);
    var c := PathOf(t, d);
    FindsByPath(t, c, d);
    ComponentsOfRender(c);
    WashOfWashed([], c);
    assert [] + c == c;
  }

  /** What the shell makes of a relative path names the directory the path leads to from the
      current one, by the path sys_getcwd would give there. */
  lemma ClearPathLeads(t: Tree, d: nat, path: Text, x: nat)
    requires TreeOk(t) && d in t.dirs && Clean(path) && (path == [] || path[0] != SLASH)
    requires Walk(t, d, Components(path)) == Some(x)
    ensures x in t.dirs && WashText(AbsText(Render(PathOf(t, d)), path)) == Render(PathOf(t, x))
  {
    hide TreeOk, GoodName;
    var c, more := PathOf(t, d), Components(path);
    PathLeadsTo(t, d);
    NamesGood(c);
    ComponentsOfAbs(c, path);
    WashAfter([], c, more);
    WashOfWashed([], c);
    assert [] + c == c;
    WashedNames(c, more);
    WashKeepsPlaceFrom(t, c, d, more, x);
    OnlyPath(t, Wash(c, more), x);
  }

  /** Of an absolute path it makes the path of the directory that leads to from the root,
      whatever the current directory is. */
  lemma AbsolutePathLeads(t: Tree, cwd: Text, path: Text, x: nat)
    requires TreeOk(t) && Clean(path) && path != [] && path[0] == SLASH
    requires Walk(t, 0, Components(path)) == Some(x)
    ensures x in t.dirs && WashText(AbsText(cwd, path)) == Render(PathOf(t, x))
  {
    hide TreeOk, GoodName, Walk, Components, Wash;
    WashKeepsPlace(t, Components(path), x);
    WashedNames([], Components(path));
    OnlyPath(t, Wash([], Components(path)), x);
  }

  /** Washing goes component by component. */
  lemma {:induction false} WashAfter(stack: seq<Name>, c: seq<Name>, more: seq<Name>)
    ensures Wash(stack, c + more) == Wash(Wash(stack, c), more)
    decreases |c|
  {
    if c == [] {
      assert c + more == more;
    } else {
      assert (c + more)[1..] == c[1..] + more;
      WashAfter(Push(stack, c[0]), c[1..], more);
    }
  }

  /** A run that was written is what a read from the same position gives. */
  lemma WriteThenRead(c: seq<byte>, c': seq<byte>, p: nat, p': nat, buf: seq<byte>, count: nat, r: nat, free: nat, free': nat)
    requires WriteDone(c, c', p, p', buf, count, r, false, free, free')
    ensures r <= count <= |buf| && From(c', p, r) == buf[..r]
    ensures p <= |c'| && c'[..p] == c[..p] && (p + r <= |c| ==> p + r <= |c'| && c'[p + r..] == c[p + r..])
    ensures r < count ==> p + r == MAX_FILE_SIZE
  {
    var m := Min(count, MAX_FILE_SIZE - p);
    OverwriteReads(c, p, buf[..m]);
  }

  // ---- creating ----

  lemma FindNameIs(slots: seq<Slot>, n: Name, k: nat, i: nat)
    requires k <= i < |slots| && slots[i].name == n && forall j: nat :: k <= j < i ==> slots[j].name != n
    ensures FindName(slots, n, k) == i
  {
  }

  /** What was found in a tree is found still when something is added to it. */
  lemma LookupKept(t: Tree, p: nat, s: Slot, d: nat, n: Name)
    requires CanAdd(t, p, s) && p in t.depth && d in t.dirs && n != [] && Lookup(t, d, n).Some?
    ensures d in TreeAdd(t, p, s).dirs && Lookup(TreeAdd(t, p, s), d, n) == Lookup(t, d, n)
  {
    hide DirOk, PlaceOk, EntryName;
    DirSlots(t, d);
    if d == p {
      var slots := t.dirs[d].slots;
      var f, i := FindFree(slots, 0), FindName(slots, n, 0);
      assert slots[f] == FREE;
      FindNameIs(slots[f := s], n, 0, i);
    }
  }

  lemma NewIsThere(t: Tree, p: nat, s: Slot)
    requires CanAdd(t, p, s) && p in t.depth
    ensures p in TreeAdd(t, p, s).dirs && Lookup(TreeAdd(t, p, s), p, s.name) == Some(s)
  {
    hide DirOk, PlaceOk, EntryName;
    DirSlots(t, p);
    var slots := t.dirs[p].slots;
    FindNameIs(slots[FindFree(slots, 0) := s], s.name, 0, FindFree(slots, 0));
  }

  lemma {:induction false} WalkKept(t: Tree, p: nat, s: Slot, d: nat, c: seq<Name>)
    requires CanAdd(t, p, s) && p in t.depth && GoodNames(c) && Walk(t, d, c).Some?
    ensures Walk(TreeAdd(t, p, s), d, c) == Walk(t, d, c)
    decreases |c|
  {
    hide TreeOk, Lookup, CanAdd, TreeAdd;
    if c != [] {
      assert GoodName(c[0]);
      LookupKept(t, p, s, d, c[0]);
      WalkKept(t, p, s, Step(t, d, c[0]).value, c[1..]);
    }
  }

  /** Where a search by a plain path stopped: after a run of its components, in the
      directory the run but for its last leads to. */
  lemma {:induction false} StoppedAt(t: Tree, d: nat, c: seq<Name>, names: seq<Name>, via: seq<nat>)
    requires TreeOk(t) && d in t.dirs && d == At(ParentOf(via)) && GoodNames(c) && c != []
    ensures var o := SearchFrom(t, d, Join(c), names, via);
            && |names| < |o.names| <= |names| + |c| && o.names == names + c[..|o.names| - |names|]
            && (o.parent != NoDir ==> Walk(t, d, c[..|o.names| - |names| - 1]) == Some(At(o.parent)))
    decreases |c|
  {
    hide TreeOk, NameOf, RestOf, Lookup, Components;
    FirstOfJoin(c);
    FoundIsSubdir(t, d, c[0]);
    assert c[..1] == [c[0]] && c[..0] == [];
    if |c| > 1 {
      match Lookup(t, d, c[0])
      case Some(s) =>
        if s.kind == Directory {
          StoppedAt(t, s.no, c[1..], names + [c[0]], via + [s.no]);
          var k := |SearchFrom(t, d, Join(c), names, via).names| - |names|;
          assert c[..k] == [c[0]] + c[1..][..k - 1];
          assert k >= 2 && c[..k - 1][0] == c[0] && c[..k - 1][1..] == c[1..][..k - 2];
        }
      case None =>
    }
  }

  /** create_file and sys_mkdir by a washed path. What was created is found by that path
      exactly when the search had got to its last component, that is when the parent
      exists; create_file goes on without it and enters the missing directory's name. */
  lemma CreatedIsFound(t: Tree, c: seq<Name>, n: nat, kind: Kind)
    requires TreeOk(t) && EntryNames(c) && c != []
    requires Addable(t, Search(t, Render(c)), n, kind)
    ensures var o := Search(t, Render(c));
            var t' := TreeAdd(t, At(o.parent), Slot(o.names[|o.names| - 1], n, kind));
            && TreeOk(t')
            && (Search(t', Render(c)).no == n <==> o.names == c)
            && (o.names == c <==> Walk(t, 0, c[..|c| - 1]).Some?)
  {
    hide TreeOk, Lookup, SearchFrom, TreeAdd, Walk, Components, Special, EntryName, Render;
    var o := Search(t, Render(c));
    var p, s := At(o.parent), Slot(o.names[|o.names| - 1], n, kind);
    var t' := TreeAdd(t, p, s);
    AddKeepsTree(t, p, s);
    WashedSearch(t, c);
    WashedSearch(t', c);
    NamesGood(c);
    StoppedHere(t, c);
    var k := |o.names|;
    WalkKept(t, p, s, 0, c[..k - 1]);
    if k == |c| {
      assert c[..k] == c;
      NewIsThere(t, p, s);
    } else if Search(t', Render(c)).no == n {
      OnlyOneWay(t', c, p, n, c[..k - 1]) by { NewIsThere(t, p, s); NewUp(t, p, s); }
    }
  }

  /** Opening with O_CREAT by a washed path whose parent does not exist: a file bearing the
      first missing name is made, the path leads nowhere still, and open_file fails. */
  lemma StrayFile(t: Tree, c: seq<Name>, n: nat)
    requires TreeOk(t) && EntryNames(c) && c != []
    requires Addable(t, Search(t, Render(c)), n, Regular)
    requires Walk(t, 0, c[..|c| - 1]).None?
    ensures var o := Search(t, Render(c));
            var t' := TreeAdd(t, At(o.parent), Slot(o.names[|o.names| - 1], n, Regular));
            TreeOk(t') && n in t'.files && Search(t', Render(c)).no == -1 && Search(t', Render(c)).parent == NoDir
  {
    hide TreeOk, Lookup, Search, TreeAdd, Walk, Components, EntryName, Render, CanAdd, GoodName;
    var o := Search(t, Render(c));
    var p, s := At(o.parent), Slot(o.names[|o.names| - 1], n, Regular);
    var t' := TreeAdd(t, p, s);
    AddKeepsTree(t, p, s);
    CreatedIsFound(t, c, n, Regular);
    NamesGood(c);
    var k := |o.names|;
    StoppedHere(t, c);
    WalkKept(t, p, s, 0, c[..k - 1]);
    NewIsThere(t, p, s);
    NewFile(t, p, s);
    assert c[..|c| - 1][..k - 1] == c[..k - 1];
    BlockedWalk(t', 0, c[..|c| - 1], k, p, s);
    WashedSearch(t', c);
    EndsAtFile(t', c, k, p, s);
  }

  /** A search by a washed path with a file on the way ends there, and leaves no directory. */
  lemma EndsAtFile(t: Tree, c: seq<Name>, k: nat, p: nat, s: Slot)
    requires TreeOk(t) && EntryNames(c) && 1 <= k < |c| && Walk(t, 0, c[..k - 1]) == Some(p) && p in t.dirs
    requires Lookup(t, p, c[k - 1]) == Some(s) && s.kind == Regular && Search(t, Render(c)).no == -1
    ensures Search(t, Render(c)).parent == NoDir
  {
    hide TreeOk, Lookup, Search, Walk, Components, EntryName, Render, GoodName;
    var o := Search(t, Render(c));
    if o.parent != NoDir {
      var k' := |o.names|;
      StoppedHere(t, c);
      WashedEnd(c);
      MissingName(t, Render(c));
      var x := At(o.parent);
      assert o.names[k' - 1] == c[k' - 1];
      if k' < k {
        assert c[..k - 1][..k'] == c[..k'] && c[..k'] == c[..k' - 1] + [c[k' - 1]];
        WalkPrefix(t, 0, c[..k - 1], k');
        WalkSnoc(t, 0, c[..k' - 1], c[k' - 1]);
      } else if k' > k {
        assert c[..k' - 1][..k - 1] == c[..k - 1];
        BlockedWalk(t, 0, c[..k' - 1], k, p, s);
      }
    }
  }

  lemma WashedEnd(c: seq<Name>)
    requires EntryNames(c) && c != []
    ensures Clean(Render(c)) && Render(c) != [] && Render(c)[|Render(c)| - 1] != SLASH
  {
    NamesGood(c);
    CleanJoin(c);
    NoStraySlash(c);
    RenderIsJoin(c);
  }

  lemma StoppedHere(t: Tree, c: seq<Name>)
    requires TreeOk(t) && EntryNames(c) && c != []
    ensures var o := Search(t, Render(c));
            && 1 <= |o.names| <= |c| && o.names == c[..|o.names|] && (o.names != c ==> |o.names| < |c|)
            && (o.parent != NoDir ==> Walk(t, 0, c[..|o.names| - 1]) == Some(At(o.parent)))
  {
    hide TreeOk, Walk, Lookup, SearchFrom, EntryName, Render;
    NamesGood(c);
    RootThere(t);
    RenderIsJoin(c);
    StoppedAt(t, 0, c, [], []);
    var o := Search(t, Render(c));
    assert [] + c[..|o.names|] == c[..|o.names|];
    assert c[..|c|] == c;
  }

  lemma NewFile(t: Tree, p: nat, s: Slot)
    requires CanAdd(t, p, s) && p in t.depth && s.kind == Regular
    ensures s.no in TreeAdd(t, p, s).files
  {
  }

  /** A file on the way ends the walk. */
  lemma BlockedWalk(t: Tree, d: nat, c: seq<Name>, k: nat, p: nat, s: Slot)
    requires 1 <= k <= |c| && Walk(t, d, c[..k - 1]) == Some(p) && p in t.dirs
    requires Lookup(t, p, c[k - 1]) == Some(s) && s.kind == Regular
    ensures Walk(t, d, c) == None
  {
    hide Lookup;
    assert c[..k] == c[..k - 1] + [c[k - 1]];
    WalkSnoc(t, d, c[..k - 1], c[k - 1]);
    assert Step(t, p, c[k - 1]) == None;
    if Walk(t, d, c).Some? {
      WalkPrefix(t, d, c, k);
    }
  }

  lemma {:induction false} WalkPrefix(t: Tree, d: nat, c: seq<Name>, k: nat)
    requires k <= |c| && Walk(t, d, c).Some?
    ensures Walk(t, d, c[..k]).Some?
    decreases |c|
  {
    hide Step;
    if k > 0 {
      assert c[..k][1..] == c[1..][..k - 1];
      WalkPrefix(t, Step(t, d, c[0]).value, c[1..], k - 1);
    }
  }

  lemma NamesGood(c: seq<Name>)
    requires EntryNames(c)
    ensures GoodNames(c)
  {
  }

  lemma RenderIsJoin(c: seq<Name>)
    requires EntryNames(c) && c != []
    ensures Render(c) == Join(c) && !Special(Render(c))
  {
    NotSpecial(c);
  }

  lemma NewUp(t: Tree, p: nat, s: Slot)
    requires CanAdd(t, p, s) && p in t.depth
    ensures s.no in TreeAdd(t, p, s).up && TreeAdd(t, p, s).up[s.no] == p
  {
  }

  /** What is found by a washed path lies where the path but for its last name leads. */
  lemma OnlyOneWay(t: Tree, c: seq<Name>, p: nat, n: nat, b: seq<Name>)
    requires TreeOk(t) && EntryNames(c) && c != [] && n in t.up && t.up[n] == p
    requires Search(t, Render(c)).no == n && Walk(t, 0, b) == Some(p) && EntryNames(b)
    ensures |b| == |c| - 1
  {
    hide TreeOk, Lookup, SearchFrom, Walk, Components, Special, Render;
    WashedSearch(t, c);
    var x := Walk(t, 0, c[..|c| - 1]).value;
    NameDescends(t, x, c[|c| - 1]);
    EntryMeans(t, x, Lookup(t, x, c[|c| - 1]).value);
    OnlyPath(t, c[..|c| - 1], p);
    OnlyPath(t, b, p);
  }

  // ---- removing ----

  /** When sys_unlink or sys_rmdir has taken the last entry out of a directory, sys_rmdir takes
      the directory itself exactly when that entry was the first after ".." and the size was that
      of three entries. */
  lemma EmptiedRemovable(t: Tree, p: nat, no: nat)
    requires CanDrop(t, p, no) && ListsOnly(t.dirs[p], no) && p != 0
    ensures var t' := TreeDrop(t, p, no);
            && TreeOk(t') && p in t'.dirs && PathOf(t', p) == PathOf(t, p)
            && (Removable(t', Search(t', Render(PathOf(t, p)))) <==> FindNo(t.dirs[p].slots, no, 0) == 2 && t.dirs[p].size == 3 * ENTRY_SIZE)
  {
    hide TreeOk, Search, EntryName;
    var t' := TreeDrop(t, p, no);
    DropPlaces(t, p, no);
    DropKeepsTree(t, p, no);
    LastDropped(t, p, no);
    PathKept(t, p, no, p);
    PathLeadsTo(t', p);
    FindsByPath(t', PathOf(t', p), p);
  }

  /** The path of whatever stays is what it was. */
  lemma {:induction false} PathKept(t: Tree, p: nat, no: nat, d: nat)
    requires CanDrop(t, p, no) && d in t.dirs && d != no && TreeOk(TreeDrop(t, p, no))
    ensures d in TreeDrop(t, p, no).dirs && PathOf(TreeDrop(t, p, no), d) == PathOf(t, d)
    decreases t.depth[d]
  {
    var t' := TreeDrop(t, p, no);
    assert KeysOk(t) && d in t.up;
    if d != 0 {
      assert PlaceOk(t, d);
      NotAbove(t, p, no, d);
      PathKept(t, p, no, t.up[d]);
      NameKept(t, p, no, d);
    }
  }

  lemma NameKept(t: Tree, p: nat, no: nat, d: nat)
    requires CanDrop(t, p, no) && d in t.up && d != no && d != 0 && t.up[d] in t.dirs && t.up[d] != no
    ensures d in TreeDrop(t, p, no).up && TreeDrop(t, p, no).up[d] == t.up[d] && t.up[d] in TreeDrop(t, p, no).dirs
    ensures NameIn(TreeDrop(t, p, no), d) == NameIn(t, d)
  {
    hide EntryName;
    DropPlaces(t, p, no);
    var slots, slots' := t.dirs[t.up[d]].slots, TreeDrop(t, p, no).dirs[t.up[d]].slots;
    DirSlots(t, t.up[d]);
    if t.up[d] == p {
      DropSlots(t.dirs[p], no);
      FindNoIs(slots', d, 0, FindNo(slots, d, 0));
    }
  }

  lemma FindNoIs(slots: seq<Slot>, no: nat, k: nat, i: nat)
    requires k <= i <= |slots| && (i < |slots| ==> slots[i].no == no) && forall j: nat :: k <= j < i ==> slots[j].no != no
    ensures FindNo(slots, no, k) == i
  {
  }

  /** The path of a directory with "/." at its end names the directory in itself: sys_rmdir by
      it, when the directory looks empty, releases an inode that is listed still. */
  lemma DotNamesItself(t: Tree, d: nat)
    requires TreeOk(t) && d in t.dirs && d != 0
    ensures var o := Search(t, Render(PathOf(t, d)) + ([SLASH] + DOT));
            && o.kind == Directory && o.no == d && At(o.parent) == d && EndsInDot(o)
            && (Removable(t, o) <==> t.dirs[d].size == 2 * ENTRY_SIZE)
  {
    hide TreeOk, Lookup, SearchFrom, Special, Components;
    var c := PathOf(t, d);
    PathLeadsTo(t, d);
    NamesGood(c);
    RenderIsJoin(c);
    JoinSnoc(c, DOT);
    var p, q := Render(c) + ([SLASH] + DOT), c + [DOT];
    assert p == Join(q) == Render(q);
    ComponentsOfRender(q);
    WashedEnd(c);
    if Special(p) {
      OneComponent(p);
    }
    PlainSearch(t, 0, q, [], []);
    DotThere(t, d);
  }

  lemma DotThere(t: Tree, d: nat)
    requires TreeOk(t) && d in t.dirs
    ensures 0 in t.dirs && Lookup(t, d, DOT) == Some(Slot(DOT, d, Directory))
  {
    assert DirOk(t, d);
  }

  lemma {:induction false} ViaAbove(t: Tree, d: nat, c: seq<Name>, names: seq<Name>, via: seq<nat>)
    requires TreeOk(t) && d in t.dirs && d == At(ParentOf(via)) && EntryNames(c) && c != [] && d in t.depth
    requires forall i :: 0 <= i < |via| ==> via[i] in t.depth && t.depth[via[i]] <= t.depth[d]
    ensures var o := SearchFrom(t, d, Join(c), names, via);
            o.no != -1 ==> At(o.parent) in t.depth && forall i :: 0 <= i < |o.via| ==> o.via[i] in t.depth && t.depth[o.via[i]] <= t.depth[At(o.parent)]
    decreases |c|
  {
    hide TreeOk, NameOf, RestOf, Lookup, Components, EntryName;
    NamesGood(c);
    FirstOfJoin(c);
    FoundIsSubdir(t, d, c[0]);
    if |c| > 1 {
      match Lookup(t, d, c[0])
      case Some(s) =>
        if s.kind == Directory {
          Below(t, d, c[0]);
          ViaAbove(t, s.no, c[1..], names + [c[0]], via + [s.no]);
        }
      case None =>
    }
  }

  lemma Below(t: Tree, d: nat, n: Name)
    requires TreeOk(t) && d in t.dirs && EntryName(n) && Lookup(t, d, n).Some? && Lookup(t, d, n).value.kind == Directory
    ensures var x := Lookup(t, d, n).value.no;
            x != 0 && x in t.dirs && x in t.depth && d in t.depth && t.depth[x] == t.depth[d] + 1
  {
    NameDescends(t, d, n);
    assert PlaceOk(t, Lookup(t, d, n).value.no);
  }

  /** By a washed path sys_rmdir opens no handle on the very directory it removes, so that
      all is in order afterwards exactly when no one else had it open. */
  lemma WashedNotHeld(t: Tree, c: seq<Name>)
    requires TreeOk(t) && EntryNames(c) && c != []
    requires Search(t, Render(c)).kind == Directory
    ensures Search(t, Render(c)).no !in Leaked(Search(t, Render(c)))
    ensures var o := Search(t, Render(c)); o.no != 0 && o.names == c && o.names[|o.names| - 1] != DOT
  {
    hide TreeOk, Lookup, SearchFrom, Walk, Components, Special, Render;
    var o := Search(t, Render(c));
    WashedSearch(t, c);
    RenderIsJoin(c);
    RootThere(t);
    NamesGood(c);
    CleanJoin(c);
    FoundDirectory(t, Render(c));
    RootDepth(t);
    ViaAbove(t, 0, c, [], []);
    Below(t, At(o.parent), c[|c| - 1]);
  }

  lemma RootDepth(t: Tree)
    requires TreeOk(t)
    ensures 0 in t.depth
  {
  }

  // ---- what unlinking frees ----

  lemma RefsApart(geo: Geo, d: seq<byte>, table: seq<Inode>, bb: seq<byte>, ib: seq<byte>, k: nat)
    requires geo.Valid() && Links(geo, d, table, bb, ib) && Allocated(ib, k)
    ensures table[k].Valid()
    ensures forall s: nat :: s <= INDEX_SLOT && Ref(d, table[k], s) != 0 ==> Ref(d, table[k], s) >= geo.dataLba
    ensures forall s: nat, u: nat :: s <= INDEX_SLOT && u <= INDEX_SLOT && Ref(d, table[k], s) == Ref(d, table[k], u) != 0 ==> s == u
  {
    hide Ref;
  }

  /** Releasing an inode unmarks the sectors it names itself. Those entered in its index
      block stay marked for good: all of them come back exactly when there are none, that
      is when the file has at most twelve blocks. */
  lemma SectorsLost(geo: Geo, d: seq<byte>, table: seq<Inode>, bb: seq<byte>, ib: seq<byte>, k: nat)
    requires geo.Valid() && Links(geo, d, table, bb, ib) && Allocated(ib, k) && k < |table| && table[k].Valid() && FileOk(d, table[k])
    ensures forall s: nat :: s <= INDEX_SLOT && Ref(d, table[k], s) != 0 ==>
              (Ref(d, table[k], s) - geo.dataLba in OwnBits(geo, table[k], 13) <==> s < DIRECT || s == INDEX_SLOT)
    ensures (forall s: nat :: s <= INDEX_SLOT && Ref(d, table[k], s) != 0 ==> Ref(d, table[k], s) - geo.dataLba in OwnBits(geo, table[k], 13))
              <==> Blocks(table[k].size) <= DIRECT
  {
    hide Ref, Links, OwnBits;
    var i := table[k];
    RefsApart(geo, d, table, bb, ib, k);
    forall n: nat | n < 13
      ensures Ref(d, i, if n == 12 then INDEX_SLOT else n) == i.sectors[n]
    {
      SectorRef(d, i, n);
    }
    forall s: nat | s <= INDEX_SLOT && Ref(d, i, s) != 0
      ensures Ref(d, i, s) - geo.dataLba in OwnBits(geo, i, 13) <==> s < DIRECT || s == INDEX_SLOT
    {
      OwnSlot(geo, d, i, s);
    }
    if Blocks(i.size) > DIRECT {
      assert Ref(d, i, 12) != 0;
    }
  }

  lemma OwnSlot(geo: Geo, d: seq<byte>, i: Inode, s: nat)
    requires i.Valid() && s <= INDEX_SLOT && Ref(d, i, s) >= geo.dataLba && Ref(d, i, s) != 0
    requires forall u: nat :: u <= INDEX_SLOT && Ref(d, i, s) == Ref(d, i, u) ==> s == u
    requires forall n: nat :: n < 13 ==> Ref(d, i, if n == 12 then INDEX_SLOT else n) == i.sectors[n]
    ensures Ref(d, i, s) - geo.dataLba in OwnBits(geo, i, 13) <==> s < DIRECT || s == INDEX_SLOT
  {
    hide Ref;
    if s < DIRECT {
      assert i.sectors[s] == Ref(d, i, s);
    } else if s == INDEX_SLOT {
      assert i.sectors[12] == Ref(d, i, s);
    }
  }
}
