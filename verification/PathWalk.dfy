/** Where paths lead: walking components down the tree, the path a directory has, and
    what washing does to a walk. */
module PathWalk {
  import opened Bytes
  import opened DirTree
  import opened PathText

  datatype Option<T> = None | Some(value: T)

  // ---- one step and many ----

  /** search_dir_entry */
  function Lookup(t: Tree, d: nat, n: Name): Option<Slot>
    requires d in t.dirs
  {
    var slots := t.dirs[d].slots;
    var i := FindName(slots, n, 0);
    if i < |slots| then Some(slots[i]) else None
  }

  function Step(t: Tree, d: nat, n: Name): Option<nat> {
    if d !in t.dirs then None
    else match Lookup(t, d, n)
      case Some(s) => if s.kind == Directory then Some(s.no) else None
      case None => None
  }

  /** The directory the components lead to from `d`, each of them a directory. */
  function Walk(t: Tree, d: nat, c: seq<Name>): Option<nat>
    decreases |c|
  {
    if c == [] then Some(d)
    else match Step(t, d, c[0])
      case Some(x) => Walk(t, x, c[1..])
      case None => None
  }

  lemma {:induction false} WalkSnoc(t: Tree, d: nat, c: seq<Name>, n: Name)
    ensures Walk(t, d, c + [n]) == match Walk(t, d, c) case Some(x) => Step(t, x, n) case None => None
    decreases |c|
  {
    if c == [] {
      assert [n][1..] == [] && c + [n] == [n];
    } else {
      assert (c + [n])[1..] == c[1..] + [n] && (c + [n])[0] == c[0];
      match Step(t, d, c[0])
      case Some(x) => WalkSnoc(t, x, c[1..], n);
      case None =>
    }
  }

  // ---- steps in a tree ----

  lemma DotStays(t: Tree, d: nat)
    requires TreeOk(t) && d in t.dirs
    ensures Step(t, d, DOT) == Some(d)
  {
    assert DirOk(t, d);
  }

  lemma DotDotRises(t: Tree, d: nat)
    requires TreeOk(t) && d in t.dirs
    ensures d in t.up && t.up[d] in t.dirs && Step(t, d, DOTDOT) == Some(t.up[d])
  {
    assert DirOk(t, d) && PlaceOk(t, d);
    var slots := t.dirs[d].slots;
    assert slots[0].name == DOT && DOT != DOTDOT;
    assert FindName(slots, DOTDOT, 0) == 1;
  }

  /** Any other name leads down, to something whose parent is where we were. */
  lemma NameDescends(t: Tree, d: nat, n: Name)
    requires TreeOk(t) && d in t.dirs && EntryName(n)
    ensures match Lookup(t, d, n)
            case Some(s) => s.name == n && EntryOk(t, d, s) && s != FREE
                            && FindNo(t.dirs[d].slots, s.no, 0) == FindName(t.dirs[d].slots, n, 0) >= 2
            case None => true
  {
    assert DirOk(t, d) && PlaceOk(t, d);
    var slots := t.dirs[d].slots;
    var i := FindName(slots, n, 0);
    if i < |slots| {
      assert i >= 2 && EntryOk(t, d, slots[i]);
      assert PlaceOk(t, slots[i].no);
      DropIndex(t, d, slots[i].no);
    }
  }

  // ---- the path of a directory ----

  /** The name under which a directory or file is listed. */
  function NameIn(t: Tree, c: nat): Name
    requires c in t.up && t.up[c] in t.dirs
  {
    var slots := t.dirs[t.up[c]].slots;
    var i := FindNo(slots, c, 0);
    if i < |slots| then slots[i].name else []
  }

  ghost function PathOf(t: Tree, d: nat): seq<Name>
    requires TreeOk(t) && d in t.dirs
    decreases t.depth[d]
  {
    if d == 0 then []
    else
      assert PlaceOk(t, d);
      PathOf(t, t.up[d]) + [NameIn(t, d)]
  }

  lemma NameLeadsTo(t: Tree, c: nat)
    requires TreeOk(t) && c in t.up && c != 0
    ensures t.up[c] in t.dirs && EntryName(NameIn(t, c))
    ensures Lookup(t, t.up[c], NameIn(t, c)) == Some(Slot(NameIn(t, c), c, if c in t.dirs then Directory else Regular))
  {
    assert PlaceOk(t, c);
    var d := t.up[c];
    DropIndex(t, d, c);
    assert DirOk(t, d);
    NameDescends(t, d, NameIn(t, c));
  }

  /** The path of a directory leads to it. */
  lemma {:induction false} PathLeadsTo(t: Tree, d: nat)
    requires TreeOk(t) && d in t.dirs
    ensures Walk(t, 0, PathOf(t, d)) == Some(d)
    ensures EntryNames(PathOf(t, d))
    decreases t.depth[d]
  {
    if d != 0 {
      assert PlaceOk(t, d);
      PathLeadsTo(t, t.up[d]);
      NameLeadsTo(t, d);
      WalkSnoc(t, 0, PathOf(t, t.up[d]), NameIn(t, d));
    }
  }

  /** And no other path without dots does. */
  lemma {:induction false} OnlyPath(t: Tree, c: seq<Name>, d: nat)
    requires TreeOk(t) && EntryNames(c) && Walk(t, 0, c) == Some(d)
    ensures d in t.dirs && PathOf(t, d) == c
    decreases |c|
  {
    if c != [] {
      var below, n := c[..|c| - 1], c[|c| - 1];
      assert c == below + [n];
      WalkSnoc(t, 0, below, n);
      var x := Walk(t, 0, below).value;
      OnlyPath(t, below, x);
      NameDescends(t, x, n);
      assert PlaceOk(t, d);
    }
  }

  // ---- washing ----

  lemma {:induction false} WashedNames(stack: seq<Name>, c: seq<Name>)
    requires EntryNames(stack) && GoodNames(c)
    ensures EntryNames(Wash(stack, c))
    decreases |c|
  {
    if c != [] {
      WashedNames(Push(stack, c[0]), c[1..]);
    }
  }

  lemma {:induction false} WashOfWashed(stack: seq<Name>, c: seq<Name>)
    requires EntryNames(c)
    ensures Wash(stack, c) == stack + c
    decreases |c|
  {
    if c != [] {
      WashOfWashed(stack + [c[0]], c[1..]);
      assert stack + [c[0]] + c[1..] == stack + c;
    } else {
      assert stack + c == stack;
    }
  }

  function WashText(p: Text): Text {
    Render(Wash([], Components(p)))
  }

  /** A washed path comes apart into names, none of them "." or "..", and washing it
      again changes nothing. */
  lemma WashTwice(p: Text)
    requires Clean(p)
    ensures EntryNames(Components(WashText(p)))
    ensures WashText(WashText(p)) == WashText(p)
  {
    WashedNames([], Components(p));
    var c := Wash([], Components(p));
    ComponentsOfRender(c);
    WashOfWashed([], c);
    assert [] + c == c;
  }

  /** The root is one slash, and any other place a slash and a name for each step. */
  lemma RenderIs(c: seq<Name>)
    ensures Render([]) == [SLASH]
    ensures c != [] ==> Render(c) == (if |c| == 1 then [] else Render(c[..|c| - 1])) + [SLASH] + c[|c| - 1]
  {
    if c != [] {
      assert c == c[..|c| - 1] + [c[|c| - 1]];
      JoinSnoc(c[..|c| - 1], c[|c| - 1]);
    }
  }

  /** Two slashes never stand together in a rendered path, and it does not end in one
      unless it is the root. */
  lemma {:induction false} NoStraySlash(c: seq<Name>)
    requires GoodNames(c)
    ensures forall i :: 0 <= i < |Join(c)| - 1 && Join(c)[i] == SLASH ==> Join(c)[i + 1] != SLASH
    ensures c != [] ==> Join(c) != [] && Join(c)[|Join(c)| - 1] != SLASH
  {
    if c != [] {
      NoStraySlash(c[1..]);
      var n, u := c[0], Join(c[1..]);
      var s := Join(c);
      assert s == [SLASH] + n + u;
      assert u == [] || u[0] == SLASH;
      assert forall i :: 1 <= i <= |n| ==> s[i] == n[i - 1] != SLASH;
      assert forall i :: |n| < i < |s| ==> s[i] == u[i - 1 - |n|];
      if u == [] {
        assert s[|s| - 1] == n[|n| - 1];
      } else {
        assert s[|s| - 1] == u[|u| - 1];
      }
    }
  }

  /** Washing keeps the meaning of a path: where the components led from the root, by way
      of directories that exist, the washed ones lead too. */
  lemma WashKeepsPlace(t: Tree, c: seq<Name>, d: nat)
    requires TreeOk(t) && GoodNames(c) && Walk(t, 0, c) == Some(d)
    ensures Walk(t, 0, Wash([], c)) == Some(d)
  {
    WashKeepsPlaceFrom(t, [], 0, c, d);
  }

  lemma {:induction false} WashKeepsPlaceFrom(t: Tree, stack: seq<Name>, x: nat, c: seq<Name>, d: nat)
    requires TreeOk(t) && GoodNames(c) && EntryNames(stack) && Walk(t, 0, stack) == Some(x) && x in t.dirs
    requires Walk(t, x, c) == Some(d)
    ensures Walk(t, 0, Wash(stack, c)) == Some(d)
    decreases |c|
  {
    if c != [] {
      var n := c[0];
      var y := Step(t, x, n).value;
      var stack' := Push(stack, n);
      if n == DOTDOT {
        DotDotRises(t, x);
        PopRises(t, stack, x);
      } else if n == DOT {
        DotStays(t, x);
      } else {
        WalkSnoc(t, 0, stack, n);
        NameDescends(t, x, n);
      }
      WashKeepsPlaceFrom(t, stack', y, c[1..], d);
    }
  }

  lemma PopRises(t: Tree, stack: seq<Name>, x: nat)
    requires TreeOk(t) && EntryNames(stack) && Walk(t, 0, stack) == Some(x) && x in t.dirs
    ensures x in t.up && Walk(t, 0, Push(stack, DOTDOT)) == Some(t.up[x])
  {
    assert PlaceOk(t, x);
    if stack != [] {
      var below, n := stack[..|stack| - 1], stack[|stack| - 1];
      assert stack == below + [n];
      WalkSnoc(t, 0, below, n);
      var w := Walk(t, 0, below).value;
      OnlyPath(t, below, w);
      NameDescends(t, w, n);
    }
  }
}
