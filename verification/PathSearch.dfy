/** search_file as a function of the tree. */
module PathSearch {
  // What a path names, which directories are opened on the way, and what the record says when
  // the search stops short.

  import opened Bytes
  import opened DirTree
  import opened PathText
  import opened PathWalk

  /** struct dir*: none, the static root_dir, or one that was opened. */
  datatype Handle = NoDir | RootDir | Opened(no: nat)

  /** The result and struct path_search_record, with the components searched so far for
      searched_path, and the directories opened on the way. */
  datatype Outcome = Outcome(no: int, parent: Handle, kind: Kind, names: seq<Name>, via: seq<nat>)

  predicate Special(p: Text) {
    p == [SLASH] || p == [SLASH] + DOT || p == [SLASH] + DOTDOT
  }

  function ParentOf(via: seq<nat>): Handle {
    if via == [] then RootDir else Opened(via[|via| - 1])
  }

  function At(h: Handle): nat {
    match h case Opened(no) => no case _ => 0
  }

  function SearchFrom(t: Tree, d: nat, p: Text, names: seq<Name>, via: seq<nat>): Outcome
    decreases |p|
  {
    if NameOf(p) == [] || d !in t.dirs then Outcome(-1, ParentOf(via), Unknown, names, via)
    else
      var names' := names + [NameOf(p)];
      match Lookup(t, d, NameOf(p))
      case None => Outcome(-1, ParentOf(via), Unknown, names', via)
      case Some(s) =>
        if RestOf(p).Null? then Outcome(s.no, ParentOf(via), s.kind, names', via)
        else if s.kind != Directory then Outcome(-1, NoDir, Unknown, names', via)
        else SearchFrom(t, s.no, RestOf(p).text, names', via + [s.no])
  }

  function Search(t: Tree, p: Text): Outcome {
    if Special(p) then Outcome(0, RootDir, Directory, [], []) else SearchFrom(t, 0, p, [], [])
  }

  /** The directory handles that are still open once the caller has closed the parent. */
  function Leaked(o: Outcome): seq<nat> {
    if o.parent == NoDir || o.via == [] then o.via else o.via[..|o.via| - 1]
  }

  // ---- what a search finds ----

  lemma FoundIsSubdir(t: Tree, d: nat, n: Name)
    requires TreeOk(t) && d in t.dirs && n != []
    ensures 0 in t.dirs
    ensures match Lookup(t, d, n)
            case Some(s) => s.name == n && s.no in t.up && s.kind != Unknown && (s.kind == Directory <==> s.no in t.dirs) && (s.kind == Regular <==> s.no in t.files)
            case None => true
  {
    assert DirOk(t, d) && PlaceOk(t, d);
    var slots := t.dirs[d].slots;
    var i := FindName(slots, n, 0);
    if 2 <= i < |slots| {
      assert EntryOk(t, d, slots[i]);
    }
  }

  /** Only directories of the tree are opened, the last of them is the parent, and what is
      found is found there under the last component. */
  lemma {:induction false} SearchFinds(t: Tree, d: nat, p: Text, names: seq<Name>, via: seq<nat>)
    requires TreeOk(t) && d in t.dirs && d == At(ParentOf(via)) && (forall i :: 0 <= i < |via| ==> via[i] in t.dirs)
    ensures var o := SearchFrom(t, d, p, names, via);
            && (forall i :: 0 <= i < |o.via| ==> o.via[i] in t.dirs)
            && (o.parent == NoDir || o.parent == ParentOf(o.via)) && At(o.parent) in t.dirs
            && (o.parent == NoDir ==> o.no == -1)
            && (o.no == -1 ==> o.kind == Unknown)
            && (o.no != -1 ==>
                  && o.no >= 0 && Components(p) != [] && o.names == names + Components(p)
                  && Walk(t, d, Components(p)[..|Components(p)| - 1]) == Some(At(o.parent))
                  && Lookup(t, At(o.parent), Components(p)[|Components(p)| - 1]) == Some(Slot(Components(p)[|Components(p)| - 1], o.no, o.kind)))
    decreases |p|
  {
    hide TreeOk, NameOf, RestOf, Lookup, Walk, Components;
    var n := NameOf(p);
    if n != [] {
      FoundIsSubdir(t, d, n);
      match Lookup(t, d, n)
      case Some(s) =>
        if RestOf(p).Null? {
          LastComponent(t, d, p);
        } else if s.kind == Directory {
          SearchFinds(t, s.no, RestOf(p).text, names + [n], via + [s.no]);
          FurtherComponent(t, d, p, names);
        }
      case None =>
    }
  }

  lemma LastComponent(t: Tree, d: nat, p: Text)
    requires NameOf(p) != [] && RestOf(p).Null?
    ensures Components(p) == [NameOf(p)] && Walk(t, d, Components(p)[..0]) == Some(d)
  {
    hide NameOf, RestOf;
  }

  lemma FurtherComponent(t: Tree, d: nat, p: Text, names: seq<Name>)
    requires NameOf(p) != [] && RestOf(p).Left? && d in t.dirs && Lookup(t, d, NameOf(p)).Some?
    requires Lookup(t, d, NameOf(p)).value.kind == Directory
    ensures var c := Components(RestOf(p).text);
            && Components(p) == [NameOf(p)] + c && names + Components(p) == names + [NameOf(p)] + c
            && (c != [] ==> Components(p)[|c|] == c[|c| - 1]
                            && Walk(t, d, Components(p)[..|c|]) == Walk(t, Lookup(t, d, NameOf(p)).value.no, c[..|c| - 1]))
  {
    hide NameOf, RestOf, Lookup;
    var n, c := NameOf(p), Components(RestOf(p).text);
    assert Components(p) == [n] + c;
    if c != [] {
      assert ([n] + c)[..|c|] == [n] + c[..|c| - 1];
      assert ([n] + c[..|c| - 1])[1..] == c[..|c| - 1];
    }
  }

  /** The first component of a plain text and the rest of it. */
  lemma FirstOfJoin(c: seq<Name>)
    requires GoodNames(c) && c != []
    ensures NameOf(Join(c)) == c[0] && Components(Join(c)) == c
    ensures RestOf(Join(c)) == if |c| == 1 then Null else Left(Join(c[1..]))
  {
    hide NameOf, RestOf, Components, GoodName;
    assert GoodName(c[0]);
    FirstOfText(c[0], Join(c[1..]));
    ComponentsOfRender(c);
  }

  /** A search by a plain path: it gets to the last component exactly when the ones before
      it lead to a directory, and then finds what is listed there. */
  lemma {:induction false} PlainSearch(t: Tree, d: nat, c: seq<Name>, names: seq<Name>, via: seq<nat>)
    requires TreeOk(t) && d in t.dirs && d == At(ParentOf(via)) && GoodNames(c) && c != []
    ensures var o := SearchFrom(t, d, Join(c), names, via);
            match Walk(t, d, c[..|c| - 1])
            case Some(x) =>
              && x in t.dirs && o.parent != NoDir && At(o.parent) == x && o.names == names + c
              && (match Lookup(t, x, c[|c| - 1])
                  case Some(s) => o.no == s.no && o.kind == s.kind
                  case None => o.no == -1)
            case None => o.no == -1 && |names| < |o.names| < |names + c|
    decreases |c|
  {
    hide TreeOk, NameOf, RestOf, Lookup, Components;
    FirstOfJoin(c);
    FoundIsSubdir(t, d, c[0]);
    if |c| == 1 {
      assert c[..0] == [] && c == [c[0]];
    } else {
      var q := c[1..];
      assert c[..|c| - 1][0] == c[0] && c[..|c| - 1][1..] == q[..|q| - 1];
      match Lookup(t, d, c[0])
      case Some(s) =>
        if s.kind == Directory {
          PlainSearch(t, s.no, q, names + [c[0]], via + [s.no]);
          assert names + [c[0]] + q == names + c;
        }
      case None =>
    }
  }

  lemma NameThere(p: Text)
    requires Clean(p) && p != [] && p[|p| - 1] != SLASH
    ensures GoodName(NameOf(p))
    ensures RestOf(p).Left? ==> RestOf(p).text[|RestOf(p).text| - 1] == p[|p| - 1] && Clean(RestOf(p).text)
  {
    hide Head;
    NameIsPart(p);
    SkipShrinks(p);
    var q := SkipSlashes(p);
    if q == [] {
      OnlySlashes(p);
    }
    assert q != [] && q[|q| - 1] == p[|p| - 1];
    assert NameOf(p) == Head(q, MAX_FILE_NAME_LEN - 1);
    var n := NameOf(p);
    assert RestOf(p).Left? ==> RestOf(p).text == q[|n|..];
  }

  lemma {:induction false} OnlySlashes(p: Text)
    requires SkipSlashes(p) == []
    ensures forall i :: 0 <= i < |p| ==> p[i] == SLASH
  {
    if p != [] {
      OnlySlashes(p[1..]);
      assert forall i :: 0 < i < |p| ==> p[i] == p[1..][i - 1];
    }
  }

  lemma NotListed(t: Tree, d: nat, n: Name)
    requires TreeOk(t) && d in t.dirs && GoodName(n) && Lookup(t, d, n) == None
    ensures EntryName(n) && FindName(t.dirs[d].slots, n, 0) == |t.dirs[d].slots|
  {
    DotStays(t, d);
    DotDotRises(t, d);
  }

  /** A search that stops at a missing component, by a path that does not end in a slash,
      leaves that component as the last of the searched path. */
  lemma {:induction false} SearchMisses(t: Tree, d: nat, p: Text, names: seq<Name>, via: seq<nat>)
    requires TreeOk(t) && d in t.dirs && d == At(ParentOf(via)) && GoodNames(names)
    requires Clean(p) && p != [] && p[|p| - 1] != SLASH
    ensures var o := SearchFrom(t, d, p, names, via);
            && GoodNames(o.names) && |o.names| > |names|
            && (o.no == -1 && o.parent != NoDir ==>
                  && At(o.parent) in t.dirs
                  && Lookup(t, At(o.parent), o.names[|o.names| - 1]) == None && EntryName(o.names[|o.names| - 1]))
    decreases |p|
  {
    hide TreeOk, NameOf, RestOf, Lookup, GoodName;
    NameThere(p);
    var n := NameOf(p);
    assert n != [] by { NotEmpty(n); }
    FoundIsSubdir(t, d, n);
    match Lookup(t, d, n)
    case Some(s) =>
      if RestOf(p).Left? && s.kind == Directory {
        SearchMisses(t, s.no, RestOf(p).text, names + [n], via + [s.no]);
      }
    case None =>
      NotListed(t, d, n);
  }

  /** strrchr(searched_path, '/') + 1 */
  lemma LastName(names: seq<Name>)
    requires GoodNames(names) && names != []
    ensures var s := Join(names);
            LastSlash(s) < |s| && s[LastSlash(s) + 1..] == names[|names| - 1]
  {
    hide LastSlash;
    var below, n := names[..|names| - 1], names[|names| - 1];
    assert names == below + [n];
    JoinSnoc(below, n);
    LastSlashOf(Join(below), n);
  }

  /** What search_file tells its callers, for any absolute path. */
  lemma SearchMeans(t: Tree, p: Text)
    requires TreeOk(t) && Clean(p)
    ensures var o := Search(t, p);
            && (forall i :: 0 <= i < |o.via| ==> o.via[i] in t.dirs)
            && (o.parent == NoDir || o.parent == ParentOf(o.via)) && At(o.parent) in t.dirs
            && (o.no == -1 ==> o.kind == Unknown) && (o.parent == NoDir ==> o.no == -1)
            && (o.no != -1 && o.names == [] ==> Special(p) && o.no == 0)
            && (o.no != -1 && o.names != [] ==>
                  && o.no >= 0 && o.parent != NoDir && o.names == Components(p)
                  && Walk(t, 0, o.names[..|o.names| - 1]) == Some(At(o.parent))
                  && Lookup(t, At(o.parent), o.names[|o.names| - 1]) == Some(Slot(o.names[|o.names| - 1], o.no, o.kind)))
  {
    hide DirOk, PlaceOk, Lookup, Walk, Components, SearchFrom;
    if !Special(p) {
      SearchFinds(t, 0, p, [], []);
      assert [] + Components(p) == Components(p);
    }
  }

  /** A path of names that is washed is looked up as a walk: it is found exactly when
      there is something of that name where its parent leads. */
  lemma WashedSearch(t: Tree, c: seq<Name>)
    requires TreeOk(t) && EntryNames(c) && c != []
    ensures Components(Render(c)) == c && !Special(Render(c))
    ensures var o := Search(t, Render(c));
            match Walk(t, 0, c[..|c| - 1])
            case Some(x) =>
              && x in t.dirs && o.parent != NoDir && At(o.parent) == x && o.names == c
              && (match Lookup(t, x, c[|c| - 1])
                  case Some(s) => o.no == s.no && o.kind == s.kind
                  case None => o.no == -1)
            case None => o.no == -1 && 0 < |o.names| < |c|
  {
    ComponentsOfRender(c);
    NotSpecial(c);
    PlainSearch(t, 0, c, [], []);
    assert [] + c == c;
  }

  lemma OneName(n: Name)
    ensures Render([n]) == [SLASH] + n
  {
    assert [n][1..] == [] && Join([]) == [] && [SLASH] + n + [] == [SLASH] + n;
  }

  lemma NotSpecial(c: seq<Name>)
    requires EntryNames(c) && c != []
    ensures !Special(Render(c))
  {
    ComponentsOfRender(c);
    ComponentsOfRender([]);
    OneName(DOT);
    OneName(DOTDOT);
    ComponentsOfRender([DOT]);
    ComponentsOfRender([DOTDOT]);
    assert c[0] != DOT && c[0] != DOTDOT;
  }

  lemma {:induction false} CleanJoin(c: seq<Name>)
    requires GoodNames(c)
    ensures Clean(Join(c)) && Clean(Render(c))
  {
    if c != [] {
      CleanJoin(c[1..]);
    }
  }

  /** A directory is found by a washed path exactly when the path is its own. */
  lemma FindsByPath(t: Tree, c: seq<Name>, d: nat)
    requires TreeOk(t) && EntryNames(c)
    ensures Search(t, Render(c)).no == d && Search(t, Render(c)).kind == Directory <==> d in t.dirs && PathOf(t, d) == c
  {
    hide DirOk, PlaceOk, Lookup;
    if c == [] {
      OnlyRoot(t, d);
    } else {
      FindsDir(t, c, d);
    }
  }

  lemma FindsDir(t: Tree, c: seq<Name>, d: nat)
    requires TreeOk(t) && EntryNames(c) && c != []
    ensures Search(t, Render(c)).no == d && Search(t, Render(c)).kind == Directory <==> d in t.dirs && PathOf(t, d) == c
  {
    hide Search, Walk, NameOf, RestOf, TreeOk, Special, Components, Render;
    var o := Search(t, Render(c));
    WashedSearch(t, c);
    var q, n := c[..|c| - 1], c[|c| - 1];
    assert c == q + [n];
    WalkSnoc(t, 0, q, n);
    if o.no == d && o.kind == Directory {
      CleanJoin(c);
      SearchMeans(t, Render(c));
      OnlyPath(t, c, d);
    }
    if d in t.dirs && PathOf(t, d) == c {
      PathLeadsTo(t, d);
    }
  }

  lemma OnlyRoot(t: Tree, d: nat)
    requires TreeOk(t)
    ensures d in t.dirs && PathOf(t, d) == [] <==> d == 0
  {
  }

  // ---- what a search leaves open ----

  /** What was opened in place `k` + `i` is where the first i + 1 components lead. */
  predicate OpensAt(t: Tree, d: nat, c: seq<Name>, via: seq<nat>, k: nat, i: nat) {
    i < |c| && k + i < |via| && Walk(t, d, c[..i + 1]) == Some(via[k + i])
  }

  /** A search from `d` by components `c` got to `o`, having come to `d` by `names` and `via`. */
  ghost predicate ViaOk(t: Tree, d: nat, c: seq<Name>, ends: bool, names: seq<Name>, via: seq<nat>, o: Outcome) {
    var k, m := |o.names| - |names|, |o.via| - |via|;
    && 0 <= k <= |c| && o.names == names + c[..k]
    && 0 <= m <= |c| && o.via[..|via|] == via
    && (forall i: nat :: i < m ==> OpensAt(t, d, c, o.via, |via|, i))
    && (m == k - 1 || (m == k && o.no == -1 && ends))
  }

  lemma ViaStep(t: Tree, d: nat, n: Name, x: nat, c: seq<Name>, ends: bool, names: seq<Name>, via: seq<nat>, o: Outcome)
    requires d in t.dirs && Lookup(t, d, n).Some? && Lookup(t, d, n).value == Slot(n, x, Directory)
    requires ViaOk(t, x, c, ends, names + [n], via + [x], o)
    ensures ViaOk(t, d, [n] + c, ends, names, via, o)
  {
    hide Lookup, Walk;
    var k, m, c1 := |o.names| - |names|, |o.via| - |via|, [n] + c;
    assert c1[..k] == [n] + c[..k - 1];
    assert o.via[..|via| + 1] == via + [x];
    assert o.via[|via|] == o.via[..|via| + 1][|via|] && o.via[..|via|] == o.via[..|via| + 1][..|via|];
    forall i: nat | i < m
      ensures OpensAt(t, d, c1, o.via, |via|, i)
    {
      assert c1[..i + 1] == [n] + c[..i];
      FirstStepOf(t, d, n, c[..i]);
      if i == 0 {
        NoSteps(t, x, c[..0]);
      } else {
        assert OpensAt(t, x, c, o.via, |via + [x]|, i - 1);
      }
    }
  }

  lemma NoSteps(t: Tree, x: nat, c: seq<Name>)
    requires c == []
    ensures Walk(t, x, c) == Some(x)
  {
  }

  lemma {:induction false} ViaWalks(t: Tree, d: nat, p: Text, names: seq<Name>, via: seq<nat>)
    requires TreeOk(t) && d in t.dirs && Clean(p) && p != []
    ensures ViaOk(t, d, Components(p), p[|p| - 1] == SLASH, names, via, SearchFrom(t, d, p, names, via))
    decreases |p|
  {
    hide TreeOk, NameOf, RestOf, Lookup, Walk, Components;
    var n, c := NameOf(p), Components(p);
    if n == [] {
      assert names + c[..0] == names;
      if p[|p| - 1] != SLASH {
        NameThere(p);
        NotEmpty(n);
      }
    } else {
      ComponentsBegin(p);
      FoundIsSubdir(t, d, n);
      assert c[..1] == [n];
      match Lookup(t, d, n)
      case Some(s) =>
        if RestOf(p).Left? && s.kind == Directory {
          var q := RestOf(p).text;
          NameIsPart(p);
          RestKeepsEnd(p);
          ViaWalks(t, s.no, q, names + [n], via + [s.no]);
          hide ViaOk;
          ViaStep(t, d, n, s.no, Components(q), p[|p| - 1] == SLASH, names, via, SearchFrom(t, d, p, names, via));
        }
      case None =>
    }
  }

  lemma ComponentsBegin(p: Text)
    requires NameOf(p) != []
    ensures Components(p) == [NameOf(p)] + (if RestOf(p).Null? then [] else Components(RestOf(p).text))
  {
  }

  lemma FirstStepOf(t: Tree, d: nat, n: Name, c: seq<Name>)
    requires d in t.dirs && Lookup(t, d, n).Some? && Lookup(t, d, n).value.kind == Directory
    ensures Walk(t, d, [n] + c) == Walk(t, Lookup(t, d, n).value.no, c)
  {
    hide Lookup;
    assert ([n] + c)[1..] == c;
  }

  lemma RestKeepsEnd(p: Text)
    requires RestOf(p).Left? && p != []
    ensures RestOf(p).text != [] && RestOf(p).text[|RestOf(p).text| - 1] == p[|p| - 1]
  {
    SkipShrinks(p);
    var s := SkipSlashes(p);
    assert s[|s| - 1] == p[|p| - 1];
  }

  /** The searched path is a run of the components, the directories opened are those its beginnings
      lead to, in order, and once the caller has closed the parent all but the last stay open:
      after a successful search by n components these are n - 2 handles, or none. */
  lemma HandlesLeft(t: Tree, p: Text)
    requires TreeOk(t) && Clean(p) && p != [] && !Special(p)
    ensures var o, c := Search(t, p), Components(p);
            && |o.names| <= |c| && o.names == c[..|o.names|]
            && |o.via| <= |c| && (forall i: nat :: i < |o.via| ==> OpensAt(t, 0, c, o.via, 0, i))
            && (o.no != -1 || p[|p| - 1] != SLASH ==> |o.via| == |o.names| - 1)
            && Leaked(o) <= o.via && |Leaked(o)| == (if o.parent == NoDir || o.via == [] then |o.via| else |o.via| - 1)
            && (o.no != -1 ==> o.names == c && |Leaked(o)| == if |c| >= 2 then |c| - 2 else 0)
  {
    hide TreeOk, SearchFrom, Components, Walk, Lookup;
    RootThere(t);
    ViaWalks(t, 0, p, [], []);
    SearchFinds(t, 0, p, [], []);
    var o, c := Search(t, p), Components(p);
    assert [] + c[..|o.names|] == c[..|o.names|] && [] + c == c;
  }

  // ---- the depth check of sys_mkdir ----

  /** path_depth_cnt */
  function Slashes(p: Text): nat {
    if p == [] then 0 else (if p[0] == SLASH then 1 else 0) + Slashes(p[1..])
  }

  lemma {:induction false} SlashesOf(a: Text, b: Text)
    ensures Slashes(a + b) == Slashes(a) + Slashes(b)
  {
    if a == [] {
      assert a + b == b;
    } else {
      assert (a + b)[0] == a[0] && (a + b)[1..] == a[1..] + b;
      SlashesOf(a[1..], b);
    }
  }

  method PathDepthCnt(pathname: Text) returns (cnt: nat)
    ensures cnt == Slashes(pathname) == |set i | 0 <= i < |pathname| && pathname[i] == SLASH|
  {
    cnt := 0;
    var i := 0;
    while i < |pathname|
      invariant 0 <= i <= |pathname| && cnt == Slashes(pathname[..i])
      invariant cnt == |set j | 0 <= j < i && pathname[j] == SLASH|
    {
      SlashesOf(pathname[..i], [pathname[i]]);
      assert pathname[..i + 1] == pathname[..i] + [pathname[i]] && [pathname[i]][1..] == [];
      assert (set j | 0 <= j < i + 1 && pathname[j] == SLASH) ==
             (set j | 0 <= j < i && pathname[j] == SLASH) + (if pathname[i] == SLASH then {i} else {});
      if pathname[i] == SLASH {
        cnt := cnt + 1;
      }
      i := i + 1;
    }
    assert pathname[..i] == pathname;
  }

  lemma {:induction false} NoSlashes(a: Text)
    requires SLASH !in a
    ensures Slashes(a) == 0
  {
    if a != [] {
      NoSlashes(a[1..]);
    }
  }

  /** The depth of a text put together from names is their number. */
  lemma {:induction false} DepthOfJoin(c: seq<Name>)
    requires forall i :: 0 <= i < |c| ==> SLASH !in c[i]
    ensures Slashes(Join(c)) == |c|
  {
    if c != [] {
      SlashesOf([SLASH] + c[0], Join(c[1..]));
      SlashesOf([SLASH], c[0]);
      NoSlashes(c[0]);
      assert Slashes([SLASH]) == 1 + Slashes([]) by { assert [SLASH][1..] == []; }
      DepthOfJoin(c[1..]);
    }
  }

  /** No component of more than 15 characters: no sixteen without a slash. */
  predicate NoLong(p: Text) {
    forall i: nat, j: nat :: j == i + MAX_FILE_NAME_LEN <= |p| ==> SLASH in p[i..j]
  }

  /** What is left after a component begins with the slash after it. */
  lemma RestBegins(p: Text)
    requires NoLong(p) && RestOf(p).Left? && NameOf(p) != []
    ensures var q := RestOf(p).text;
            && q != [] && q[0] == SLASH && NoLong(q) && |q| < |p| && q == p[|p| - |q|..]
  {
    SkipShrinks(p);
    var s, q, k := SkipSlashes(p), RestOf(p).text, |p| - |SkipSlashes(p)|;
    assert s == p[k..];
    if |NameOf(p)| == MAX_FILE_NAME_LEN - 1 {
      assert SLASH in p[k..k + MAX_FILE_NAME_LEN];
      assert p[k..k + MAX_FILE_NAME_LEN] == NameOf(p) + [q[0]];
    }
    assert q == p[k + |NameOf(p)|..];
    NoLongAfter(p, k + |NameOf(p)|);
  }

  lemma NoLongAfter(p: Text, m: nat)
    requires NoLong(p) && m <= |p|
    ensures NoLong(p[m..])
  {
    var q := p[m..];
    forall i: nat, j: nat | j == i + MAX_FILE_NAME_LEN <= |q|
      ensures SLASH in q[i..j]
    {
      assert SLASH in p[m + i..m + j];
      assert q[i..j] == p[m + i..m + j];
    }
  }

  lemma SlashesMore(p: Text, q: Text)
    requires p != [] && p[0] == SLASH && |q| < |p| && q == p[|p| - |q|..]
    ensures Slashes(p) >= 1 + Slashes(q)
  {
    var m := |p| - |q|;
    assert p == p[..m] + q;
    SlashesOf(p[..m], q);
    assert p[..m][0] == SLASH;
  }

  lemma {:induction false} NamesAreGood(t: Tree, d: nat, p: Text, names: seq<Name>, via: seq<nat>)
    requires Clean(p) && GoodNames(names)
    ensures GoodNames(SearchFrom(t, d, p, names, via).names)
    decreases |p|
  {
    hide GoodName, Lookup;
    if NameOf(p) != [] && d in t.dirs {
      NameIsPart(p);
      assert GoodName(NameOf(p)) by {
        GoodHere(NameOf(p));
      }
      match Lookup(t, d, NameOf(p))
      case None =>
      case Some(s) =>
        if RestOf(p).Left? && s.kind == Directory {
          NamesAreGood(t, s.no, RestOf(p).text, names + [NameOf(p)], via + [s.no]);
        }
    }
  }

  lemma GoodHere(n: Name)
    requires Clean(n) && n != [] && |n| < MAX_FILE_NAME_LEN && SLASH !in n
    ensures GoodName(n)
  {
  }

  lemma LastComponentEnds(p: Text)
    requires NameOf(p) != [] && RestOf(p).Null?
    ensures p != [] && p[|p| - 1] != SLASH
  {
    SkipShrinks(p);
    var s := SkipSlashes(p);
    assert s[|NameOf(p)|..] == [];
    assert s == NameOf(p);
    assert p[|p| - 1] == s[|s| - 1];
  }

  lemma {:induction false} HeadExact(n: Name, u: Text)
    requires SLASH !in n
    ensures Head(n + u, |n|) == n
  {
    if n != [] {
      assert (n + u)[1..] == n[1..] + u;
      HeadExact(n[1..], u);
    }
  }

  /** A component that is too long falls in two, with no slash between. */
  lemma LongFalls(a: Name, q: Text)
    requires SLASH !in a && |a| == MAX_FILE_NAME_LEN - 1 && q != []
    ensures NameOf([SLASH] + a + q) == a && RestOf([SLASH] + a + q) == Left(q)
  {
    var p := [SLASH] + a + q;
    assert p[1..] == a + q;
    assert SkipSlashes(p) == a + q;
    HeadExact(a, q);
    assert (a + q)[|a|..] == q;
  }

  lemma NameThenSlash(x: Name)
    requires GoodName(x)
    ensures NameOf(x + [SLASH]) == x && RestOf(x + [SLASH]) == Left([SLASH]) && NameOf([SLASH]) == []
  {
    var q := x + [SLASH];
    HeadOf(x, [SLASH], MAX_FILE_NAME_LEN - 1);
    assert SkipSlashes(q) == q;
    assert q[|x|..] == [SLASH] && [SLASH][1..] == [];
    assert SkipSlashes([SLASH]) == SkipSlashes([]) == [];
  }

  /** With a longer component the test can be passed by mistake: a name of 15 characters, more
      characters that count as a second component, and a slash at the end. The search goes
      into that second directory and stops there, the depths agree, and sys_mkdir would enter
      the directory's own name in it, a second time if the name is there already. */
  lemma LongNameMisleads(t: Tree, a: Name, x: Name, d: nat)
    requires TreeOk(t) && EntryName(a) && EntryName(x) && |a| == MAX_FILE_NAME_LEN - 1
    requires Walk(t, 0, [a, x]) == Some(d)
    ensures var p := [SLASH] + a + (x + [SLASH]);
            var o := Search(t, p);
            !NoLong(p) && o.no == -1 && Slashes(p) == |o.names| && o.parent == Opened(d) && o.names == [a, x]
  {
    hide TreeOk, Lookup, NameOf, RestOf;
    var q := x + [SLASH];
    var p := [SLASH] + a + q;
    RootThere(t);
    assert [a, x][1..] == [x] && [x][1..] == [];
    var e := Step(t, 0, a).value;
    assert Walk(t, e, [x]) == Some(d);
    assert Walk(t, Step(t, e, x).value, []) == Step(t, e, x);
    FoundIsSubdir(t, 0, a);
    FoundIsSubdir(t, e, x);
    assert Lookup(t, e, x).Some? && Lookup(t, e, x).value.no == d && Lookup(t, e, x).value.kind == Directory;
    assert [a] + [NameOf(q)] == [a, x] by { NameThenSlash(x); }
    LongFalls(a, q);
    NameThenSlash(x);
    assert [] + [a] == [a] && [a] + [x] == [a, x] && [] + [e] == [e] && [e] + [d] == [e, d];
    assert SearchFrom(t, d, [SLASH], [a, x], [e, d]) == Outcome(-1, Opened(d), Unknown, [a, x], [e, d]);
    assert SearchFrom(t, e, q, [a], [e]) == SearchFrom(t, d, [SLASH], [a, x], [e, d]);
    SlashesTwo(p, a, x);
    assert SLASH !in p[1..1 + MAX_FILE_NAME_LEN] by {
      assert p[1..1 + MAX_FILE_NAME_LEN] == a + x[..1];
    }
  }

  lemma RootThere(t: Tree)
    requires TreeOk(t)
    ensures 0 in t.dirs
  {
  }

  lemma SlashesTwo(p: Text, a: Name, x: Name)
    requires p == [SLASH] + a + (x + [SLASH]) && SLASH !in a && SLASH !in x
    ensures Slashes(p) == 2
  {
    SlashesOf([SLASH] + a, x + [SLASH]);
    SlashesOf(x, [SLASH]);
    SlashesOf([SLASH], a);
    NoSlashes(a);
    NoSlashes(x);
    assert [SLASH][1..] == [];
  }

  /** The first k components lead to a regular file. */
  predicate ToFile(t: Tree, d: nat, c: seq<Name>, k: nat) {
    1 <= k <= |c| && match Walk(t, d, c[..k - 1])
                     case Some(x) => x in t.dirs && Lookup(t, x, c[k - 1]).Some? && Lookup(t, x, c[k - 1]).value.kind == Regular
                     case None => false
  }

  /** A search leaves no directory exactly when the components but the last few, at least one,
      lead to a regular file. */
  lemma {:induction false} FileInTheWay(t: Tree, d: nat, p: Text, names: seq<Name>, via: seq<nat>)
    requires TreeOk(t) && d in t.dirs && Clean(p) && p != [] && p[|p| - 1] != SLASH
    ensures SearchFrom(t, d, p, names, via).parent == NoDir <==> exists k: nat :: k < |Components(p)| && ToFile(t, d, Components(p), k)
    decreases |p|
  {
    hide TreeOk, SkipSlashes, Head, NameOf, RestOf, Lookup, Walk;
    var c, n := Components(p), NameOf(p);
    NameThere(p);
    NotEmpty(n);
    FoundIsSubdir(t, d, n);
    if RestOf(p).Left? {
      var q := RestOf(p).text;
      NameThere(q);
      NotEmpty(NameOf(q));
      assert c == [n] + Components(q) && |c| >= 2;
      FirstToFile(t, d, c);
      if Lookup(t, d, n).Some? && Lookup(t, d, n).value.kind == Directory {
        var x := Lookup(t, d, n).value.no;
        FileInTheWay(t, x, q, names + [n], via + [x]);
        assert c[1..] == Components(q);
        if k: nat :| k < |Components(q)| && ToFile(t, x, Components(q), k) {
          assert ToFile(t, d, c, k + 1);
        }
        if k: nat :| k < |c| && ToFile(t, d, c, k) {
          assert ToFile(t, x, Components(q), k - 1);
        }
      } else if Lookup(t, d, n).Some? {
        assert ToFile(t, d, c, 1);
      }
    } else {
      assert c == [n];
    }
  }

  lemma FirstToFile(t: Tree, d: nat, c: seq<Name>)
    requires TreeOk(t) && d in t.dirs && |c| >= 2 && GoodName(c[0])
    ensures match Lookup(t, d, c[0])
            case None => forall k: nat :: !ToFile(t, d, c, k)
            case Some(s) =>
              if s.kind == Directory then forall k: nat :: ToFile(t, d, c, k) <==> k >= 2 && ToFile(t, s.no, c[1..], k - 1)
              else ToFile(t, d, c, 1)
  {
    hide TreeOk, Lookup;
    NotEmpty(c[0]);
    FoundIsSubdir(t, d, c[0]);
    assert c[..0] == [];
    forall k: nat
      ensures match Lookup(t, d, c[0])
              case None => !ToFile(t, d, c, k)
              case Some(s) => s.kind == Directory ==> (ToFile(t, d, c, k) <==> k >= 2 && ToFile(t, s.no, c[1..], k - 1))
    {
      if 2 <= k <= |c| {
        assert c[..k - 1][0] == c[0] && c[..k - 1][1..] == c[1..][..k - 2] && c[1..][k - 2] == c[k - 1];
      }
    }
  }

  /** What sys_mkdir and open_file find in the record for a path that does not end in a slash. */
  lemma NoDirMeans(t: Tree, p: Text)
    requires TreeOk(t) && Clean(p) && p != [] && p[0] == SLASH && p[|p| - 1] != SLASH
    ensures Search(t, p).parent == NoDir <==> exists k: nat :: k < |Components(p)| && ToFile(t, 0, Components(p), k)
  {
    hide TreeOk, Components, ToFile;
    RootThere(t);
    if Special(p) {
      OneComponent(p);
      assert forall k: nat :: k < |Components(p)| ==> !ToFile(t, 0, Components(p), k) by {
        NoneBeforeFirst(t, Components(p));
      }
    } else {
      FileInTheWay(t, 0, p, [], []);
    }
  }

  lemma OneComponent(p: Text)
    requires Special(p) && p[|p| - 1] != SLASH
    ensures Components(p) == [DOT] || Components(p) == [DOTDOT]
  {
    if p == [SLASH] + DOT {
      FirstComponent(DOT, []);
    } else {
      FirstComponent(DOTDOT, []);
    }
    NothingNamed();
    assert [SLASH] + DOT + [] == [SLASH] + DOT && [SLASH] + DOTDOT + [] == [SLASH] + DOTDOT;
  }

  lemma NoneBeforeFirst(t: Tree, c: seq<Name>)
    requires |c| == 1
    ensures forall k: nat :: k < |c| ==> !ToFile(t, 0, c, k)
  {
  }
}
