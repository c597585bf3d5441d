/** When the depth test of sys_mkdir is right. */
module MkdirDepth {
  // The test compares the slashes of the path with the names the search went through. Which
  // paths it is right for, whatever tree there is, can be read off the path.

  import opened DirTree
  import opened PathText
  import opened PathWalk
  import opened PathSearch
  import opened FsCalls
  import opened FsTheorems

  // ---- what a search comes to, in terms of the components ----

  /** How many of the components the search goes through. */
  function StopAt(t: Tree, d: nat, c: seq<Name>): (r: nat)
    ensures r <= |c|
    decreases |c|
  {
    if c == [] || d !in t.dirs then 0
    else match Lookup(t, d, c[0])
      case Some(s) => if s.kind == Directory then 1 + StopAt(t, s.no, c[1..]) else 1
      case None => 1
  }

  /** All components are there, and all but the last are directories. */
  predicate Found(t: Tree, d: nat, c: seq<Name>)
    decreases |c|
  {
    c == [] || (d in t.dirs && match Lookup(t, d, c[0])
                               case Some(s) => |c| == 1 || (s.kind == Directory && Found(t, s.no, c[1..]))
                               case None => false)
  }

  lemma FirstStep(t: Tree, d: nat, n: Name, c: seq<Name>)
    requires d in t.dirs
    ensures match Lookup(t, d, n)
            case Some(s) =>
              if s.kind == Directory then
                StopAt(t, d, [n] + c) == 1 + StopAt(t, s.no, c) && (Found(t, d, [n] + c) <==> Found(t, s.no, c))
              else
                StopAt(t, d, [n] + c) == 1 && (Found(t, d, [n] + c) <==> c == [])
            case None => StopAt(t, d, [n] + c) == 1 && !Found(t, d, [n] + c)
  {
    hide Lookup;
    assert ([n] + c)[1..] == c;
  }

  lemma {:induction false} SearchShape(t: Tree, d: nat, p: Text, names: seq<Name>, via: seq<nat>)
    requires TreeOk(t) && d in t.dirs && Clean(p) && p != []
    ensures var o, c := SearchFrom(t, d, p, names, via), Components(p);
            && |o.names| == |names| + StopAt(t, d, c)
            && (o.no != -1 <==> c != [] && Found(t, d, c) && p[|p| - 1] != SLASH)
    decreases |p|
  {
    hide TreeOk, Lookup, NameOf, RestOf, StopAt, Found, Components;
    NamedUnlessSlash(p);
    var n := NameOf(p);
    if n == [] {
      assert StopAt(t, d, []) == 0 by { NoStop(t, d); }
    } else {
      FoundIsSubdir(t, d, n);
      if RestOf(p).Left? {
        var q := RestOf(p).text;
        NameIsPart(p);
        RestEnds(p);
        NamedUnlessSlash(q);
        FirstStep(t, d, n, Components(q));
        match Lookup(t, d, n)
        case Some(s) =>
          if s.kind == Directory {
            SearchShape(t, s.no, q, names + [n], via + [s.no]);
            if Components(q) == [] {
              NoStop(t, s.no);
            }
          }
        case None =>
      } else {
        LastComponentEnds(p);
        FirstStep(t, d, n, []);
        assert [n] + [] == [n];
        match Lookup(t, d, n)
        case Some(s) => NoStop(t, s.no);
        case None =>
      }
    }
  }

  lemma NoStop(t: Tree, d: nat)
    ensures StopAt(t, d, []) == 0 && Found(t, d, [])
  {
  }

  lemma NamedUnlessSlash(p: Text)
    requires Clean(p) && p != []
    ensures p[|p| - 1] != SLASH ==> NameOf(p) != []
    ensures NameOf(p) == [] <==> Components(p) == []
    ensures NameOf(p) != [] ==> Components(p) == [NameOf(p)] + (if RestOf(p).Null? then [] else Components(RestOf(p).text))
  {
    hide NameOf, RestOf;
    if p[|p| - 1] != SLASH {
      NameThere(p);
      NotEmpty(NameOf(p));
    }
  }

  lemma RestEnds(p: Text)
    requires RestOf(p).Left? && p != []
    ensures RestOf(p).text[|RestOf(p).text| - 1] == p[|p| - 1]
  {
    SkipShrinks(p);
    var s := SkipSlashes(p);
    assert s[|s| - 1] == p[|p| - 1];
  }

  /** sys_mkdir is meant to go on when the last component is missing and no other. */
  predicate OnlyLastMissing(t: Tree, c: seq<Name>) {
    c != [] && match Walk(t, 0, c[..|c| - 1])
               case Some(d) => d in t.dirs && Lookup(t, d, c[|c| - 1]) == None
               case None => false
  }

  lemma {:induction false} StopMeans(t: Tree, d: nat, c: seq<Name>)
    requires TreeOk(t) && d in t.dirs && GoodNames(c) && c != []
    ensures match Walk(t, d, c[..|c| - 1])
            case Some(x) => x in t.dirs && StopAt(t, d, c) == |c| && (Found(t, d, c) <==> Lookup(t, x, c[|c| - 1]).Some?)
            case None => StopAt(t, d, c) < |c| && !Found(t, d, c)
    decreases |c|
  {
    hide TreeOk, Lookup;
    assert GoodName(c[0]);
    NotEmpty(c[0]);
    FoundIsSubdir(t, d, c[0]);
    if |c| == 1 {
      assert c[..0] == [];
    } else {
      assert c[..|c| - 1][0] == c[0] && c[..|c| - 1][1..] == c[1..][..|c| - 2];
      match Lookup(t, d, c[0])
      case Some(s) =>
        if s.kind == Directory {
          StopMeans(t, s.no, c[1..]);
        }
      case None =>
    }
  }

  /** The test is passed exactly when the search stopped after as many components as the path
      has slashes. */
  lemma PassMeans(t: Tree, p: Text)
    requires TreeOk(t) && Clean(p) && p != [] && p[0] == SLASH
    ensures var c := Components(p);
            && GoodNames(c)
            && (DepthPassed(p, Search(t, p)) <==>
                  !Special(p) && Slashes(p) == StopAt(t, 0, c) && (c == [] || !Found(t, 0, c) || p[|p| - 1] == SLASH))
  {
    hide TreeOk, SearchFrom, Components, Found, StopAt, Slashes;
    RootThere(t);
    if !Special(p) {
      SearchShape(t, 0, p, [], []);
    }
  }

  lemma SlashesThere(p: Text)
    requires p != [] && p[0] == SLASH
    ensures Slashes(p) >= 1
  {
  }

  lemma SpecialFew(p: Text)
    requires Special(p)
    ensures |Components(p)| <= 1 && (Components(p) != [] ==> p[|p| - 1] != SLASH && Components(p)[0] in [DOT, DOTDOT])
  {
    if p == [SLASH] {
      assert SkipSlashes(p) == [];
    } else {
      OneComponent(p);
    }
  }

  /** Where no component but the last is missing the test is passed exactly when the path has
      as many slashes as components: it refuses a path for a slash too many. */
  lemma DepthAccepts(t: Tree, p: Text)
    requires TreeOk(t) && Clean(p) && p != [] && p[0] == SLASH && OnlyLastMissing(t, Components(p))
    ensures DepthPassed(p, Search(t, p)) <==> Slashes(p) == |Components(p)|
  {
    hide TreeOk, Components, Slashes, Lookup, Search;
    var c := Components(p);
    RootThere(t);
    PassMeans(t, p);
    StopMeans(t, 0, c);
    if Special(p) {
      SpecialFew(p);
      assert c[..0] == [];
      DotStays(t, 0);
      DotDotRises(t, 0);
    }
  }

  // ---- the places a path goes through ----

  /** The places the first components of a path lead to, as dotless paths. */
  function Visited(c: seq<Name>): set<seq<Name>> {
    if c == [] then {[]} else Visited(c[..|c| - 1]) + {Wash([], c)}
  }

  /** Those of them just below `s`. */
  function Below(v: set<seq<Name>>, s: seq<Name>): set<seq<Name>> {
    set w | w in v && w != [] && w[..|w| - 1] == s
  }

  /** A directory holds 19 entries besides the first two. */
  predicate Fits(c: seq<Name>) {
    forall s :: s in Visited(c) ==> |Below(Visited(c), s)| <= ENTRIES - 2
  }

  /** The paths for which the test is right, whatever tree there is. With more slashes than
      components it is never passed. With as many it is unless a slash ends the path, where the
      path can be found at all. With fewer it is wrong unless the component it would stop at
      leads back to a place the path has been through, or to it no directory has room to lead. */
  predicate DepthSound(p: Text) {
    var c, k := Components(p), Slashes(p);
    || k > |c|
    || (k == |c| && (p == [] || p[|p| - 1] != SLASH || !Fits(c)))
    || (1 <= k < |c| && (Wash([], c[..k]) in Visited(c[..k - 1]) || !Fits(c[..k - 1])))
  }

  /** Whenever the test is passed, the last component is missing and no other. */
  ghost predicate Right(t: Tree, p: Text) {
    DepthPassed(p, Search(t, p)) ==> OnlyLastMissing(t, Components(p))
  }

  lemma WashSnoc(b: seq<Name>, n: Name)
    ensures Wash([], b + [n]) == Push(Wash([], b), n)
  {
    WashAfter([], b, [n]);
    assert [n][1..] == [];
  }

  lemma {:induction false} VisitedPlaces(c: seq<Name>)
    requires GoodNames(c)
    ensures [] in Visited(c) && Wash([], c) in Visited(c)
    ensures forall v :: v in Visited(c) ==> EntryNames(v) && (v != [] ==> v[..|v| - 1] in Visited(c))
  {
    if c != [] {
      var b, n := c[..|c| - 1], c[|c| - 1];
      assert c == b + [n];
      VisitedPlaces(b);
      WashSnoc(b, n);
      WashedNames([], c);
      var w := Wash([], b);
      if n != DOT && n != DOTDOT {
        assert (w + [n])[..|w|] == w;
      }
    }
  }

  /** A component that leads somewhere new is a name, entered where the ones before lead. */
  lemma NewPlace(b: seq<Name>, n: Name)
    requires GoodNames(b) && GoodName(n) && Wash([], b + [n]) !in Visited(b)
    ensures EntryName(n) && Wash([], b + [n]) == Wash([], b) + [n]
  {
    hide Wash, Visited;
    VisitedPlaces(b);
    WashSnoc(b, n);
  }

  lemma LastThere(t: Tree, b: seq<Name>, n: Name, v: seq<Name>)
    requires TreeOk(t) && GoodNames(b) && GoodName(n) && v == Wash([], b + [n]) && v !in Visited(b)
    requires Walk(t, 0, b).Some? && Walk(t, 0, b).value in t.dirs && Lookup(t, Walk(t, 0, b).value, n).Some?
    ensures v != [] && Walk(t, 0, v[..|v| - 1]) == Walk(t, 0, b) && v[|v| - 1] == n && EntryName(n)
  {
    hide TreeOk, Lookup, Walk, Wash, Visited, GoodName;
    NewPlace(b, n);
    WashKeepsPlace(t, b, Walk(t, 0, b).value);
    var w := Wash([], b);
    assert (w + [n])[..|w|] == w;
  }

  /** What is visited is there, where the path is found. */
  lemma {:induction false} VisitedThere(t: Tree, c: seq<Name>, v: seq<Name>)
    requires TreeOk(t) && GoodNames(c) && Found(t, 0, c) && v in Visited(c) && v != []
    ensures match Walk(t, 0, v[..|v| - 1])
            case Some(x) => x in t.dirs && EntryName(v[|v| - 1]) && Lookup(t, x, v[|v| - 1]).Some?
            case None => false
  {
    hide TreeOk, Lookup, Walk, Found, Wash, EntryName;
    VisitedPlaces(c);
    RootThere(t);
    if c != [] {
      var b, n := c[..|c| - 1], c[|c| - 1];
      assert c == b + [n];
      StopMeans(t, 0, c);
      if v in Visited(b) {
        WalkFound(t, 0, b);
        VisitedThere(t, b, v);
      } else {
        LastThere(t, b, n, v);
      }
    } else {
      assert false;
    }
  }

  lemma {:induction false} WalkFound(t: Tree, d: nat, c: seq<Name>)
    requires Walk(t, d, c).Some? && d in t.dirs
    ensures Found(t, d, c)
    decreases |c|
  {
    hide Lookup;
    if |c| > 1 {
      WalkFound(t, Step(t, d, c[0]).value, c[1..]);
    }
  }

  // ---- no tree has more than it has room for ----

  /** Different names are listed in different places. */
  lemma {:induction false} FewNames(slots: seq<Slot>, a: set<seq<Name>>, s: seq<Name>, k: nat)
    requires k <= |slots| && forall v :: v in a ==> |v| == |s| + 1 && v == s + [v[|s|]] && k <= FindName(slots, v[|s|], 0) < |slots|
    ensures |a| <= |slots| - k
    decreases |slots| - k
  {
    hide FindName;
    if k == |slots| {
      assert a == {} by {
        forall v | v in a
          ensures false
        {
        }
      }
    } else if v :| v in a && FindName(slots, v[|s|], 0) == k {
      forall w | w in a - {v}
        ensures k + 1 <= FindName(slots, w[|s|], 0)
      {
        if FindName(slots, w[|s|], 0) == k {
          SameName(slots, v[|s|], w[|s|]);
        }
      }
      FewNames(slots, a - {v}, s, k + 1);
    } else {
      FewNames(slots, a, s, k + 1);
    }
  }

  lemma SameName(slots: seq<Slot>, m: Name, n: Name)
    requires FindName(slots, m, 0) == FindName(slots, n, 0) < |slots|
    ensures m == n
  {
  }

  /** Where a path is found, it fits. */
  lemma FitsIfFound(t: Tree, c: seq<Name>)
    requires TreeOk(t) && GoodNames(c) && Found(t, 0, c)
    ensures Fits(c)
  {
    hide TreeOk, Lookup, Walk, Found, Visited, FindName;
    forall s | s in Visited(c)
      ensures |Below(Visited(c), s)| <= ENTRIES - 2
    {
      var a := Below(Visited(c), s);
      if v0 :| v0 in a {
        VisitedThere(t, c, v0);
        var x := Walk(t, 0, s).value;
        forall v | v in a
          ensures |v| == |s| + 1 && v == s + [v[|s|]] && 2 <= FindName(t.dirs[x].slots, v[|s|], 0) < |t.dirs[x].slots|
        {
          VisitedThere(t, c, v);
          Listed(t, x, v[|s|]);
        }
        DirSlots(t, x);
        FewNames(t.dirs[x].slots, a, s, 2);
      }
    }
  }

  lemma Listed(t: Tree, x: nat, n: Name)
    requires TreeOk(t) && x in t.dirs && EntryName(n) && Lookup(t, x, n).Some?
    ensures 2 <= FindName(t.dirs[x].slots, n, 0) < |t.dirs[x].slots|
  {
    hide TreeOk;
    NameDescends(t, x, n);
  }

  // ---- and what fits can be made ----

  /** The directories of the tree are places the path goes through, and there are no files. */
  ghost predicate Built(t: Tree, b: seq<Name>) {
    && TreeOk(t) && Walk(t, 0, b).Some? && t.files == {}
    && forall x: nat :: x in t.dirs ==> PathOf(t, x) in Visited(b)
  }

  lemma BuiltRoot()
    ensures Built(EmptyTree(), [])
  {
    hide TreeOk;
    EmptyTreeOk();
  }

  /** Where a place was visited, a step back to it is no step into the unknown. */
  lemma StepBack(t: Tree, b: seq<Name>, n: Name)
    requires TreeOk(t) && GoodNames(b) && GoodName(n) && Wash([], b + [n]) in Visited(b) && Walk(t, 0, b).Some?
    ensures var d := Walk(t, 0, b).value;
            d in t.dirs && Step(t, d, n).Some?
  {
    hide TreeOk, Lookup, Walk, Visited, Wash, GoodName, Step;
    var d := Walk(t, 0, b).value;
    RootThere(t);
    WalkIn(t, 0, b);
    DotStays(t, d);
    DotDotRises(t, d);
    if n != DOT && n != DOTDOT {
      var w := Wash([], b);
      WashSnoc(b, n);
      WashKeepsPlace(t, b, d);
      VisitedWalk(t, b, w + [n]);
      WalkSnoc(t, 0, w, n);
    }
  }

  lemma {:induction false} WalkIn(t: Tree, d: nat, c: seq<Name>)
    requires TreeOk(t) && d in t.dirs && GoodNames(c) && Walk(t, d, c).Some?
    ensures Walk(t, d, c).value in t.dirs
    decreases |c|
  {
    hide TreeOk, Lookup;
    if c != [] {
      assert GoodName(c[0]);
      NotEmpty(c[0]);
      FoundIsSubdir(t, d, c[0]);
      WalkIn(t, Step(t, d, c[0]).value, c[1..]);
    }
  }

  lemma {:induction false} VisitedWalk(t: Tree, c: seq<Name>, v: seq<Name>)
    requires TreeOk(t) && GoodNames(c) && Walk(t, 0, c).Some? && v in Visited(c)
    ensures Walk(t, 0, v).Some?
  {
    hide TreeOk, Walk, Wash;
    if c == [] || v !in Visited(c[..|c| - 1]) {
      WashKeepsPlace(t, c, Walk(t, 0, c).value);
      assert c == [] ==> v == [] == Wash([], c) by { NothingWashed(); }
    } else {
      WalkPrefix(t, 0, c, |c| - 1);
      VisitedWalk(t, c[..|c| - 1], v);
    }
  }

  lemma NothingWashed()
    ensures Wash([], []) == []
  {
  }

  /** A number that is not taken. */
  lemma {:induction false} Unused(m: set<nat>) returns (n: nat)
    ensures n != 0 && forall k :: k in m ==> k < n
  {
    if m == {} {
      n := 1;
    } else {
      var k :| k in m;
      var r := Unused(m - {k});
      n := if k < r then r else k + 1;
      assert forall j :: j in m ==> j == k || j in m - {k};
    }
  }

  /** The paths that the names in the slots from 2 on give. */
  function Listing(slots: seq<Slot>, w: seq<Name>, k: nat): set<seq<Name>>
    requires k <= |slots|
  {
    if k <= 2 then {} else Listing(slots, w, k - 1) + {w + [slots[k - 1].name]}
  }

  lemma {:induction false} ListingIs(slots: seq<Slot>, w: seq<Name>, k: nat, v: seq<Name>) returns (i: nat)
    requires k <= |slots| && v in Listing(slots, w, k)
    ensures 2 <= i < k && v == w + [slots[i].name]
  {
    if v in Listing(slots, w, k - 1) {
      i := ListingIs(slots, w, k - 1, v);
    } else {
      i := k - 1;
    }
  }

  lemma {:induction false} NotInListing(slots: seq<Slot>, w: seq<Name>, k: nat, n: Name)
    requires k <= |slots| && forall i: nat :: 2 <= i < k ==> slots[i].name != n
    ensures w + [n] !in Listing(slots, w, k)
  {
    if k > 2 {
      NotInListing(slots, w, k - 1, n);
      assert (w + [n])[|w|] != (w + [slots[k - 1].name])[|w|];
    }
  }

  lemma {:induction false} ListingSize(slots: seq<Slot>, w: seq<Name>, k: nat)
    requires 2 <= k <= |slots| && forall i: nat, j: nat :: 2 <= i < j < k ==> slots[i].name != slots[j].name
    ensures |Listing(slots, w, k)| == k - 2
  {
    if k > 2 {
      ListingSize(slots, w, k - 1);
      NotInListing(slots, w, k - 1, slots[k - 1].name);
    }
  }

  /** A full directory has 19 entries, all of them places the path goes through. */
  lemma FullSlots(t: Tree, b: seq<Name>, d: nat)
    requires Built(t, b) && d in t.dirs && FindFree(t.dirs[d].slots, 0) == |t.dirs[d].slots|
    ensures |Below(Visited(b), PathOf(t, d))| >= ENTRIES - 2
  {
    hide TreeOk, Visited, Walk, Below, FindFree, Listing;
    var slots, w := t.dirs[d].slots, PathOf(t, d);
    DirSlots(t, d);
    FullNames(t, d);
    ListingSize(slots, w, ENTRIES);
    var a, all := Listing(slots, w, ENTRIES), Below(Visited(b), w);
    forall v | v in a
      ensures v in all
    {
      var i := ListingIs(slots, w, ENTRIES, v);
      SlotPlace(t, d, i);
      IsBelow(Visited(b), w, slots[i].name);
    }
    assert a <= all && |all| == |a| + |all - a|;
  }

  lemma IsBelow(v: set<seq<Name>>, w: seq<Name>, n: Name)
    requires w + [n] in v
    ensures w + [n] in Below(v, w)
  {
    assert (w + [n])[..|w|] == w;
  }

  lemma OneMoreBelow(v: set<seq<Name>>, w: seq<Name>, n: Name)
    requires w + [n] !in v
    ensures |Below(v + {w + [n]}, w)| == |Below(v, w)| + 1
  {
    assert (w + [n])[..|w|] == w;
    assert Below(v + {w + [n]}, w) == Below(v, w) + {w + [n]};
  }

  lemma FullNames(t: Tree, d: nat)
    requires TreeOk(t) && t.files == {} && d in t.dirs && FindFree(t.dirs[d].slots, 0) == |t.dirs[d].slots| == ENTRIES
    ensures forall i: nat, j: nat :: 2 <= i < j < ENTRIES ==> t.dirs[d].slots[i].name != t.dirs[d].slots[j].name
    ensures forall i: nat :: 2 <= i < ENTRIES ==> t.dirs[d].slots[i] != FREE
  {
    hide TreeOk;
    forall i: nat, j: nat | 2 <= i < j < ENTRIES
      ensures t.dirs[d].slots[i].name != t.dirs[d].slots[j].name
    {
      SlotPlace(t, d, i);
      OneOfAName(t, d, i, j);
    }
  }

  lemma SlotPlace(t: Tree, d: nat, i: nat)
    requires TreeOk(t) && t.files == {} && d in t.dirs && |t.dirs[d].slots| == ENTRIES && 2 <= i < ENTRIES && t.dirs[d].slots[i] != FREE
    ensures var s := t.dirs[d].slots[i];
            s.name != [] && s.no in t.dirs && PathOf(t, s.no) == PathOf(t, d) + [s.name]
  {
    hide EntryName;
    var s := t.dirs[d].slots[i];
    assert DirOk(t, d) && EntryOk(t, d, s) && PlaceOk(t, s.no);
    DropIndex(t, d, s.no);
    assert s.name != [] by { NamedSlot(s.name); }
  }

  lemma NamedSlot(n: Name)
    requires EntryName(n)
    ensures n != []
  {
  }

  /** One component more: it leads back, or a directory is made for it. */
  lemma BuildStep(t: Tree, b: seq<Name>, n: Name) returns (t': Tree)
    requires Built(t, b) && GoodNames(b) && GoodName(n) && Fits(b + [n])
    ensures Built(t', b + [n])
  {
    hide TreeOk, Visited, Walk, Wash, Lookup, CanAdd, TreeAdd, GoodName, Below, FindFree;
    var c, d := b + [n], Walk(t, 0, b).value;
    assert c[..|b|] == b;
    RootThere(t);
    WalkIn(t, 0, b);
    WalkSnoc(t, 0, b, n);
    VisitedMore(b, n);
    if Wash([], c) in Visited(b) {
      StepBack(t, b, n);
      t' := t;
    } else {
      NewPlace(b, n);
      HereByName(t, b, d);
      NotThere(t, b, n);
      RoomFor(t, b, n);
      var no := Unused(t.up.Keys);
      var s := Slot(n, no, Directory);
      CanEnter(t, d, s);
      t' := TreeAdd(t, d, s);
      BuiltMore(t, b, d, s);
    }
  }

  lemma VisitedMore(b: seq<Name>, n: Name)
    ensures Visited(b + [n]) == Visited(b) + {Wash([], b + [n])}
  {
    assert (b + [n])[..|b|] == b;
  }

  lemma HereByName(t: Tree, b: seq<Name>, d: nat)
    requires TreeOk(t) && GoodNames(b) && Walk(t, 0, b) == Some(d)
    ensures d in t.dirs && PathOf(t, d) == Wash([], b)
  {
    hide TreeOk, Walk, Wash;
    WashKeepsPlace(t, b, d);
    WashedNames([], b);
    OnlyPath(t, Wash([], b), d);
  }

  /** A name that leads to a place not visited is not listed. */
  lemma NotThere(t: Tree, b: seq<Name>, n: Name)
    requires Built(t, b) && GoodNames(b) && EntryName(n) && Wash([], b) + [n] !in Visited(b)
    ensures var d := Walk(t, 0, b).value;
            d in t.dirs && Lookup(t, d, n) == None
  {
    hide TreeOk, Visited, Walk, Wash, EntryName;
    var d := Walk(t, 0, b).value;
    HereByName(t, b, d);
    NameDescends(t, d, n);
    if Lookup(t, d, n).Some? {
      var i := FindName(t.dirs[d].slots, n, 0);
      DirSlots(t, d);
      SlotPlace(t, d, i);
    }
  }

  /** And there is room for it. */
  lemma RoomFor(t: Tree, b: seq<Name>, n: Name)
    requires Built(t, b) && GoodNames(b) && GoodName(n) && Fits(b + [n]) && Wash([], b + [n]) !in Visited(b)
    ensures var d := Walk(t, 0, b).value;
            d in t.dirs && FindFree(t.dirs[d].slots, 0) < |t.dirs[d].slots|
  {
    hide TreeOk, Visited, Walk, Wash, GoodName, Below;
    var c, d, w := b + [n], Walk(t, 0, b).value, Wash([], b);
    HereByName(t, b, d);
    NewPlace(b, n);
    VisitedMore(b, n);
    VisitedPlaces(b);
    if FindFree(t.dirs[d].slots, 0) == |t.dirs[d].slots| {
      FullSlots(t, b, d);
      OneMoreBelow(Visited(b), w, n);
    }
  }

  lemma CanEnter(t: Tree, d: nat, s: Slot)
    requires TreeOk(t) && d in t.dirs && FindFree(t.dirs[d].slots, 0) < |t.dirs[d].slots| && s.kind == Directory
    requires EntryName(s.name) && Lookup(t, d, s.name) == None && s.no != 0 && s.no !in t.up
    ensures CanAdd(t, d, s) && d in t.depth
  {
    DirSlots(t, d);
    NotListed(t, d, s.name);
  }

  lemma BuiltMore(t: Tree, b: seq<Name>, d: nat, s: Slot)
    requires Built(t, b) && GoodNames(b) && Walk(t, 0, b) == Some(d) && d in t.dirs && CanAdd(t, d, s) && d in t.depth && s.kind == Directory
    requires Wash([], b + [s.name]) == Wash([], b) + [s.name]
    ensures Built(TreeAdd(t, d, s), b + [s.name])
  {
    hide TreeOk, Visited, Walk, Wash, Lookup, CanAdd, GoodName, PlaceOk, DirOk;
    var t', c, w := TreeAdd(t, d, s), b + [s.name], Wash([], b);
    AddKeepsTree(t, d, s);
    NewIsThere(t, d, s);
    VisitedMore(b, s.name);
    WalkKept(t, d, s, 0, b);
    WalkSnoc(t', 0, b, s.name);
    HereByName(t, b, d);
    WashedNames([], b);
    NamesGood(w);
    WashKeepsPlace(t, b, d);
    WalkKept(t, d, s, 0, w);
    WalkSnoc(t', 0, w, s.name);
    NewNamed(t, d, s);
    forall x: nat | x in t'.dirs
      ensures PathOf(t', x) in Visited(c)
    {
      if x == s.no {
        OnlyPath(t', w + [s.name], x);
      } else {
        PathLeadsTo(t, x);
        NamesGood(PathOf(t, x));
        WalkKept(t, d, s, 0, PathOf(t, x));
        OnlyPath(t', PathOf(t, x), x);
      }
    }
  }

  lemma NewNamed(t: Tree, d: nat, s: Slot)
    requires CanAdd(t, d, s) && d in t.depth && s.kind == Directory
    ensures EntryName(s.name) && TreeAdd(t, d, s).files == t.files && forall x: nat :: x in TreeAdd(t, d, s).dirs ==> x == s.no || x in t.dirs
  {
  }

  lemma {:induction false} Build(b: seq<Name>) returns (t: Tree)
    requires GoodNames(b) && Fits(b)
    ensures Built(t, b)
  {
    hide Built, GoodName, Fits;
    if b == [] {
      t := EmptyTree();
      BuiltRoot();
    } else {
      var a, n := b[..|b| - 1], b[|b| - 1];
      assert b == a + [n];
      FitsBefore(a, n);
      assert GoodName(n);
      var t0 := Build(a);
      t := BuildStep(t0, a, n);
    }
  }

  lemma FitsBefore(a: seq<Name>, n: Name)
    requires Fits(a + [n])
    ensures Fits(a)
  {
    hide Visited, Wash;
    VisitedMore(a, n);
    forall s | s in Visited(a)
      ensures |Below(Visited(a), s)| <= ENTRIES - 2
    {
      var few, more := Below(Visited(a), s), Below(Visited(a + [n]), s);
      assert few <= more && |more| == |few| + |more - few|;
    }
  }

  // ---- the test ----

  /** A path of that kind is judged rightly in every tree. */
  lemma SoundIsRight(t: Tree, p: Text)
    requires TreeOk(t) && Clean(p) && p != [] && p[0] == SLASH && DepthSound(p)
    ensures Right(t, p)
  {
    hide TreeOk, Components, Slashes, Lookup, Search, Fits, Visited, Wash, Walk, StopAt, Found;
    var c, k := Components(p), Slashes(p);
    RootThere(t);
    PassMeans(t, p);
    SlashesThere(p);
    if DepthPassed(p, Search(t, p)) {
      StopMeans(t, 0, c);
      if k == |c| {
        if Found(t, 0, c) {
          FitsIfFound(t, c);
        }
      } else {
        StoppedShort(t, c, k);
      }
    }
  }

  /** Where a search stops before the last component, that component leads to no place the path
      has been through, and the ones before it fit. */
  lemma StoppedShort(t: Tree, c: seq<Name>, k: nat)
    requires TreeOk(t) && GoodNames(c) && 1 <= k < |c| && StopAt(t, 0, c) == k
    ensures Wash([], c[..k]) !in Visited(c[..k - 1]) && Fits(c[..k - 1])
  {
    hide TreeOk, Lookup, Fits, Visited, Wash, Walk, StopAt, Found, Step;
    RootThere(t);
    var b, n := c[..k - 1], c[k - 1];
    assert c[..k] == b + [n];
    StopsAt(t, 0, c, k);
    WalkFound(t, 0, b);
    FitsIfFound(t, b);
    if Wash([], b + [n]) in Visited(b) {
      StepBack(t, b, n);
    }
  }

  lemma {:induction false} StopsAt(t: Tree, d: nat, c: seq<Name>, k: nat)
    requires TreeOk(t) && d in t.dirs && GoodNames(c) && 1 <= k < |c|
    ensures StopAt(t, d, c) == k <==> match Walk(t, d, c[..k - 1])
                                     case Some(x) => Step(t, x, c[k - 1]) == None
                                     case None => false
    decreases |c|
  {
    hide TreeOk, Lookup;
    assert GoodName(c[0]);
    NotEmpty(c[0]);
    FoundIsSubdir(t, d, c[0]);
    if k == 1 {
      assert c[..0] == [];
      if Step(t, d, c[0]).Some? {
        SomeStop(t, Step(t, d, c[0]).value, c[1..]);
      }
    } else {
      assert c[..k - 1][0] == c[0] && c[..k - 1][1..] == c[1..][..k - 2];
      if Step(t, d, c[0]).Some? {
        StopsAt(t, Step(t, d, c[0]).value, c[1..], k - 1);
      }
    }
  }

  lemma SomeStop(t: Tree, d: nat, c: seq<Name>)
    requires d in t.dirs && c != []
    ensures StopAt(t, d, c) >= 1
  {
    hide Lookup;
  }

  /** A slash at the end and all components there: there is nothing to make. */
  lemma WrongAtEnd(t: Tree, p: Text)
    requires Clean(p) && p != [] && p[0] == SLASH && p[|p| - 1] == SLASH && Slashes(p) == |Components(p)|
    requires Built(t, Components(p))
    ensures !Right(t, p)
  {
    hide TreeOk, Slashes, Lookup, Search, Visited, StopAt, Found, PathOf;
    var c := Components(p);
    if Special(p) {
      SpecialFew(p);
    }
    SlashesThere(p);
    RootThere(t);
    PassMeans(t, p);
    WalkFound(t, 0, c);
    StopMeans(t, 0, c);
  }

  /** A component missing before the last. */
  lemma WrongShort(t: Tree, p: Text)
    requires Clean(p) && p != [] && p[0] == SLASH && 1 <= Slashes(p) < |Components(p)| && GoodNames(Components(p))
    requires var c, k := Components(p), Slashes(p);
             Built(t, c[..k - 1]) && Wash([], c[..k]) !in Visited(c[..k - 1])
    ensures !Right(t, p)
  {
    hide TreeOk, Slashes, Search, Visited, Wash, Walk, StopAt, Found, Components, OnlyLastMissing;
    if Special(p) {
      SpecialFew(p);
    }
    PassMeans(t, p);
    ShortStops(t, Components(p), Slashes(p));
  }

  lemma ShortStops(t: Tree, c: seq<Name>, k: nat)
    requires 1 <= k < |c| && GoodNames(c) && Built(t, c[..k - 1]) && Wash([], c[..k]) !in Visited(c[..k - 1])
    ensures StopAt(t, 0, c) == k && !Found(t, 0, c) && !OnlyLastMissing(t, c)
  {
    hide TreeOk, Visited, Wash, Walk, StopAt, Found, PathOf, Lookup;
    var b, n := c[..k - 1], c[k - 1];
    assert c[..k] == b + [n];
    RootThere(t);
    NewPlace(b, n);
    NotThere(t, b, n);
    StopsAt(t, 0, c, k);
    StopMeans(t, 0, c);
  }

  /** For any other path there is a tree in which it is not. */
  lemma UnsoundIsWrong(p: Text) returns (t: Tree)
    requires Clean(p) && p != [] && p[0] == SLASH && !DepthSound(p)
    ensures TreeOk(t) && !Right(t, p)
  {
    hide TreeOk, Right, Slashes, Fits, Visited, Wash, Walk, PathOf, Components;
    var c, k := Components(p), Slashes(p);
    SlashesThere(p);
    if k == |c| {
      t := Build(c);
      WrongAtEnd(t, p);
    } else {
      t := Build(c[..k - 1]);
      WrongShort(t, p);
    }
  }

  /** The depth test of sys_mkdir lets through, in any tree whatever, only paths of which the
      last component alone is missing, if and only if the path is of that kind. */
  lemma DepthTestExact(p: Text)
    requires Clean(p) && p != [] && p[0] == SLASH
    ensures (forall t: Tree :: TreeOk(t) ==> Right(t, p)) <==> DepthSound(p)
  {
    hide TreeOk, Right, DepthSound;
    if DepthSound(p) {
      forall t: Tree | TreeOk(t)
        ensures Right(t, p)
      {
        SoundIsRight(t, p);
      }
    } else {
      var t := UnsoundIsWrong(p);
    }
  }

  /** A path without a component of more than 15 characters is. */
  lemma {:induction false} NoLongSound(p: Text)
    requires NoLong(p) && Clean(p) && p != [] && p[0] == SLASH
    ensures Slashes(p) >= |Components(p)| && (Slashes(p) == |Components(p)| ==> p[|p| - 1] != SLASH)
    ensures DepthSound(p)
    decreases |p|
  {
    hide Slashes, NameOf, RestOf, Fits, Visited, Wash;
    SlashesThere(p);
    if NameOf(p) != [] {
      if RestOf(p).Left? {
        RestBegins(p);
        NameIsPart(p);
        var q := RestOf(p).text;
        SlashesMore(p, q);
        NoLongSound(q);
        assert p[|p| - 1] == q[|q| - 1];
      } else {
        LastComponentEnds(p);
      }
    }
  }

  // ---- what follows for sys_mkdir ----

  lemma {:induction false} LastMissed(t: Tree, d: nat, p: Text, names: seq<Name>, via: seq<nat>)
    requires TreeOk(t) && d in t.dirs && d == At(ParentOf(via)) && Clean(p) && Components(p) != []
    requires var c := Components(p);
             match Walk(t, d, c[..|c| - 1]) case Some(x) => x in t.dirs && Lookup(t, x, c[|c| - 1]) == None case None => false
    ensures var o, c := SearchFrom(t, d, p, names, via), Components(p);
            o.no == -1 && o.parent != NoDir && Some(At(o.parent)) == Walk(t, d, c[..|c| - 1]) && o.names == names + c
    decreases |p|
  {
    hide TreeOk, Lookup, NameOf, RestOf, Components;
    assert p != [] by { NothingNamed(); }
    NamedUnlessSlash(p);
    var c, n := Components(p), NameOf(p);
    NotNothing(p);
    if |c| == 1 {
      assert c[..0] == [] && c == [n];
    } else {
      var q := RestOf(p).text;
      NameIsPart(p);
      assert c[1..] == Components(q);
      assert c[..|c| - 1][0] == n && c[..|c| - 1][1..] == Components(q)[..|Components(q)| - 1];
      FoundIsSubdir(t, d, n);
      var s := Lookup(t, d, n).value;
      LastMissed(t, s.no, q, names + [n], via + [s.no]);
      assert names + [n] + Components(q) == names + c;
    }
  }

  lemma NotNothing(p: Text)
    requires Components(p) != []
    ensures NameOf(p) != [] && Components(p)[0] == NameOf(p) && (|Components(p)| > 1 ==> RestOf(p).Left?)
  {
    hide NameOf, RestOf;
  }

  /** By such a path sys_mkdir goes on just where the last component can be entered: it does not
      come to a null pointer, and what it enters is that component, which was not listed. */
  lemma NeverMisled(t: Tree, p: Text)
    requires TreeOk(t) && Clean(p) && p != [] && p[0] == SLASH && DepthSound(p) && DepthPassed(p, Search(t, p))
    ensures var o, c := Search(t, p), Components(p);
            && o.parent != NoDir && At(o.parent) in t.dirs && c != [] && o.names == c
            && Lookup(t, At(o.parent), c[|c| - 1]) == None
  {
    hide TreeOk, Components, Slashes, Lookup, SearchFrom, DepthSound, Walk, Special;
    SoundIsRight(t, p);
    RootThere(t);
    LastMissed(t, 0, p, [], []);
    assert [] + Components(p) == Components(p);
  }

  /** A name of more than 15 characters, right below the root: if there is no directory of its
      first 15 the test is passed, and those are what sys_mkdir enters; if they name a file it
      comes to the null pointer. */
  lemma LongNameCut(t: Tree, a: Name, x: Name)
    requires TreeOk(t) && EntryName(a) && |a| == MAX_FILE_NAME_LEN - 1 && GoodName(x)
    ensures var o := Search(t, [SLASH] + a + x);
            && (DepthPassed([SLASH] + a + x, o) <==> !(0 in t.dirs && Lookup(t, 0, a).Some? && Lookup(t, 0, a).value.kind == Directory))
            && (DepthPassed([SLASH] + a + x, o) ==> o.names == [a] && (o.parent == NoDir <==> Lookup(t, 0, a).Some?))
  {
    hide TreeOk, Lookup, NameOf, RestOf, GoodName;
    var p := [SLASH] + a + x;
    NotEmpty(x);
    RootThere(t);
    LongFalls(a, x) by { NoSlashIn(a); }
    FoundIsSubdir(t, 0, a);
    assert [] + [a] == [a];
    SlashesOnce(p, a, x);
    if Lookup(t, 0, a).Some? && Lookup(t, 0, a).value.kind == Directory {
      var e := Lookup(t, 0, a).value.no;
      NameAlone(x);
      FoundIsSubdir(t, e, x);
      assert [] + [e] == [e] && |[a] + [x]| == 2;
      assert SearchFrom(t, e, x, [a], [e]).names == [a] + [x];
      assert SearchFrom(t, 0, p, [], []) == SearchFrom(t, e, x, [a], [e]);
    }
  }

  lemma NoSlashIn(a: Name)
    requires GoodName(a)
    ensures SLASH !in a
  {
  }

  lemma NameAlone(x: Name)
    requires GoodName(x)
    ensures NameOf(x) == x && RestOf(x) == Null
  {
    HeadOf(x, [], MAX_FILE_NAME_LEN - 1);
    assert x + [] == x && SkipSlashes(x) == x;
  }

  lemma SlashesOnce(p: Text, a: Name, x: Name)
    requires p == [SLASH] + a + x && GoodName(a) && GoodName(x)
    ensures Slashes(p) == 1
  {
    SlashesOf([SLASH] + a, x);
    SlashesOf([SLASH], a);
    NoSlashes(a);
    NoSlashes(x);
    assert [SLASH][1..] == [];
  }
}
