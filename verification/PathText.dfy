/** Paths as text: taking components off a path, and washing "." and ".." out of it. */
module PathText {
  import opened Bytes
  import opened DirTree

  /** A C string without its NUL. */
  type Text = seq<byte>

  predicate Clean(p: Text) {
    0 !in p
  }

  // ---- path_parse ----

  datatype Rest = Null | Left(text: Text)

  function SkipSlashes(p: Text): Text {
    if p != [] && p[0] == SLASH then SkipSlashes(p[1..]) else p
  }

  /** At most `n` bytes, up to a slash or the end. */
  function Head(p: Text, n: nat): (r: Text)
    ensures |r| <= n && |r| <= |p| && r == p[..|r|]
    ensures SLASH !in r
    ensures |r| < n && |r| < |p| ==> p[|r|] == SLASH
  {
    if n == 0 || p == [] || p[0] == SLASH then [] else [p[0]] + Head(p[1..], n - 1)
  }

  lemma SkipShrinks(p: Text)
    ensures |SkipSlashes(p)| <= |p|
    ensures SkipSlashes(p) == p[|p| - |SkipSlashes(p)|..]
    ensures SkipSlashes(p) != [] ==> SkipSlashes(p)[0] != SLASH
  {
  }

  function NameOf(p: Text): (n: Text)
    ensures |n| < MAX_FILE_NAME_LEN && SLASH !in n
  {
    Head(SkipSlashes(p), MAX_FILE_NAME_LEN - 1)
  }

  /** The name and what is left are runs of the path. */
  lemma NameIsPart(p: Text)
    ensures Clean(p) ==> Clean(NameOf(p)) && (RestOf(p).Left? ==> Clean(RestOf(p).text))
  {
    SkipShrinks(p);
  }

  function RestOf(p: Text): (r: Rest)
    ensures r.Left? ==> r.text != [] && (NameOf(p) != [] ==> |r.text| < |p|)
  {
    SkipShrinks(p);
    var q := SkipSlashes(p)[|NameOf(p)|..];
    if q == [] then Null else Left(q)
  }

  method PathParse(pathname: Text) returns (name: Text, rest: Rest)
    ensures name == NameOf(pathname) && rest == RestOf(pathname)
  {
    var p := pathname;
    if p != [] && p[0] == SLASH {
      p := p[1..];
      while p != [] && p[0] == SLASH
        invariant SkipSlashes(p) == SkipSlashes(pathname)
      {
        p := p[1..];
      }
    }
    ghost var q, h := p, Head(p, MAX_FILE_NAME_LEN - 1);
    assert forall i :: 0 <= i < |h| ==> q[i] == h[i] && h[i] != SLASH;
    var cnt := 0;
    name := [];
    while p != [] && p[0] != SLASH && cnt < MAX_FILE_NAME_LEN - 1
      invariant cnt <= |h| && name == q[..cnt] && p == q[cnt..]
    {
      assert cnt < |h| by {
        assert p[0] == q[cnt];
      }
      name := name + [p[0]];
      p := p[1..];
      cnt := cnt + 1;
    }
    rest := if p == [] then Null else Left(p);
  }

  /** The components a caller gets that parses until a name comes back empty or nothing is left. */
  function Components(p: Text): (c: seq<Name>)
    ensures Clean(p) ==> forall i :: 0 <= i < |c| ==> GoodName(c[i])
    decreases |p|
  {
    NameIsPart(p);
    if NameOf(p) == [] then []
    else [NameOf(p)] + (if RestOf(p).Null? then [] else Components(RestOf(p).text))
  }

  // ---- the text of a list of components ----

  function Join(c: seq<Name>): Text {
    if c == [] then [] else [SLASH] + c[0] + Join(c[1..])
  }

  function Render(c: seq<Name>): Text {
    if c == [] then [SLASH] else Join(c)
  }

  ghost predicate GoodNames(c: seq<Name>) {
    forall i :: 0 <= i < |c| ==> GoodName(c[i])
  }

  ghost predicate EntryNames(c: seq<Name>) {
    forall i :: 0 <= i < |c| ==> EntryName(c[i])
  }

  lemma {:induction false} HeadOf(n: Name, u: Text, k: nat)
    requires |n| <= k && SLASH !in n && (u == [] || u[0] == SLASH)
    ensures Head(n + u, k) == n
  {
    if n == [] {
      assert n + u == u;
    } else {
      assert (n + u)[0] == n[0] && (n + u)[1..] == n[1..] + u;
      HeadOf(n[1..], u, k - 1);
    }
  }

  lemma FirstOfText(n: Name, u: Text)
    requires GoodName(n) && (u == [] || u[0] == SLASH)
    ensures NameOf([SLASH] + n + u) == n
    ensures RestOf([SLASH] + n + u) == if u == [] then Null else Left(u)
  {
    hide Head;
    var p := [SLASH] + n + u;
    assert p[1..] == n + u && (n + u)[0] == n[0];
    assert SkipSlashes(p) == n + u;
    HeadOf(n, u, MAX_FILE_NAME_LEN - 1);
    assert (n + u)[|n|..] == u;
  }

  lemma FirstComponent(n: Name, u: Text)
    requires GoodName(n) && (u == [] || u[0] == SLASH)
    ensures Components([SLASH] + n + u) == [n] + Components(u)
  {
    hide NameOf, RestOf, GoodName;
    FirstOfText(n, u);
    assert n != [] by { NotEmpty(n); }
    NothingNamed();
  }

  lemma NotEmpty(n: Name)
    requires GoodName(n)
    ensures n != []
  {
  }

  lemma NothingNamed()
    ensures NameOf([]) == [] && Components([]) == []
  {
  }

  /** Parsing what was put together from good names gives the names back, and then
      whatever the text that follows gives. */
  lemma {:induction false} ComponentsOfJoin(c: seq<Name>, u: Text)
    requires GoodNames(c) && (u == [] || u[0] == SLASH)
    ensures Components(Join(c) + u) == c + Components(u)
  {
    hide Components, GoodName;
    if c == [] {
      assert Join(c) + u == u;
    } else {
      var v := Join(c[1..]) + u;
      assert Join(c) + u == [SLASH] + c[0] + v;
      assert v == [] || v[0] == SLASH;
      FirstComponent(c[0], v);
      ComponentsOfJoin(c[1..], u);
      assert [c[0]] + (c[1..] + Components(u)) == c + Components(u);
    }
  }

  lemma ComponentsOfRender(c: seq<Name>)
    requires GoodNames(c)
    ensures Components(Render(c)) == c
  {
    if c == [] {
      assert SkipSlashes([SLASH]) == [];
    } else {
      ComponentsOfJoin(c, []);
      assert Join(c) + [] == Join(c) && Components([]) == [];
    }
  }

  lemma {:induction false} JoinSnoc(c: seq<Name>, n: Name)
    ensures Join(c + [n]) == Join(c) + [SLASH] + n
  {
    if c == [] {
      assert [n][1..] == [];
    } else {
      assert (c + [n])[1..] == c[1..] + [n];
      JoinSnoc(c[1..], n);
    }
  }

  // ---- wash_path ----

  /** One component read on a stack of names: "." is passed over, ".." takes the top off,
      and the root absorbs it. */
  function Push(stack: seq<Name>, n: Name): seq<Name> {
    if n == DOTDOT then (if stack == [] then [] else stack[..|stack| - 1])
    else if n == DOT then stack else stack + [n]
  }

  function Wash(stack: seq<Name>, c: seq<Name>): seq<Name>
    decreases |c|
  {
    if c == [] then stack else Wash(Push(stack, c[0]), c[1..])
  }

  /** strrchr(s, '/') as an index, |s| when there is no slash. */
  function LastSlash(s: Text): (i: nat)
    ensures i <= |s| && (i < |s| ==> s[i] == SLASH)
    ensures forall j :: i < j < |s| ==> s[j] != SLASH
  {
    if s == [] then 0
    else if s[|s| - 1] == SLASH then |s| - 1
    else var i := LastSlash(s[..|s| - 1]); if i == |s| - 1 then |s| else i
  }

  lemma {:induction false} LastSlashOf(a: Text, n: Name)
    requires SLASH !in n
    ensures LastSlash(a + [SLASH] + n) == |a|
  {
    var s := a + [SLASH] + n;
    if n != [] {
      assert s[|s| - 1] == n[|n| - 1];
      assert s[..|s| - 1] == a + [SLASH] + n[..|n| - 1];
      LastSlashOf(a, n[..|n| - 1]);
    }
  }

  lemma {:induction false} HasSlash(s: Text, i: nat)
    requires i < |s| && s[i] == SLASH
    ensures i <= LastSlash(s) < |s|
  {
    if s[|s| - 1] != SLASH {
      HasSlash(s[..|s| - 1], i);
    }
  }

  method WashPath(oldAbsPath: Text) returns (newAbsPath: Text)
    requires Clean(oldAbsPath) && oldAbsPath != [] && oldAbsPath[0] == SLASH
    ensures newAbsPath == Render(Wash([], Components(oldAbsPath)))
  {
    hide Head, NameOf, RestOf, SkipSlashes, LastSlash, Join, GoodName;
    var name, subPath := PathParse(oldAbsPath);
    NameIsPart(oldAbsPath);
    if name == [] {
      return [SLASH];
    }
    newAbsPath := [SLASH];
    ghost var stack: seq<Name>, todo := [], Components(oldAbsPath);
    while name != []
      invariant newAbsPath == Render(stack) && GoodNames(stack) && (newAbsPath == [SLASH] <==> stack == [])
      invariant Wash([], Components(oldAbsPath)) == Wash(stack, todo)
      invariant GoodNames(todo)
      invariant if name == [] then todo == []
                else todo == [name] + (if subPath.Null? then [] else Components(subPath.text))
      invariant subPath.Left? ==> Clean(subPath.text)
      decreases |todo|
    {
      ghost var was := stack;
      stack := Push(stack, name);
      if name == DOTDOT {
        if was == [] {
          HasSlash(newAbsPath, 0);
        } else {
          Top(was);
        }
        var slash := LastSlash(newAbsPath);
        if slash != 0 {
          newAbsPath := newAbsPath[..slash];
        } else {
          newAbsPath := newAbsPath[..1];
        }
      } else if name != DOT {
        if newAbsPath != [SLASH] {
          newAbsPath := newAbsPath + [SLASH];
        }
        newAbsPath := newAbsPath + name;
        PushText(was, name);
      }
      RenderRoot(stack);
      todo := todo[1..];
      name := [];
      if subPath.Left? {
        NameIsPart(subPath.text);
        name, subPath := PathParse(subPath.text);
      }
    }
  }

  /** A relative path is taken from the current directory. */
  function AbsText(cwd: Text, path: Text): Text {
    if path != [] && path[0] == SLASH then path
    else cwd + (if cwd == [SLASH] then [] else [SLASH]) + path
  }

  /** `cwd` is what getcwd gives, which is nothing when it fails: then a relative path stops the
      call in the assertion of wash_path. */
  method MakeClearAbsPath(cwd: Text, path: Text) returns (finalPath: Text, halted: bool)
    requires Clean(cwd) && (cwd != [] ==> cwd[0] == SLASH) && Clean(path)
    ensures halted <==> cwd == [] && (path == [] || path[0] != SLASH)
    ensures !halted ==> finalPath == Render(Wash([], Components(AbsText(cwd, path))))
    ensures path != [] && path[0] == SLASH ==> finalPath == Render(Wash([], Components(path)))
    ensures !halted && (path == [] || path[0] != SLASH) && cwd == Render(Components(cwd)) ==>
              finalPath == Render(Wash([], Components(cwd) + Components(path)))
  {
    hide Components, Wash, Render;
    if (path == [] || path[0] != SLASH) && cwd == Render(Components(cwd)) {
      ComponentsOfAbs(Components(cwd), path);
    }
    var absPath := [];
    if path == [] || path[0] != SLASH {
      if cwd != [] {
        absPath := cwd;
        if !(absPath[0] == SLASH && |absPath| == 1) {
          absPath := absPath + [SLASH];
        }
      }
    }
    absPath := absPath + path;
    if absPath == [] || absPath[0] != SLASH {
      return [], true;  // ASSERT(old_abs_path[0] == '/')
    }
    halted := false;
    assert absPath == AbsText(cwd, path);
    finalPath := WashPath(absPath);
  }

  /** The components of a relative path come after those of the current directory. */
  lemma ComponentsOfAbs(c: seq<Name>, path: Text)
    requires GoodNames(c) && (path == [] || path[0] != SLASH)
    ensures Components(AbsText(Render(c), path)) == c + Components(path)
  {
    hide Components, GoodName;
    RenderRoot(c);
    var u := [SLASH] + path;
    SlashBefore(path);
    ComponentsOfJoin(c, u);
    if c == [] {
      assert AbsText(Render(c), path) == u;
      assert c + Components(path) == Components(path);
    } else {
      assert AbsText(Render(c), path) == Join(c) + u;
    }
  }

  lemma SlashBefore(path: Text)
    requires path == [] || path[0] != SLASH
    ensures Components([SLASH] + path) == Components(path)
  {
    var u := [SLASH] + path;
    assert SkipSlashes(u) == SkipSlashes(path) by {
      assert u[1..] == path;
    }
    assert NameOf(u) == NameOf(path) && RestOf(u) == RestOf(path);
  }

  /** The text without its last component is that of the stack without its top. */
  lemma Top(stack: seq<Name>)
    requires stack != [] && GoodNames(stack)
    ensures var below := stack[..|stack| - 1];
            var slash := LastSlash(Render(stack));
            && slash < |Render(stack)|
            && (if slash != 0 then Render(stack)[..slash] else Render(stack)[..1]) == Render(below)
  {
    hide LastSlash;
    var below, n := stack[..|stack| - 1], stack[|stack| - 1];
    assert stack == below + [n];
    JoinSnoc(below, n);
    LastSlashOf(Join(below), n);
    assert Join(stack)[..|Join(below)|] == Join(below);
    assert Join(stack)[0] == SLASH;
  }

  lemma PushText(stack: seq<Name>, n: Name)
    requires GoodNames(stack) && n != []
    ensures Render(stack + [n]) == Render(stack) + (if stack == [] then [] else [SLASH]) + n
  {
    JoinSnoc(stack, n);
    assert Join([n]) == [SLASH] + n by {
      assert [n][1..] == [];
    }
    if stack == [] {
      assert stack + [n] == [n];
    }
  }

  lemma RenderRoot(c: seq<Name>)
    requires GoodNames(c)
    ensures Render(c) != [] && Render(c)[0] == SLASH
    ensures Render(c) == [SLASH] <==> c == []
  {
  }
}
