/** The sort of edges by their upper end. */
module EdgeSort {
  // Quicksort with the median of three, whose scans have no bound of their own, and the insertion
  // sort that finishes it.

  import opened Numbers

  /** stbtt__edge */
  datatype Edge = Edge(x0: real, y0: real, x1: real, y1: real, invert: int)

  /** STBTT__COMPARE */
  predicate Compare(a: Edge, b: Edge) {
    a.y0 < b.y0
  }

  ghost predicate Sorted(s: seq<Edge>) {
    forall i, j :: 0 <= i < j < |s| ==> s[i].y0 <= s[j].y0
  }

  ghost predicate Permutation(s: seq<Edge>, t: seq<Edge>) {
    multiset(s) == multiset(t)
  }

  /** t is s with entries moved about between lo and lo + n and nowhere else. */
  ghost predicate Shuffled(s: seq<Edge>, t: seq<Edge>, lo: nat, n: nat) {
    && |s| == |t| && lo + n <= |s| && Permutation(s, t)
    && forall k :: 0 <= k < |s| && !(lo <= k < lo + n) ==> t[k] == s[k]
  }

  function Swapped(s: seq<Edge>, i: nat, j: nat): (t: seq<Edge>)
    requires i < |s| && j < |s|
    ensures |t| == |s|
  {
    s[i := s[j]][j := s[i]]
  }

  lemma SwapPermutes(s: seq<Edge>, i: nat, j: nat)
    requires i < |s| && j < |s|
    ensures Permutation(s, Swapped(s, i, j))
  {
    assert multiset(s[i := s[j]]) == multiset(s) - multiset{s[i]} + multiset{s[j]};
  }

  lemma ShuffledMore(s: seq<Edge>, t: seq<Edge>, u: seq<Edge>, lo: nat, n: nat, lo': nat, n': nat)
    requires Shuffled(s, t, lo, n) && Shuffled(t, u, lo', n') && lo <= lo' && lo' + n' <= lo + n
    ensures Shuffled(s, u, lo, n)
  {
  }

  lemma ShuffledNone(s: seq<Edge>, lo: nat, n: nat)
    requires lo + n <= |s|
    ensures Shuffled(s, s, lo, n)
  {
  }

  lemma SwapShuffles(s: seq<Edge>, t: seq<Edge>, i: nat, j: nat, lo: nat, n: nat)
    requires lo + n <= |s| == |t| && lo <= i < lo + n && lo <= j < lo + n && t == Swapped(s, i, j)
    ensures Shuffled(s, t, lo, n)
  {
    SwapPermutes(s, i, j);
  }

  method Swap(p: array<Edge>, i: nat, j: nat)
    requires i < p.Length && j < p.Length
    modifies p
    ensures p[..] == Swapped(old(p[..]), i, j)
    ensures p[i] == old(p[j]) && p[j] == old(p[i]) && forall k :: 0 <= k < p.Length && k != i && k != j ==> p[k] == old(p[k])
  {
    p[i], p[j] := p[j], p[i];
  }

  // ---- insertion sort ----

  /** One entry, held in t, goes down to its place among the sorted ones before it. */
  method Insert(p: array<Edge>, lo: nat, i: nat)
    requires lo + i < p.Length && Sorted(p[lo..lo + i])
    modifies p
    ensures Sorted(p[lo..lo + i + 1]) && Shuffled(old(p[..]), p[..], lo, i + 1)
  {
    hide Permutation, Sorted, Shuffled;
    var t := p[lo + i];
    var j := lo + i;
    ghost var was := p[..];
    HoleStart(was, j);
    while j > lo
      invariant lo <= j <= lo + i
      invariant Shifted(was, p[..], j, lo + i, t)
      invariant Permutation(was, p[..][j := t])
    {
      if !Compare(t, p[j - 1]) {
        break;
      }
      HoleStep(was, p[..], j, lo + i, t);
      p[j] := p[j - 1];
      j := j - 1;
    }
    InsertedSorted(was, p[..], lo, i, t, j);
    if lo + i != j {
      p[j] := t;
    }
    assert p[..] == p[..][j := t];
  }

  /** With a hole at j, what was at j..top - 1 is one place further up, all of it greater than t. */
  ghost predicate Shifted(was: seq<Edge>, s: seq<Edge>, j: nat, top: nat, t: Edge) {
    && |s| == |was| && j <= top < |s| && was[top] == t
    && (forall k :: 0 <= k < |s| && !(j < k <= top) && (k != j || j == top) ==> s[k] == was[k])
    && (forall k :: j < k <= top ==> s[k] == was[k - 1] && Compare(t, s[k]))
    && (j < top ==> s[j] == was[j])
  }

  lemma HoleStart(was: seq<Edge>, j: nat)
    requires j < |was|
    ensures Shifted(was, was, j, j, was[j]) && Permutation(was, was[j := was[j]])
  {
    assert was[j := was[j]] == was;
  }

  lemma HoleStep(was: seq<Edge>, s: seq<Edge>, j: nat, top: nat, t: Edge)
    requires Shifted(was, s, j, top, t) && Permutation(was, s[j := t]) && 0 < j && Compare(t, s[j - 1])
    ensures Shifted(was, s[j := s[j - 1]], j - 1, top, t)
    ensures Permutation(was, s[j := s[j - 1]][j - 1 := t])
  {
    HoleSwap(was, s, j, t);
    hide Permutation;
  }

  lemma HoleSwap(was: seq<Edge>, s: seq<Edge>, j: nat, t: Edge)
    requires 0 < j < |s| && Permutation(was, s[j := t])
    ensures Permutation(was, s[j := s[j - 1]][j - 1 := t])
  {
    hide Permutation;
    SwapPermutes(s[j := t], j, j - 1);
    assert s[j := s[j - 1]][j - 1 := t] == Swapped(s[j := t], j, j - 1);
    PermutedMore(was, s[j := t], s[j := s[j - 1]][j - 1 := t]);
  }

  lemma PermutedMore(s: seq<Edge>, t: seq<Edge>, u: seq<Edge>)
    requires Permutation(s, t) && Permutation(t, u)
    ensures Permutation(s, u)
  {
  }

  /** The sorted part with the new entry in its hole, place by place. */
  ghost predicate Inserted(w: seq<Edge>, r: seq<Edge>, t: Edge, m: nat) {
    && m <= |w| && |r| == |w| + 1
    && (forall a :: 0 <= a < m ==> r[a] == w[a])
    && r[m] == t
    && (forall a :: m < a <= |w| ==> r[a] == w[a - 1] && Compare(t, r[a]))
  }

  lemma InsertedHere(was: seq<Edge>, s: seq<Edge>, lo: nat, i: nat, t: Edge, j: nat)
    requires lo <= j && Shifted(was, s, j, lo + i, t)
    ensures lo + i < |s| && Inserted(was[lo..lo + i], s[j := t][lo..lo + i + 1], t, j - lo)
    ensures j > lo ==> was[lo..lo + i][j - lo - 1] == s[j - 1]
  {
  }

  lemma InsertedOrder(w: seq<Edge>, r: seq<Edge>, t: Edge, m: nat)
    requires Inserted(w, r, t, m) && Sorted(w) && (m > 0 ==> !Compare(t, w[m - 1]))
    ensures Sorted(r)
  {
    forall a, b | 0 <= a < b < |r|
      ensures r[a].y0 <= r[b].y0
    {
      if a < m && b >= m {
        Ordered(w, a, m - 1);
      }
    }
  }

  lemma InsertedSorted(was: seq<Edge>, s: seq<Edge>, lo: nat, i: nat, t: Edge, j: nat)
    requires lo <= j && Shifted(was, s, j, lo + i, t) && Sorted(was[lo..lo + i]) && Permutation(was, s[j := t])
    requires j > lo ==> !Compare(t, s[j - 1])
    ensures Sorted(s[j := t][lo..lo + i + 1]) && Shuffled(was, s[j := t], lo, i + 1)
    ensures j == lo + i ==> s[j := t] == s
  {
    hide Sorted, Permutation, Inserted;
    InsertedHere(was, s, lo, i, t, j);
    InsertedOrder(was[lo..lo + i], s[j := t][lo..lo + i + 1], t, j - lo);
  }

  lemma Ordered(s: seq<Edge>, a: nat, b: nat)
    requires Sorted(s) && a <= b < |s|
    ensures s[a].y0 <= s[b].y0
  {
  }

  method InsertionSort(p: array<Edge>, lo: nat, n: nat)
    requires lo + n <= p.Length
    modifies p
    ensures Sorted(p[lo..lo + n]) && Shuffled(old(p[..]), p[..], lo, n)
  {
    ShuffledNone(p[..], lo, n);
    var i := 1;
    while i < n
      invariant 1 <= i && (i <= n || n == 0)
      invariant n > 0 ==> Sorted(p[lo..lo + i])
      invariant Shuffled(old(p[..]), p[..], lo, n)
    {
      ghost var s := p[..];
      Insert(p, lo, i);
      ShuffledMore(old(p[..]), s, p[..], lo, n, lo, i + 1);
      i := i + 1;
    }
    assert n == 0 ==> p[lo..lo + n] == [];
  }

  // ---- quicksort ----

  /** The median of the first, the middle and the last entry goes to the front. What is
      left at the middle and the end then has one key no less than it. */
  method MedianToFront(p: array<Edge>, lo: nat, n: nat)
    requires n > 12 && lo + n <= p.Length
    modifies p
    ensures Shuffled(old(p[..]), p[..], lo, n)
    ensures p[lo].y0 <= p[lo + n / 2].y0 || p[lo].y0 <= p[lo + n - 1].y0
    ensures p[lo].y0 >= p[lo + n / 2].y0 || p[lo].y0 >= p[lo + n - 1].y0
  {
    hide Shuffled;
    var m := n / 2;
    var c01 := Compare(p[lo], p[lo + m]);
    var c12 := Compare(p[lo + m], p[lo + n - 1]);
    ghost var s := p[..];
    ShuffledNone(s, lo, n);
    if c01 != c12 {
      var c := Compare(p[lo], p[lo + n - 1]);
      var z := if c == c12 then 0 else n - 1;
      Swap(p, lo + z, lo + m);
      SwapShuffles(s, p[..], lo + z, lo + m, lo, n);
    }
    ghost var t := p[..];
    Swap(p, lo, lo + m);
    SwapShuffles(t, p[..], lo, lo + m, lo, n);
    ShuffledMore(s, t, p[..], lo, n, lo, n);
  }

  /** The scan up, which has no bound of its own: `stop` is what ends it. */
  method ScanUp(p: array<Edge>, lo: nat, from: nat, ghost stop: nat) returns (i: nat)
    requires from <= stop && lo + stop < p.Length && !Compare(p[lo + stop], p[lo])
    ensures from <= i <= stop && !Compare(p[lo + i], p[lo])
    ensures forall k :: lo + from <= k < lo + i ==> Compare(p[k], p[lo])
  {
    i := from;
    while Compare(p[lo + i], p[lo])
      invariant from <= i <= stop
      invariant forall k :: lo + from <= k < lo + i ==> Compare(p[k], p[lo])
      decreases stop - i
    {
      i := i + 1;
    }
  }

  /** The scan down, which the pivot itself ends. */
  method ScanDown(p: array<Edge>, lo: nat, from: nat) returns (j: nat)
    requires lo + from < p.Length
    ensures j <= from && !Compare(p[lo], p[lo + j])
    ensures forall k :: lo + j < k <= lo + from ==> Compare(p[lo], p[k])
  {
    j := from;
    while Compare(p[lo], p[lo + j])
      invariant j <= from
      invariant forall k :: lo + j < k <= lo + from ==> Compare(p[lo], p[k])
      decreases j
    {
      j := j - 1;
    }
  }

  /** The partition loop. Neither scan looks where it goes: the one up is stopped by an
      entry no less than the pivot, the median's doing at first and then the last one
      swapped; the one down by the pivot itself. */
  method Partition(p: array<Edge>, lo: nat, n: nat) returns (i: nat, j: nat)
    requires n > 12 && lo + n <= p.Length
    requires p[lo].y0 <= p[lo + n / 2].y0 || p[lo].y0 <= p[lo + n - 1].y0
    modifies p
    ensures 1 <= i < n && j < n && j <= i
    ensures Shuffled(old(p[..]), p[..], lo, n)
    ensures forall k :: lo <= k <= lo + j ==> p[k].y0 <= p[lo].y0
    ensures forall k :: lo + i <= k < lo + n ==> p[lo].y0 <= p[k].y0
    ensures forall k :: lo + j < k < lo + i ==> p[k].y0 == p[lo].y0
  {
    hide Shuffled, Swapped;
    i, j := 1, n - 1;
    ghost var stop: nat := if p[lo].y0 <= p[lo + n / 2].y0 then n / 2 else n - 1;
    ghost var pivot := p[lo];
    ShuffledNone(p[..], lo, n);
    while true
      invariant 1 <= i <= stop < n && j < n && i <= j + 1
      invariant p[lo] == pivot && pivot.y0 <= p[lo + stop].y0
      invariant forall k :: lo <= k < lo + i ==> p[k].y0 <= pivot.y0
      invariant forall k :: lo + j < k < lo + n ==> pivot.y0 <= p[k].y0
      invariant Shuffled(old(p[..]), p[..], lo, n)
      decreases j + 1 - i
    {
      ghost var s := p[..];
      i := ScanUp(p, lo, i, stop);
      j := ScanDown(p, lo, j);
      if i >= j {
        break;
      }
      Swap(p, lo + i, lo + j);
      SwapShuffles(s, p[..], lo + i, lo + j, lo, n);
      ShuffledMore(old(p[..]), s, p[..], lo, n, lo, n);
      stop := j;
      i := i + 1;
      j := j - 1;
    }
  }

  /** Each round leaves fewer entries, and since the smaller side is what recursion is for,
      recursion goes no deeper than the logarithm of their number. */
  method Quicksort(p: array<Edge>, first: nat, count: nat) returns (ghost depth: nat)
    requires first + count <= p.Length
    modifies p
    ensures Shuffled(old(p[..]), p[..], first, count)
    ensures depth == 0 || Pow2(depth) <= count
    decreases count
  {
    hide Shuffled, Pow2;
    var lo, n := first, count;
    depth := 0;
    ShuffledNone(p[..], lo, n);
    while n > 12
      invariant first <= lo && lo + n <= first + count
      invariant Shuffled(old(p[..]), p[..], first, count)
      invariant depth == 0 || Pow2(depth) <= count
      decreases n
    {
      ghost var s0 := p[..];
      MedianToFront(p, lo, n);
      ghost var s1 := p[..];
      var i, j := Partition(p, lo, n);
      ghost var s2 := p[..];
      ShuffledMore(s0, s1, s2, lo, n, lo, n);
      ShuffledMore(old(p[..]), s0, s2, first, count, lo, n);
      ghost var d;
      if j < n - i {
        d := Quicksort(p, lo, j);
        ShuffledMore(old(p[..]), s2, p[..], first, count, lo, j);
        HalfDepth(d, j, count);
        lo := lo + i;
        n := n - i;
      } else {
        d := Quicksort(p, lo + i, n - i);
        ShuffledMore(old(p[..]), s2, p[..], first, count, lo + i, n - i);
        HalfDepth(d, n - i, count);
        n := j;
      }
      depth := if d + 1 > depth then d + 1 else depth;
    }
  }

  lemma HalfDepth(d: nat, part: nat, count: nat)
    requires 2 * part <= count && count > 12 && (d == 0 || Pow2(d) <= part)
    ensures Pow2(d + 1) <= count
  {
  }

  /** stbtt__sort_edges: sorted by y0, and the same edges. */
  method SortEdges(p: array<Edge>, n: nat)
    requires n <= p.Length
    modifies p
    ensures Sorted(p[..n])
    ensures Permutation(old(p[..]), p[..]) && p[n..] == old(p[n..])
    ensures Permutation(old(p[..n]), p[..n])
  {
    ghost var s0 := p[..];
    ghost var d := Quicksort(p, 0, n);
    ghost var s1 := p[..];
    InsertionSort(p, 0, n);
    ShuffledMore(s0, s1, p[..], 0, n, 0, n);
    PartPermuted(s0, p[..], n);
    assert p[0..0 + n] == p[..n];
    assert s0[n..] == p[..][n..];
  }

  lemma PartPermuted(s: seq<Edge>, t: seq<Edge>, n: nat)
    requires Shuffled(s, t, 0, n)
    ensures Permutation(s[..n], t[..n])
  {
    assert s == s[..n] + s[n..] && t == t[..n] + t[n..];
    assert s[n..] == t[n..];
    assert multiset(s[..n]) == multiset(s) - multiset(s[n..]) && multiset(t[..n]) == multiset(t) - multiset(t[n..]);
  }

  /** A sorted permutation is one, up to edges of equal keys: the keys come out the same. */
  lemma {:induction false} SortedIsUnique(s: seq<Edge>, t: seq<Edge>)
    requires Sorted(s) && Sorted(t) && Permutation(s, t)
    ensures |s| == |t| && forall i :: 0 <= i < |s| ==> s[i].y0 == t[i].y0
    decreases |s|
  {
    assert |multiset(s)| == |s| && |multiset(t)| == |t|;
    forall i | 0 <= i < |s|
      ensures s[i].y0 == t[i].y0
    {
      KeyAt(s, t, i);
      KeyAt(t, s, i);
    }
  }

  /** If t[i] had the greater key, at least i + 1 entries of s, but at most i of t, would
      have keys no greater than s[i]'s. */
  lemma KeyAt(s: seq<Edge>, t: seq<Edge>, i: nat)
    requires Sorted(s) && Sorted(t) && Permutation(s, t) && i < |s| == |t|
    ensures t[i].y0 <= s[i].y0
  {
    var y := s[i].y0;
    CountPermuted(s, t, y);
    CountAtLeast(s, y, i + 1);
    if t[i].y0 > y {
      CountAtMost(t, y, i);
    }
  }

  function CountUpTo(s: seq<Edge>, y: real): nat {
    if s == [] then 0 else CountUpTo(s[..|s| - 1], y) + (if s[|s| - 1].y0 <= y then 1 else 0)
  }

  lemma {:induction false} CountAtLeast(s: seq<Edge>, y: real, n: nat)
    requires n <= |s| && forall k :: 0 <= k < n ==> s[k].y0 <= y
    ensures CountUpTo(s, y) >= n
    decreases |s|
  {
    if s != [] {
      CountAtLeast(s[..|s| - 1], y, if n == |s| then n - 1 else n);
    }
  }

  lemma {:induction false} CountAtMost(s: seq<Edge>, y: real, n: nat)
    requires n <= |s| && forall k :: n <= k < |s| ==> s[k].y0 > y
    ensures CountUpTo(s, y) <= n
    decreases |s|
  {
    if s != [] {
      CountAtMost(s[..|s| - 1], y, if n == |s| then n - 1 else n);
    }
  }

  lemma {:induction false} CountWithout(s: seq<Edge>, k: nat, y: real)
    requires k < |s|
    ensures CountUpTo(s, y) == CountUpTo(s[..k] + s[k + 1..], y) + (if s[k].y0 <= y then 1 else 0)
    decreases |s|
  {
    if k == |s| - 1 {
      assert s[..k] + s[k + 1..] == s[..k];
    } else {
      var r := s[..|s| - 1];
      CountWithout(r, k, y);
      assert (s[..k] + s[k + 1..])[..|s| - 2] == r[..k] + r[k + 1..];
    }
  }

  lemma {:induction false} CountPermuted(s: seq<Edge>, t: seq<Edge>, y: real)
    requires Permutation(s, t)
    ensures CountUpTo(s, y) == CountUpTo(t, y)
    decreases |s|
  {
    if s != [] {
      var e, r := s[|s| - 1], s[..|s| - 1];
      assert s == r + [e];
      assert e in multiset(t);
      var k :| 0 <= k < |t| && t[k] == e;
      WithoutPermuted(s, t, k);
      CountWithout(t, k, y);
      CountPermuted(r, t[..k] + t[k + 1..], y);
    } else {
      assert |multiset(t)| == 0;
    }
  }

  lemma WithoutPermuted(s: seq<Edge>, t: seq<Edge>, k: nat)
    requires Permutation(s, t) && s != [] && k < |t| && t[k] == s[|s| - 1]
    ensures Permutation(s[..|s| - 1], t[..k] + t[k + 1..])
  {
    var e, r := s[|s| - 1], s[..|s| - 1];
    assert s == r + [e];
    assert t == t[..k] + [e] + t[k + 1..];
    assert multiset(t[..k] + t[k + 1..]) == multiset(t) - multiset{e};
  }
}
