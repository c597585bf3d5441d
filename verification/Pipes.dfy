/** Pipes in the table of open files: the count of descriptors kept in fd_pos, and that the
    buffer page outlives every descriptor from 3 on. */
module Pipes {
  const MAX_FILE_OPEN := 32
  const PER_PROC := 8  // MAX_FILES_OPEN_PER_PROC
  const PIPE_FLAG := 0xFFFF

  /** struct file; `inode` is whether fd_inode is set, to an inode or to a pipe's page. */
  datatype Entry = Entry(inode: bool, flag: nat, pos: nat)

  /** file_table, and each task's fd_table. */
  datatype Files = Files(table: seq<Entry>, fds: seq<seq<int>>)

  predicate IsPipe(e: Entry) { e.flag == PIPE_FLAG }

  // ---- counting descriptors ----

  /** The descriptors from k on, of one task, that refer to entry g. */
  function RowRefs(row: seq<int>, g: int, k: nat): nat
    decreases |row| - k
  {
    if k >= |row| then 0 else (if row[k] == g then 1 else 0) + RowRefs(row, g, k + 1)
  }

  /** The descriptors from 3 on, of all tasks. */
  function Refs(fds: seq<seq<int>>, g: int): nat {
    if fds == [] then 0 else Refs(fds[..|fds| - 1], g) + RowRefs(fds[|fds| - 1], g, 3)
  }

  lemma {:induction false} RowRefsSet(row: seq<int>, g: int, k: nat, i: nat, v: int)
    requires i < |row|
    ensures RowRefs(row[i := v], g, k) + (if i >= k && row[i] == g then 1 else 0) == RowRefs(row, g, k) + (if i >= k && v == g then 1 else 0)
    decreases |row| - k
  {
    if k < |row| {
      RowRefsSet(row, g, k + 1, i, v);
    }
  }

  lemma {:induction false} RefsSet(fds: seq<seq<int>>, g: int, t: nat, i: nat, v: int)
    requires t < |fds| && i < |fds[t]|
    ensures Refs(fds[t := fds[t][i := v]], g) + (if i >= 3 && fds[t][i] == g then 1 else 0) == Refs(fds, g) + (if i >= 3 && v == g then 1 else 0)
    decreases |fds|
  {
    var n := |fds| - 1;
    var fds' := fds[t := fds[t][i := v]];
    if t == n {
      assert fds'[..n] == fds[..n];
      RowRefsSet(fds[t], g, 3, i, v);
    } else {
      assert fds'[..n] == fds[..n][t := fds[t][i := v]];
      RefsSet(fds[..n], g, t, i, v);
    }
  }

  lemma {:induction false} RowRefsSome(row: seq<int>, g: int, k: nat, i: nat)
    requires k <= i < |row| && row[i] == g
    ensures RowRefs(row, g, k) >= 1
    decreases i - k
  {
    if k < i {
      RowRefsSome(row, g, k + 1, i);
    }
  }

  lemma {:induction false} RefsSome(fds: seq<seq<int>>, g: int, t: nat, i: nat)
    requires t < |fds| && 3 <= i < |fds[t]| && fds[t][i] == g
    ensures Refs(fds, g) >= 1
    decreases |fds|
  {
    if t < |fds| - 1 {
      RefsSome(fds[..|fds| - 1], g, t, i);
    } else {
      RowRefsSome(fds[t], g, 3, i);
    }
  }

  lemma {:induction false} RowRefsNone(row: seq<int>, g: int, k: nat)
    requires forall i :: k <= i < |row| ==> row[i] != g
    ensures RowRefs(row, g, k) == 0
    decreases |row| - k
  {
    if k < |row| {
      RowRefsNone(row, g, k + 1);
    }
  }

  lemma {:induction false} RefsNone(fds: seq<seq<int>>, g: int)
    requires forall t, i :: 0 <= t < |fds| && 3 <= i < |fds[t]| ==> fds[t][i] != g
    ensures Refs(fds, g) == 0
  {
    if fds != [] {
      RefsNone(fds[..|fds| - 1], g);
      RowRefsNone(fds[|fds| - 1], g, 3);
    }
  }

  // ---- the invariant ----

  ghost predicate SlotOk(s: Files, t: nat, i: nat) {
    && t < |s.fds| && i < |s.fds[t]|
    && (s.fds[t][i] == -1 || (0 <= s.fds[t][i] < |s.table| && s.table[s.fds[t][i]].inode))
  }

  ghost predicate EntryOk(s: Files, g: nat) {
    && g < |s.table|
    && (s.table[g].inode ==> if IsPipe(s.table[g]) then s.table[g].pos >= Refs(s.fds, g) else Refs(s.fds, g) <= 1)
  }

  /** Every descriptor from 3 on refers to an entry in use; a pipe counts at least as many as
      refer to it, and a file is referred to by at most one. */
  ghost predicate FilesOk(s: Files) {
    && |s.table| == MAX_FILE_OPEN
    && (forall t :: 0 <= t < |s.fds| ==> |s.fds[t]| == PER_PROC)
    && (forall t: nat, i: nat {:trigger SlotOk(s, t, i)} :: t < |s.fds| && 3 <= i < PER_PROC ==> SlotOk(s, t, i))
    && (forall g: nat {:trigger EntryOk(s, g)} :: g < MAX_FILE_OPEN ==> EntryOk(s, g))
  }

  /** An entry that is not in use has no descriptor. */
  lemma UnusedIsUnreferred(s: Files, g: nat)
    requires FilesOk(s) && g < MAX_FILE_OPEN && !s.table[g].inode
    ensures Refs(s.fds, g) == 0
  {
    forall t, i | 0 <= t < |s.fds| && 3 <= i < |s.fds[t]|
      ensures s.fds[t][i] != g
    {
      assert SlotOk(s, t, i);
    }
    RefsNone(s.fds, g);
  }

  // ---- the calls, as functions ----

  function SetFd(s: Files, t: nat, i: nat, v: int): Files
    requires t < |s.fds| && i < |s.fds[t]|
  {
    s.(fds := s.fds[t := s.fds[t][i := v]])
  }

  /** The first descriptor of a task from k on that is free, 8 if none. */
  function FreeFd(row: seq<int>, k: nat): (r: nat)
    requires k <= |row|
    ensures k <= r <= |row| && (r < |row| ==> row[r] == -1)
    ensures forall i :: k <= i < r ==> row[i] != -1
    decreases |row| - k
  {
    if k == |row| || row[k] == -1 then k else FreeFd(row, k + 1)
  }

  /** The first entry from k on that is not in use, 32 if none. */
  function FreeEntry(table: seq<Entry>, k: nat): (r: nat)
    requires k <= |table|
    ensures k <= r <= |table| && (r < |table| ==> !table[r].inode)
    ensures forall i :: k <= i < r ==> table[i].inode
    decreases |table| - k
  {
    if k == |table| || !table[k].inode then k else FreeEntry(table, k + 1)
  }

  predicate FirstFd(row: seq<int>, k: nat, i: int) {
    k <= i < |row| && row[i] == -1 && forall j :: k <= j < i ==> row[j] != -1
  }

  predicate LeastFree(table: seq<Entry>, k: nat, g: int) {
    k <= g < |table| && !table[g].inode && forall h :: k <= h < g ==> table[h].inode
  }

  lemma FreeMeans(table: seq<Entry>, k: nat)
    requires k <= |table|
    ensures FreeEntry(table, k) < |table| <==> exists g :: k <= g < |table| && !table[g].inode
    ensures forall g: int :: LeastFree(table, k, g) <==> g == FreeEntry(table, k) < |table|
  {
  }

  lemma FdMeans(row: seq<int>, k: nat)
    requires k <= |row|
    ensures FreeFd(row, k) < |row| <==> exists i :: k <= i < |row| && row[i] == -1
    ensures forall i: int :: FirstFd(row, k, i) <==> i == FreeFd(row, k) < |row|
  {
  }

  /** There are two free descriptors exactly when there is a first and one after it. */
  lemma TwoFree(row: seq<int>)
    requires |row| == PER_PROC
    ensures (exists i, j :: 3 <= i < j < PER_PROC && row[i] == -1 && row[j] == -1) <==>
              FreeFd(row, 3) < |row| && FreeFd(row, FreeFd(row, 3) + 1) < |row|
  {
    FdMeans(row, 3);
    if FreeFd(row, 3) < |row| {
      FdMeans(row, FreeFd(row, 3) + 1);
    }
  }

  predicate CanClose(s: Files, t: nat, fd: nat) {
    && t < |s.fds| && fd < |s.fds[t]| && 0 <= s.fds[t][fd] < |s.table|
    && (IsPipe(s.table[s.fds[t][fd]]) ==> s.table[s.fds[t][fd]].pos > 0)
  }

  /** close_file for a descriptor in use. */
  function Closed(s: Files, t: nat, fd: nat): Files
    requires CanClose(s, t, fd)
  {
    var g := s.fds[t][fd];
    var e := s.table[g];
    var e' := if IsPipe(e) then e.(pos := e.pos - 1, inode := e.inode && e.pos != 1) else Entry(false, 0, 0);
    SetFd(s.(table := s.table[g := e']), t, fd, -1)
  }

  lemma CloseKeeps(s: Files, t: nat, fd: nat)
    requires FilesOk(s) && t < |s.fds| && 3 <= fd < PER_PROC && s.fds[t][fd] != -1
    ensures CanClose(s, t, fd) && FilesOk(Closed(s, t, fd))
    ensures var g := s.fds[t][fd]; !Closed(s, t, fd).table[g].inode ==> Refs(Closed(s, t, fd).fds, g) == 0
  {
    assert SlotOk(s, t, fd);
    var g: nat := s.fds[t][fd];
    RefsSome(s.fds, g, t, fd);
    assert EntryOk(s, g);
    var s' := Closed(s, t, fd);
    forall h: nat | h < MAX_FILE_OPEN
      ensures EntryOk(s', h) && Refs(s'.fds, h) == Refs(s.fds, h) - (if h == g then 1 else 0)
    {
      assert EntryOk(s, h);
      RefsSet(s.fds, h, t, fd, -1);
    }
    forall u: nat, i: nat | u < |s'.fds| && 3 <= i < PER_PROC
      ensures SlotOk(s', u, i)
    {
      assert SlotOk(s, u, i);
      if s'.fds[u][i] == g && !s'.table[g].inode {
        RefsSome(s'.fds, g, u, i);
      }
    }
  }

  lemma InstallKeeps(s: Files, t: nat, g: nat)
    requires FilesOk(s) && t < |s.fds| && g < MAX_FILE_OPEN && s.table[g].inode
    requires FreeFd(s.fds[t], 3) < PER_PROC
    requires if IsPipe(s.table[g]) then s.table[g].pos > Refs(s.fds, g) else Refs(s.fds, g) == 0
    ensures FilesOk(SetFd(s, t, FreeFd(s.fds[t], 3), g))
    ensures Refs(SetFd(s, t, FreeFd(s.fds[t], 3), g).fds, g) == Refs(s.fds, g) + 1
  {
    var fd := FreeFd(s.fds[t], 3);
    var s' := SetFd(s, t, fd, g);
    RefsSet(s.fds, g, t, fd, g);
    forall h: nat | h < MAX_FILE_OPEN
      ensures EntryOk(s', h)
    {
      assert EntryOk(s, h);
      RefsSet(s.fds, h, t, fd, g);
    }
    forall u: nat, i: nat | u < |s'.fds| && 3 <= i < PER_PROC
      ensures SlotOk(s', u, i)
    {
      assert SlotOk(s, u, i);
    }
  }

  lemma ClaimKeeps(s: Files, g: nat, e: Entry)
    requires FilesOk(s) && g < MAX_FILE_OPEN && !s.table[g].inode
    ensures FilesOk(s.(table := s.table[g := e])) && Refs(s.fds, g) == 0
  {
    UnusedIsUnreferred(s, g);
    var s' := s.(table := s.table[g := e]);
    forall h: nat | h < MAX_FILE_OPEN
      ensures EntryOk(s', h)
    {
      assert EntryOk(s, h);
    }
    forall u: nat, i: nat | u < |s'.fds| && 3 <= i < PER_PROC
      ensures SlotOk(s', u, i)
    {
      assert SlotOk(s, u, i);
      if s.fds[u][i] == g {
        RefsSome(s.fds, g, u, i);
      }
    }
  }

  /** sys_fork counts each of the parent's pipe descriptors once more. */
  function Counted(table: seq<Entry>, row: seq<int>, n: nat): (r: seq<Entry>)
    requires n <= |row|
    ensures |r| == |table|
  {
    if n == 0 then table
    else
      var prev := Counted(table, row, n - 1);
      var g := row[n - 1];
      if 0 <= g < |table| && IsPipe(prev[g]) then prev[g := prev[g].(pos := prev[g].pos + 1)] else prev
  }

  lemma {:induction false} CountedMeans(table: seq<Entry>, row: seq<int>, n: nat, g: nat)
    requires n <= |row| && g < |table|
    ensures var e, e' := table[g], Counted(table, row, n)[g];
            && e' == e.(pos := e'.pos)
            && e'.pos == if IsPipe(e) then e.pos + RowRefs(row[..n], g, 0) else e.pos
    decreases n
  {
    if n > 0 {
      CountedMeans(table, row, n - 1, g);
      RowRefsSnoc(row[..n - 1], row[n - 1], g, 0);
      assert row[..n] == row[..n - 1] + [row[n - 1]];
    }
  }

  lemma {:induction false} RowRefsSnoc(row: seq<int>, v: int, g: int, k: nat)
    requires k <= |row|
    ensures RowRefs(row + [v], g, k) == RowRefs(row, g, k) + (if v == g then 1 else 0)
    decreases |row| - k
  {
    if k < |row| {
      RowRefsSnoc(row, v, g, k + 1);
    }
  }

  lemma RowRefsFrom(row: seq<int>, g: int)
    requires |row| >= 3
    ensures RowRefs(row, g, 3) <= RowRefs(row, g, 0)
  {
    assert RowRefs(row, g, 0) >= RowRefs(row, g, 1) >= RowRefs(row, g, 2) >= RowRefs(row, g, 3);
  }

  /** The child's descriptors are the parent's. */
  function Forked(s: Files, t: nat): Files
    requires t < |s.fds|
  {
    Files(Counted(s.table, s.fds[t], |s.fds[t]|), s.fds + [s.fds[t]])
  }

  predicate OnPipe(s: Files, g: int) {
    0 <= g < |s.table| && IsPipe(s.table[g])
  }

  /** Forking keeps the counts in order exactly when every descriptor from 3 on that is
      inherited is a pipe: an open file would be referred to twice, and the first of the two
      to be closed takes the entry away from the other. */
  lemma ForkKeeps(s: Files, t: nat)
    requires FilesOk(s) && t < |s.fds|
    ensures FilesOk(Forked(s, t)) <==> forall i :: 3 <= i < PER_PROC && s.fds[t][i] != -1 ==> OnPipe(s, s.fds[t][i])
  {
    var row := s.fds[t];
    var s' := Forked(s, t);
    assert s'.fds[..|s.fds|] == s.fds && row[..PER_PROC] == row;
    forall h: nat | h < MAX_FILE_OPEN
      ensures s'.table[h].inode == s.table[h].inode && Refs(s'.fds, h) == Refs(s.fds, h) + RowRefs(row, h, 3)
      ensures OnPipe(s, h) || RowRefs(row, h, 3) == 0 ==> EntryOk(s', h)
      ensures s.table[h].inode && !OnPipe(s, h) && RowRefs(row, h, 3) >= 1 && Refs(s.fds, h) >= 1 ==> !EntryOk(s', h)
    {
      assert EntryOk(s, h);
      CountedMeans(s.table, row, PER_PROC, h);
      RowRefsFrom(row, h);
    }
    if i :| 3 <= i < PER_PROC && row[i] != -1 && !OnPipe(s, row[i]) {
      assert SlotOk(s, t, i);
      RowRefsSome(row, row[i], 3, i);
      RefsSome(s.fds, row[i], t, i);
      assert !EntryOk(s', row[i]);
    } else {
      forall h: nat | h < MAX_FILE_OPEN
        ensures EntryOk(s', h)
      {
        if !OnPipe(s, h) {
          RowRefsNone(row, h, 3);
        }
      }
      forall u: nat, i: nat | u < |s'.fds| && 3 <= i < PER_PROC
        ensures SlotOk(s', u, i)
      {
        assert SlotOk(s, if u < |s.fds| then u else t, i);
      }
    }
  }

  /** The descriptors of a task from i on are closed one after the other. */
  function Released(s: Files, t: nat, i: nat): Files
    requires t < |s.fds| && i <= |s.fds[t]|
    decreases |s.fds[t]| - i
  {
    if i == |s.fds[t]| then s
    else Released(if s.fds[t][i] != -1 && CanClose(s, t, i) then Closed(s, t, i) else s, t, i + 1)
  }

  /** What a task gives up when it ends: each pipe is counted down by the task's descriptors
      from 3 on, and no other task's descriptors change. */
  lemma {:induction false} ReleasedMeans(s: Files, t: nat, i: nat, g: nat)
    requires FilesOk(s) && t < |s.fds| && 3 <= i <= PER_PROC && g < MAX_FILE_OPEN && IsPipe(s.table[g])
    ensures var s' := Released(s, t, i);
            && FilesOk(s') && |s'.fds| == |s.fds|
            && IsPipe(s'.table[g]) && s'.table[g].pos + RowRefs(s.fds[t], g, i) == s.table[g].pos
            && (s'.table[g].pos > 0 ==> s'.table[g].inode == s.table[g].inode)
            && (forall u: nat :: u < |s.fds| && u != t ==> s'.fds[u] == s.fds[u])
            && (forall k :: 0 <= k < i ==> s'.fds[t][k] == s.fds[t][k]) && (forall k :: i <= k < PER_PROC ==> s'.fds[t][k] == -1)
    decreases PER_PROC - i
  {
    if i < PER_PROC {
      if s.fds[t][i] != -1 {
        CloseKeeps(s, t, i);
        RowRefsSet(s.fds[t], g, i + 1, i, -1);
        ReleasedMeans(Closed(s, t, i), t, i + 1, g);
      } else {
        ReleasedMeans(s, t, i + 1, g);
      }
    }
  }

  /** Entry by entry: a pipe is counted down, and not in use any more when a count that the task
      had a part in comes to none; a file the task had open is closed; all else stays. */
  lemma {:induction false} ReleasedEntry(s: Files, t: nat, i: nat, g: nat)
    requires FilesOk(s) && t < |s.fds| && 3 <= i <= PER_PROC && g < MAX_FILE_OPEN
    ensures |Released(s, t, i).table| == |s.table|
    ensures var e, e', n := s.table[g], Released(s, t, i).table[g], RowRefs(s.fds[t], g, i);
            if IsPipe(e) then e' == Entry(e.inode && (n == 0 || e.pos > n), PIPE_FLAG, e'.pos) && e'.pos + n == e.pos
            else e' == if n > 0 then Entry(false, 0, 0) else e
    decreases PER_PROC - i
  {
    hide FilesOk, EntryOk, SlotOk;
    OkSizes(s);
    if i < PER_PROC {
      if s.fds[t][i] != -1 {
        CloseKeeps(s, t, i);
        RowRefsSet(s.fds[t], g, i + 1, i, -1);
        ReleasedEntry(Closed(s, t, i), t, i + 1, g);
        assert Released(s, t, i) == Released(Closed(s, t, i), t, i + 1);
      } else {
        ReleasedEntry(s, t, i + 1, g);
      }
    }
  }

  ghost predicate ReleaseDone(s: Files, s': Files, t: nat) {
    && t < |s.fds| && |s'.table| == |s.table|
    && |s'.fds| == |s.fds| && (forall u: nat :: u < |s.fds| && u != t ==> s'.fds[u] == s.fds[u])
    && |s'.fds[t]| == |s.fds[t]| && (forall k: nat :: k < |s.fds[t]| ==> s'.fds[t][k] == if k < 3 then s.fds[t][k] else -1)
    && forall g: nat :: g < |s.table| ==>
         var e, e', n := s.table[g], s'.table[g], RowRefs(s.fds[t], g, 3);
         if IsPipe(e) then e' == Entry(e.inode && (n == 0 || e.pos > n), PIPE_FLAG, e'.pos) && e'.pos + n == e.pos
         else e' == if n > 0 then Entry(false, 0, 0) else e
  }

  lemma {:induction false} ReleasedFds(s: Files, t: nat, i: nat)
    requires FilesOk(s) && t < |s.fds| && 3 <= i <= PER_PROC
    ensures var s' := Released(s, t, i);
            && |s'.fds| == |s.fds| && (forall u: nat :: u < |s.fds| && u != t ==> s'.fds[u] == s.fds[u])
            && |s'.fds[t]| == |s.fds[t]| == PER_PROC && (forall k: nat :: k < PER_PROC ==> s'.fds[t][k] == if k < i then s.fds[t][k] else -1)
    decreases PER_PROC - i
  {
    hide FilesOk, EntryOk, SlotOk;
    OkSizes(s);
    if i < PER_PROC {
      if s.fds[t][i] != -1 {
        CloseKeeps(s, t, i);
        ReleasedFds(Closed(s, t, i), t, i + 1);
      } else {
        ReleasedFds(s, t, i + 1);
      }
    }
  }

  lemma ReleaseMeans(s: Files, t: nat)
    requires FilesOk(s) && t < |s.fds|
    ensures |s.fds[t]| == PER_PROC && ReleaseDone(s, Released(s, t, 3), t)
  {
    hide FilesOk, Released, RowRefs;
    OkSizes(s);
    ReleasedFds(s, t, 3);
    ReleasedEntry(s, t, 3, 0);
    forall g: nat | g < MAX_FILE_OPEN
      ensures var e, e', n := s.table[g], Released(s, t, 3).table[g], RowRefs(s.fds[t], g, 3);
              if IsPipe(e) then e' == Entry(e.inode && (n == 0 || e.pos > n), PIPE_FLAG, e'.pos) && e'.pos + n == e.pos
              else e' == if n > 0 then Entry(false, 0, 0) else e
    {
      ReleasedEntry(s, t, 3, g);
    }
  }

  /** A child that is forked and ends leaves a pipe's count as it was exactly when the parent
      has the pipe on none of its first three descriptors: sys_fork counts those, and nothing
      counts them down again, so that the pipe's page is kept for good. */
  lemma ForkThenEnd(s: Files, t: nat, g: nat)
    requires FilesOk(s) && t < |s.fds| && g < MAX_FILE_OPEN && IsPipe(s.table[g])
    requires forall i :: 3 <= i < PER_PROC && s.fds[t][i] != -1 ==> OnPipe(s, s.fds[t][i])
    ensures var s' := Released(Forked(s, t), |s.fds|, 3);
            && |s'.table| == |s.table| && |s'.fds| == |s.fds| + 1 && s'.fds[..|s.fds|] == s.fds
            && s'.table[g].pos >= s.table[g].pos && (s'.table[g].pos > 0 ==> s'.table[g].inode == s.table[g].inode)
            && (s'.table[g].pos == s.table[g].pos <==> s.fds[t][0] != g && s.fds[t][1] != g && s.fds[t][2] != g)
  {
    var row, f := s.fds[t], Forked(s, t);
    ForkKeeps(s, t);
    CountedMeans(s.table, row, PER_PROC, g);
    assert row[..PER_PROC] == row;
    ReleasedMeans(f, |s.fds|, 3, g);
    FirstThree(row, g);
  }

  lemma FirstThree(row: seq<int>, g: int)
    requires |row| >= 3
    ensures RowRefs(row, g, 0) == RowRefs(row, g, 3) <==> row[0] != g && row[1] != g && row[2] != g
    ensures RowRefs(row, g, 0) >= RowRefs(row, g, 3)
  {
    assert RowRefs(row, g, 0) >= RowRefs(row, g, 1) >= RowRefs(row, g, 2) >= RowRefs(row, g, 3);
  }

  /** sys_fd_redirect */
  function Redirected(s: Files, t: nat, old_: nat, new_: nat): Files
    requires t < |s.fds| && old_ < |s.fds[t]| && (new_ < 3 || new_ < |s.fds[t]|)
  {
    SetFd(s, t, old_, if new_ < 3 then new_ else s.fds[t][new_])
  }

  lemma RedirectKeeps(s: Files, t: nat, old_: nat, new_: nat)
    requires FilesOk(s) && t < |s.fds| && old_ < 3 && new_ < PER_PROC
    ensures FilesOk(Redirected(s, t, old_, new_))
  {
    var s' := Redirected(s, t, old_, new_);
    forall h: nat | h < MAX_FILE_OPEN
      ensures EntryOk(s', h)
    {
      assert EntryOk(s, h);
      RefsSet(s.fds, h, t, old_, s'.fds[t][old_]);
    }
    forall u: nat, i: nat | u < |s'.fds| && 3 <= i < PER_PROC
      ensures SlotOk(s', u, i)
    {
      assert SlotOk(s, u, i);
    }
  }

  /** Redirecting a descriptor from 3 on to a pipe is not counted: the count stays enough
      exactly when it had one to spare, or the descriptor was on that pipe already. */
  lemma RedirectUncounted(s: Files, t: nat, old_: nat, new_: nat)
    requires FilesOk(s) && t < |s.fds| && 3 <= old_ < PER_PROC && 3 <= new_ < PER_PROC && s.fds[t][new_] != -1
    ensures SlotOk(s, t, new_)
    ensures var g := s.fds[t][new_];
            IsPipe(s.table[g]) ==>
              (s.table[g].pos >= Refs(Redirected(s, t, old_, new_).fds, g) <==> s.table[g].pos > Refs(s.fds, g) || s.fds[t][old_] == g)
  {
    assert SlotOk(s, t, new_);
    var g: nat := s.fds[t][new_];
    assert EntryOk(s, g);
    RefsSet(s.fds, g, t, old_, g);
  }

  // ---- in place ----

  class FileTable {
    const table: array<Entry>
    var fds: seq<seq<int>>

    ghost function F(): Files
      reads this, table
    {
      Files(table[..], fds)
    }

    ghost predicate Valid()
      reads this, table
    {
      FilesOk(F())
    }

    /** No file is open; the first task has the console on 0, 1 and 2. */
    constructor ()
      ensures Valid() && fresh(table) && fds == [[0, 1, 2, -1, -1, -1, -1, -1]]
    {
      table := new Entry[32](_ => Entry(false, 0, 0));
      fds := [[0, 1, 2, -1, -1, -1, -1, -1]];
      new;
      forall g: nat | g < MAX_FILE_OPEN
        ensures EntryOk(F(), g)
      {
      }
      forall t: nat, i: nat | t < |fds| && 3 <= i < PER_PROC
        ensures SlotOk(F(), t, i)
      {
      }
    }

    method FdInstall(t: nat, g: nat) returns (fd: int)
      requires t < |fds| && |fds[t]| == PER_PROC
      modifies `fds
      ensures fd == -1 <==> forall i :: 3 <= i < PER_PROC ==> old(fds[t])[i] != -1
      ensures if fd == -1 then fds == old(fds) else FirstFd(old(fds[t]), 3, fd) && fds == old(fds)[t := old(fds[t])[fd := g]]
      ensures fd == (if FreeFd(old(fds[t]), 3) < PER_PROC then FreeFd(old(fds[t]), 3) else -1)
    {
      var localFd := 3;
      while localFd < PER_PROC
        invariant 3 <= localFd <= PER_PROC && fds == old(fds)
        invariant FreeFd(fds[t], 3) == FreeFd(fds[t], localFd)
      {
        if fds[t][localFd] == -1 {
          fds := fds[t := fds[t][localFd := g]];
          return localFd;
        }
        localFd := localFd + 1;
      }
      return -1;
    }

    method SysPipe(t: nat) returns (r: int, fd0: int, fd1: int)
      requires Valid() && t < |fds|
      modifies `fds, table
      ensures Valid() && |old(fds[t])| == PER_PROC && table.Length == MAX_FILE_OPEN
      ensures r == 0 || r == -1
      ensures r == 0 <==>
        && (exists g :: 3 <= g < MAX_FILE_OPEN && !old(table[..])[g].inode)
        && (exists i, j :: 3 <= i < j < PER_PROC && old(fds[t])[i] == -1 && old(fds[t])[j] == -1)
      ensures r == 0 ==>
        && FirstFd(old(fds[t]), 3, fd0) && FirstFd(old(fds[t]), fd0 + 1, fd1)
        && exists g: nat ::
             && LeastFree(old(table[..]), 3, g) && Refs(fds, g) == 2
             && fds == old(fds)[t := old(fds[t])[fd0 := g][fd1 := g]]
             && table[..] == old(table[..])[g := Entry(true, PIPE_FLAG, 2)]
      ensures r == -1 ==> fds == old(fds)
      ensures r == -1 && (forall g :: 3 <= g < MAX_FILE_OPEN ==> old(table[..])[g].inode) ==> table[..] == old(table[..])
      ensures r == -1 ==> forall g :: LeastFree(old(table[..]), 3, g) ==> table[..] == old(table[..])[g := Entry(false, 0, 0)]
    {
      hide FilesOk, Refs;
      ghost var s0 := F();
      OkSizes(s0);
      FreeMeans(s0.table, 3);
      FdMeans(fds[t], 3);
      TwoFree(fds[t]);
      if FreeFd(fds[t], 3) < PER_PROC {
        FdMeans(fds[t], FreeFd(fds[t], 3) + 1);
      }
      var g := 3;
      while g < MAX_FILE_OPEN && table[g].inode
        invariant 3 <= g <= MAX_FILE_OPEN
        invariant FreeEntry(table[..], 3) == FreeEntry(table[..], g)
      {
        g := g + 1;
      }
      if g == MAX_FILE_OPEN {
        return -1, -1, -1;
      }
      ClaimKeeps(s0, g, Entry(true, PIPE_FLAG, 2));
      table[g] := Entry(true, PIPE_FLAG, 2);
      ghost var s1 := F();
      assert s1 == s0.(table := s0.table[g := Entry(true, PIPE_FLAG, 2)]);
      ghost var k := FreeFd(fds[t], 3);
      if k < PER_PROC {
        InstallKeeps(s1, t, g);
        NextFd(fds[t], k, g);
      }
      fd0 := FdInstall(t, g);
      ghost var s2 := F();
      if fd0 != -1 && FreeFd(fds[t], 3) < PER_PROC {
        InstallKeeps(s2, t, g);
      }
      fd1 := FdInstall(t, g);
      if fd0 == -1 || fd1 == -1 {
        if fd0 != -1 {
          fds := fds[t := fds[t][fd0 := -1]];
        }
        assert fd1 == -1;  // a second descriptor is found only after a first
        table[g] := Entry(false, 0, 0);
        assert fds == s0.fds by {
          assert fds[t] == s0.fds[t];
        }
        ClaimKeeps(s0, g, Entry(false, 0, 0));
        assert F() == s0.(table := s0.table[g := Entry(false, 0, 0)]);
        return -1, -1, -1;
      }
      return 0, fd0, fd1;
    }

    /** The part of open_file that takes an entry and a descriptor. */
    method OpenEntry(t: nat, flags: nat) returns (fd: int)
      requires Valid() && t < |fds| && flags <= 7
      modifies `fds, table
      ensures Valid() && |old(fds[t])| == PER_PROC && table.Length == MAX_FILE_OPEN
      ensures fd == -1 <==>
        || (forall g :: 0 <= g < MAX_FILE_OPEN ==> old(table[..])[g].inode)
        || (forall i :: 3 <= i < PER_PROC ==> old(fds[t])[i] != -1)
      ensures fd != -1 ==>
        && FirstFd(old(fds[t]), 3, fd)
        && exists g: nat ::
             && LeastFree(old(table[..]), 0, g) && Refs(fds, g) == 1
             && fds == old(fds)[t := old(fds[t])[fd := g]]
             && table[..] == old(table[..])[g := Entry(true, flags, 0)]
      ensures fd == -1 ==> fds == old(fds)
      ensures fd == -1 && (forall g :: 0 <= g < MAX_FILE_OPEN ==> old(table[..])[g].inode) ==> table[..] == old(table[..])
      ensures fd == -1 ==> forall g :: LeastFree(old(table[..]), 0, g) ==> table[..] == old(table[..])[g := Entry(false, flags, 0)]
    {
      hide FilesOk, Refs;
      ghost var s0 := F();
      OkSizes(s0);
      FreeMeans(s0.table, 0);
      FdMeans(fds[t], 3);
      var g := 0;
      while g < MAX_FILE_OPEN
        invariant 0 <= g <= MAX_FILE_OPEN
        invariant FreeEntry(table[..], 0) == FreeEntry(table[..], g)
      {
        if !table[g].inode {
          break;
        }
        g := g + 1;
      }
      if g >= MAX_FILE_OPEN {
        return -1;
      }
      ClaimKeeps(s0, g, Entry(true, flags, 0));
      ClaimKeeps(s0, g, Entry(false, flags, 0));
      table[g] := Entry(true, flags, 0);
      ghost var s1 := F();
      assert s1 == s0.(table := s0.table[g := Entry(true, flags, 0)]);
      if FreeFd(fds[t], 3) < PER_PROC {
        InstallKeeps(s1, t, g);
      }
      fd := FdInstall(t, g);
      if fd == -1 {
        table[g] := Entry(false, flags, 0);
        assert F() == s0.(table := s0.table[g := Entry(false, flags, 0)]);
      }
    }

    /** close_file: the pipe's page is freed with the last count, and then no descriptor
        from 3 on refers to it. */
    method CloseFile(t: nat, fd: int) returns (r: int, freed: bool)
      requires Valid() && t < |fds|
      modifies `fds, table
      ensures Valid() && |old(fds[t])| == PER_PROC && table.Length == MAX_FILE_OPEN
      ensures r == -1 <==> !(3 <= fd < PER_PROC) || old(fds[t])[fd] == -1
      ensures r == -1 ==> F() == old(F()) && !freed
      ensures r != -1 ==> CanClose(old(F()), t, fd) && F() == Closed(old(F()), t, fd)
      ensures r != -1 ==>
        var g := old(fds[t])[fd];
        var e := old(table[..])[g];
        && fds == old(fds)[t := old(fds[t])[fd := -1]]
        && table[..] == old(table[..])[g := if IsPipe(e) then Entry(e.inode && !freed, PIPE_FLAG, e.pos - 1) else Entry(false, 0, 0)]
      ensures r != -1 ==> var g := old(fds[t])[fd];
        && (freed <==> IsPipe(old(table[g])) && old(table[g]).pos == 1)
        && (freed ==> !table[g].inode && Refs(fds, g) == 0)
    {
      hide FilesOk, Refs;
      ghost var s := F();
      OkSizes(s);
      if fd < 3 || fd >= PER_PROC {
        return -1, false;
      }
      var g := fds[t][fd];
      if g == -1 {
        return -1, false;
      }
      CloseKeeps(s, t, fd);
      freed := false;
      if table[g].flag == PIPE_FLAG {
        table[g] := table[g].(pos := table[g].pos - 1);
        if table[g].pos == 0 {
          table[g] := table[g].(inode := false);
          freed := true;
        }
        fds := fds[t := fds[t][fd := -1]];
        assert F() == Closed(s, t, fd);
        return 0, freed;
      }
      table[g] := Entry(false, 0, 0);
      fds := fds[t := fds[t][fd := -1]];
      assert F() == Closed(s, t, fd);
      return 0, false;
    }

    /** The closing of descriptors at the end of a process. */
    method ReleaseFds(t: nat)
      requires Valid() && t < |fds|
      modifies `fds, table
      ensures Valid() && |old(fds[t])| == PER_PROC && F() == Released(old(F()), t, 3)
      ensures ReleaseDone(old(F()), F(), t)
    {
      hide FilesOk, Refs, ReleaseDone;
      OkSizes(F());
      ReleaseMeans(F(), t);
      var i := 3;
      while i < PER_PROC
        invariant 3 <= i <= PER_PROC && Valid() && t < |fds| && |fds[t]| == PER_PROC
        invariant Released(F(), t, i) == Released(old(F()), t, 3)
      {
        if fds[t][i] != -1 {
          var r, freed := CloseFile(t, i);
          OkSizes(F());
        }
        i := i + 1;
      }
    }

    /** The descriptors of sys_fork. */
    method ForkFds(t: nat) returns (child: nat)
      requires Valid() && t < |fds|
      modifies `fds, table
      ensures child == |old(fds)| && F() == Forked(old(F()), t)
      ensures fds == old(fds) + [old(fds[t])]
      ensures |old(fds[t])| == PER_PROC && forall g: nat :: g < table.Length ==>
        table[g] == if IsPipe(old(table[g])) then old(table[g]).(pos := old(table[g]).pos + RowRefs(old(fds[t]), g, 0)) else old(table[g])
      ensures Valid() <==> forall i :: 3 <= i < PER_PROC && i < |old(fds[t])| && old(fds[t])[i] != -1 ==> OnPipe(old(F()), old(fds[t])[i])
    {
      hide FilesOk, Refs;
      ghost var s := F();
      ForkKeeps(s, t);
      OkSizes(s);
      child := |fds|;
      var row := fds[t];
      var i := 0;
      while i < PER_PROC
        invariant 0 <= i <= PER_PROC && fds == s.fds
        invariant table[..] == Counted(s.table, row, i)
      {
        if row[i] != -1 && 0 <= row[i] < MAX_FILE_OPEN {
          if table[row[i]].flag == PIPE_FLAG {
            table[row[i]] := table[row[i]].(pos := table[row[i]].pos + 1);
          }
        }
        i := i + 1;
      }
      fds := fds + [row];
      assert F() == Forked(s, t);
      forall g: nat | g < table.Length
        ensures table[g] == if IsPipe(s.table[g]) then s.table[g].(pos := s.table[g].pos + RowRefs(row, g, 0)) else s.table[g]
      {
        CountedMeans(s.table, row, PER_PROC, g);
        assert row[..PER_PROC] == row;
      }
    }

    method FdRedirect(t: nat, oldFd: nat, newFd: nat)
      requires Valid() && t < |fds| && oldFd < PER_PROC && newFd < PER_PROC
      modifies `fds
      ensures |old(fds[t])| == PER_PROC && F() == Redirected(old(F()), t, oldFd, newFd)
      ensures fds == old(fds)[t := old(fds[t])[oldFd := if newFd < 3 then newFd else old(fds[t])[newFd]]] && table[..] == old(table[..])
      ensures oldFd < 3 ==> Valid()
    {
      hide FilesOk, Refs;
      OkSizes(F());
      if oldFd < 3 {
        RedirectKeeps(F(), t, oldFd, newFd);
      }
      if newFd < 3 {
        fds := fds[t := fds[t][oldFd := newFd]];
      } else {
        var newGlobalFd := fds[t][newFd];
        fds := fds[t := fds[t][oldFd := newGlobalFd]];
      }
    }
  }

  lemma OkSizes(s: Files)
    requires FilesOk(s)
    ensures |s.table| == MAX_FILE_OPEN && forall t :: 0 <= t < |s.fds| ==> |s.fds[t]| == PER_PROC
  {
  }

  /** The second descriptor of a pipe is the next free one after the first. */
  lemma NextFd(row: seq<int>, k: nat, g: nat)
    requires 3 <= k < |row| && k == FreeFd(row, 3)
    ensures FreeFd(row[k := g], 3) == FreeFd(row, k + 1)
  {
    FreeFdIs(row[k := g], 3, FreeFd(row, k + 1));
  }

  lemma {:induction false} FreeFdIs(row: seq<int>, k: nat, n: nat)
    requires k <= n <= |row| && (n < |row| ==> row[n] == -1) && forall i :: k <= i < n ==> row[i] != -1
    ensures FreeFd(row, k) == n
    decreases n - k
  {
    if k < n {
      FreeFdIs(row, k + 1, n);
    }
  }
}
