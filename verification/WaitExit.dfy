/** sys_fork, sys_exit and sys_wait: who is whose parent, who waits, and who reaps whom.
    Each call is one step, up to where it blocks. */
module WaitExit {
  import opened Sched

  /** What is kept of the task table, by pid, which is also the slot: the list of all
      threads, parent_pid, exit_status, and whether the task is inside sys_wait. */
  datatype Procs = Procs(sched: Tasks, count: nat, init: Task, all: seq<Task>, parent: seq<int>, code: seq<int>, inWait: seq<bool>)

  /** (int8_t)status */
  function Trunc8(n: int): (r: int)
    ensures -128 <= r < 128 && (r - n) % 256 == 0
  {
    (n + 128) % 256 - 128
  }

  function Cur(s: Procs): Task { s.sched.current }

  ghost predicate Sized(s: Procs) {
    && |s.sched.status| == |s.parent| == |s.code| == |s.inWait|
    && s.sched.current < |s.parent| && IDLE < |s.parent|
    && (forall t: Task :: t in s.all ==> t < |s.parent|)
    && (forall t: Task :: t in s.sched.ready ==> t < |s.parent|)
  }

  // ---- the list walks ----

  predicate IsChild(s: Procs, t: Task, p: int, hanging: bool) {
    t < |s.parent| && t < |s.sched.status| && s.parent[t] == p && (hanging ==> s.sched.status[t] == Hanging)
  }

  /** The first task of the list from k on that is a child of p, hanging if that is asked. */
  function FirstChild(s: Procs, p: int, hanging: bool, k: nat): (r: nat)
    requires k <= |s.all|
    ensures k <= r <= |s.all| && (r < |s.all| ==> IsChild(s, s.all[r], p, hanging))
    ensures forall i :: k <= i < r ==> !IsChild(s, s.all[i], p, hanging)
    decreases |s.all| - k
  {
    if k == |s.all| || IsChild(s, s.all[k], p, hanging) then k else FirstChild(s, p, hanging, k + 1)
  }

  /** The children of the one that exits, all of them, go to init. */
  function Adopted(s: Procs, p: Task): seq<int> {
    seq(|s.parent|, t requires 0 <= t < |s.parent| => if t in s.all && s.parent[t] == p then s.init else s.parent[t])
  }

  // ---- the calls ----

  datatype Result = Reaped(child: Task, code: int) | NoChild | Blocks

  /** Once round the loop of sys_wait. */
  function WaitResult(s: Procs): Result
    requires Sized(s)
  {
    var i := FirstChild(s, Cur(s), true, 0);
    if i < |s.all| then Reaped(s.all[i], s.code[s.all[i]])
    else if FirstChild(s, Cur(s), false, 0) == |s.all| then NoChild
    else Blocks
  }

  function Waited(s: Procs): Procs
    requires Sized(s)
  {
    match WaitResult(s)
    case Reaped(c, _) =>
      var i := FirstChild(s, Cur(s), true, 0);
      s.(sched := s.sched.(status := s.sched.status[c := Died]), all := s.all[..i] + s.all[i + 1..], inWait := s.inWait[Cur(s) := false])
    case NoChild => s.(inWait := s.inWait[Cur(s) := false])
    case Blocks => s.(sched := BlockedWith(s.sched, Waiting), inWait := s.inWait[Cur(s) := true])
  }

  /** The parent, if it sleeps in sys_wait, is put at the front of the ready list. */
  function ParentWoken(s: Procs, p: int): Tasks
    requires Sized(s)
  {
    if 0 <= p < s.count && p < |s.sched.status| && s.sched.status[p] == Waiting then Unblocked(s.sched, p) else s.sched
  }

  function Exited(s: Procs, status: int): Procs
    requires Sized(s)
  {
    var c := Cur(s);
    var parents := Adopted(s, c);
    s.(sched := BlockedWith(ParentWoken(s, parents[c]), Hanging), parent := parents, code := s.code[c := Trunc8(status)])
  }

  /** The next slot of the table; the child is listed last and made ready last. */
  function Forked(s: Procs): Procs
    requires Sized(s) && s.count < |s.parent|
  {
    var c := s.count;
    s.(sched := Readied(s.sched, c), count := c + 1, all := s.all + [c], parent := s.parent[c := Cur(s)], code := s.code[c := 0])
  }

  // ---- the invariant ----

  ghost predicate Live(s: Procs, p: int) {
    p in s.all && 0 <= p < |s.sched.status| && s.sched.status[p] != Hanging && s.sched.status[p] != Died
  }

  /** A listed task's parent is none, init, or a listed task that has not ended. */
  ghost predicate ParentOk(s: Procs, t: Task)
    requires Sized(s) && t < |s.parent|
  {
    && (s.parent[t] == -1 || s.parent[t] == s.init || Live(s, s.parent[t]))
    && (s.parent[t] == t ==> t == s.init)
  }

  /** Nobody but init sleeps in sys_wait while a child of its is there to be reaped. */
  ghost predicate WaitOk(s: Procs, p: Task, c: Task)
    requires Sized(s) && p < |s.parent|
  {
    s.sched.status[p] == Waiting && p != s.init ==> !IsChild(s, c, p, true)
  }

  ghost predicate ProcsOk(s: Procs) {
    && TasksOk(s.sched) && Sized(s)
    && s.init < s.count <= |s.parent| && s.init != IDLE && IDLE < s.count
    && (forall t: Task :: t < |s.parent| ==> (s.sched.status[t] == Unborn <==> t >= s.count))
    && NoDuplicates(s.all)
    && (forall t: Task :: t in s.all ==> t < s.count && s.sched.status[t] != Died)
    && (forall t: Task :: t < |s.parent| && s.sched.status[t] != Unborn && s.sched.status[t] != Died ==> t in s.all)
    && (forall t: Task {:trigger ParentOk(s, t)} :: t in s.all ==> ParentOk(s, t))
    && (forall p: Task, c: Task {:trigger WaitOk(s, p, c)} :: p < |s.parent| && c in s.all ==> WaitOk(s, p, c))
    && (forall t: Task :: t < |s.parent| && s.sched.status[t] == Waiting ==> s.inWait[t])
    && s.sched.status[s.init] != Hanging && s.sched.status[s.init] != Died
  }

  // ---- what can happen ----

  datatype Event = Fork | Exit(status: int) | Wait | Tick | Block | Wake(t: Task)

  /** A task inside sys_wait goes on with it; init and idle do not exit. */
  ghost predicate MayHappen(s: Procs, e: Event) {
    && ProcsOk(s)
    && match e
       case Fork => !s.inWait[Cur(s)] && Cur(s) != IDLE && s.count < |s.parent|
       case Exit(_) => !s.inWait[Cur(s)] && Cur(s) != IDLE && Cur(s) != s.init
       case Wait => Cur(s) != IDLE
       case Tick => true
       case Block => !s.inWait[Cur(s)]
       case Wake(t) => t < |s.parent| && s.sched.status[t] == Blocked
  }

  ghost function After(s: Procs, e: Event): Procs
    requires MayHappen(s, e)
  {
    match e
    case Fork => Forked(s)
    case Exit(status) => Exited(s, status)
    case Wait => Waited(s)
    case Tick => s.(sched := Scheduled(s.sched))
    case Block => s.(sched := BlockedWith(s.sched, Blocked))
    case Wake(t) => s.(sched := Unblocked(s.sched, t))
  }

  /** The scheduler moved tasks about: who waited, hung or had ended still does. */
  lemma SchedulerOnly(s: Procs, s': Procs)
    requires ProcsOk(s) && TasksOk(s'.sched) && s' == s.(sched := s'.sched) && |s'.sched.status| == |s.sched.status|
    requires forall t: Task :: t < |s.sched.status| && t != IDLE ==>
               if Runs(s.sched.status[t]) || s.sched.status[t] == Blocked then Runs(s'.sched.status[t]) || s'.sched.status[t] == Blocked
               else s'.sched.status[t] == s.sched.status[t]
    ensures ProcsOk(s')
  {
    hide TasksOk, NoDuplicates;
    IdleStatus(s.sched);
    IdleStatus(s'.sched);
    ReadyThere(s'.sched);
    forall t: Task | t in s'.all
      ensures ParentOk(s', t)
    {
      assert ParentOk(s, t);
    }
    forall p: Task, c: Task | p < |s'.parent| && c in s'.all
      ensures WaitOk(s', p, c)
    {
      assert WaitOk(s, p, c);
    }
  }

  lemma IdleStatus(s: Tasks)
    requires TasksOk(s)
    ensures IDLE < |s.status| && (Runs(s.status[IDLE]) || s.status[IDLE] == Blocked)
  {
  }

  lemma ReadyThere(s: Tasks)
    requires TasksOk(s)
    ensures s.current < |s.status| && s.status[s.current] == Running
    ensures forall t: Task :: t in s.ready ==> t < |s.status|
  {
  }

  lemma ForkKeeps(s: Procs)
    requires MayHappen(s, Fork)
    ensures ProcsOk(Forked(s))
  {
    var c, s' := s.count, Forked(s);
    ReadyThere(s.sched);
    ReadyKeeps(s.sched, c);
    assert c !in s.sched.ready;
    hide TasksOk;
    ReadyThere(s'.sched);
    assert c !in s.all;
    forall t: Task | t in s'.all
      ensures ParentOk(s', t)
    {
      if t != c {
        assert ParentOk(s, t);
      }
    }
    forall p: Task, t: Task | p < |s'.parent| && t in s'.all
      ensures WaitOk(s', p, t)
    {
      if t != c {
        assert p != c ==> WaitOk(s, p, t);
      }
    }
  }

  // ---- exit ----

  /** The one that exits hangs, its waiting parent is ready to run, all others are as they were. */
  lemma ExitStatuses(s: Procs, status: int)
    requires MayHappen(s, Exit(status))
    ensures var s', c := Exited(s, status), Cur(s);
            && TasksOk(s'.sched) && |s'.sched.status| == |s.sched.status|
            && s'.sched.status[c] == Hanging
            && (forall t: Task :: t < |s.sched.status| && t != IDLE && t != c ==>
                  if s.sched.status[t] == Waiting && t == Adopted(s, c)[c] then Runs(s'.sched.status[t])
                  else if Runs(s.sched.status[t]) then Runs(s'.sched.status[t])
                  else s'.sched.status[t] == s.sched.status[t])
  {
    ParentWakes(s);
    hide TasksOk, BlockedWith, Unblocked, ParentWoken, WaitOk, ParentOk, NoDuplicates;
    BlockEffect(ParentWoken(s, Adopted(s, Cur(s))[Cur(s)]), Hanging);
  }

  lemma ParentWakes(s: Procs)
    requires ProcsOk(s) && Cur(s) != IDLE
    ensures var p := Adopted(s, Cur(s))[Cur(s)];
            var w := ParentWoken(s, p);
            && TasksOk(w) && w.current == Cur(s) && |w.status| == |s.sched.status|
            && (forall t: Task :: t < |w.status| && t != p ==> w.status[t] == s.sched.status[t])
            && (0 <= p < |w.status| ==> w.status[p] == if s.sched.status[p] == Waiting then Ready else s.sched.status[p])
  {
    hide TasksOk, WaitOk, ParentOk, NoDuplicates;
    var p := Adopted(s, Cur(s))[Cur(s)];
    if 0 <= p < s.count && s.sched.status[p] == Waiting {
      WakeEffect(s.sched, p);
    }
  }

  /** Before it goes to sleep for good the children have been given to init and the parent
      has been woken if it was waiting. */
  lemma ExitKeeps(s: Procs, status: int)
    requires MayHappen(s, Exit(status))
    ensures ProcsOk(Exited(s, status))
  {
    hide TasksOk, BlockedWith, Unblocked, ParentWoken, NoDuplicates, WaitOk;
    var s' := Exited(s, status);
    ExitStatuses(s, status);
    ReadyThere(s.sched);
    ReadyThere(s'.sched);
    IdleStatus(s.sched);
    IdleStatus(s'.sched);
    forall t: Task | t in s'.all
      ensures ParentOk(s', t)
    {
      ExitParent(s, s', t);
    }
    forall q: Task, t: Task | q < |s'.parent| && t in s'.all
      ensures WaitOk(s', q, t)
    {
      ExitWait(s, status, q, t);
    }
    assert forall t: Task :: t < |s'.parent| && t != IDLE && (s'.sched.status[t] == Unborn || s'.sched.status[t] == Died || s'.sched.status[t] == Waiting) ==> s.sched.status[t] == s'.sched.status[t];
  }

  lemma ExitWait(s: Procs, status: int, q: Task, t: Task)
    requires MayHappen(s, Exit(status)) && Sized(Exited(s, status)) && q < |Exited(s, status).parent| && t in s.all
    ensures WaitOk(Exited(s, status), q, t)
  {
    hide TasksOk, BlockedWith, Unblocked, ParentWoken, NoDuplicates;
    var s' := Exited(s, status);
    ExitStatuses(s, status);
    ReadyThere(s.sched);
    ReadyThere(s'.sched);
    IdleStatus(s.sched);
    IdleStatus(s'.sched);
    ExitParent(s, s', t);
    assert s'.sched.status[q] == Waiting ==> s.sched.status[q] == Waiting;
    assert WaitOk(s, q, t);
  }

  lemma ExitParent(s: Procs, s': Procs, t: Task)
    requires ProcsOk(s) && Sized(s') && t in s.all && s'.all == s.all && s'.init == s.init && s'.parent == Adopted(s, Cur(s))
    requires |s'.sched.status| == |s.sched.status|
    requires forall u: Task :: u < |s.sched.status| && u != Cur(s) && (s'.sched.status[u] == Hanging || s'.sched.status[u] == Died) ==>
               s.sched.status[u] == Hanging || s.sched.status[u] == Died
    ensures ParentOk(s', t)
  {
    hide TasksOk, NoDuplicates, WaitOk;
    assert ParentOk(s, t);
  }

  /** What sys_exit leaves: the children, alive or not, are init's, the status is cut to 8
      bits, and the parent, if it waits, runs next; otherwise whoever is first on the list. */
  ghost predicate ExitDone(s: Procs, s': Procs, status: int) {
    && Sized(s) && Cur(s) < |s'.code| && |s'.parent| == |s.parent|
    && s'.all == s.all && s'.count == s.count && s'.init == s.init && s'.inWait == s.inWait
    && s'.code == s.code[Cur(s) := s'.code[Cur(s)]] && -128 <= s'.code[Cur(s)] < 128 && (s'.code[Cur(s)] - status) % 256 == 0
    && (forall t: Task :: t < |s.parent| ==> s'.parent[t] == if t in s.all && s.parent[t] == Cur(s) then s.init else s.parent[t])
    && var p := s.parent[Cur(s)];
    if 0 <= p < |s.sched.status| && s.sched.status[p] == Waiting then
      s'.sched == Tasks(p, s.sched.ready, s.sched.status[Cur(s) := Hanging][p := Running])
    else
      GaveWay(s.sched, s'.sched, Hanging)
  }

  lemma ExitMeans(s: Procs, status: int)
    requires MayHappen(s, Exit(status))
    ensures ExitDone(s, Exited(s, status), status)
  {
    hide TasksOk, NoDuplicates, WaitOk, BlockedWith, GaveWay, Trunc8;
    ReadyThere(s.sched);
    IdleStatus(s.sched);
    var c, p := Cur(s), s.parent[Cur(s)];
    assert ParentOk(s, c);
    if 0 <= p < |s.sched.status| && s.sched.status[p] == Waiting {
      WakeEffect(s.sched, p);
      BlockMeans(Unblocked(s.sched, p), Hanging);
      WokenRuns(s.sched, p, BlockedWith(Unblocked(s.sched, p), Hanging));
    } else {
      BlockMeans(s.sched, Hanging);
    }
  }

  lemma WokenRuns(s: Tasks, p: Task, s': Tasks)
    requires s.current < |s.status| && p < |s.status| && p != s.current && GaveWay(Unblocked(s, p), s', Hanging)
    ensures s' == Tasks(p, s.ready, s.status[s.current := Hanging][p := Running])
  {
    assert ([p] + s.ready)[1..] == s.ready;
  }

  /** What sys_fork leaves. */
  ghost predicate ForkDone(s: Procs, s': Procs, child: Task) {
    && Sized(s) && child == s.count < |s.parent|
    && s' == Procs(s'.sched, s.count + 1, s.init, s.all + [child], s.parent[child := Cur(s)], s.code[child := 0], s.inWait)
    && PutLast(s.sched, s'.sched, child) && child !in s.sched.ready
  }

  lemma ForkMeans(s: Procs)
    requires MayHappen(s, Fork)
    ensures ForkDone(s, Forked(s), s.count)
  {
    SlotUnborn(s);
  }

  // ---- wait ----

  lemma WaitKeeps(s: Procs)
    requires MayHappen(s, Wait)
    ensures ProcsOk(Waited(s))
  {
    match WaitResult(s)
    case Reaped(c, _) => ReapKeeps(s, c);
    case NoChild => NoChildKeeps(s);
    case Blocks => BlockKeeps(s);
  }

  /** What sys_wait comes to goes by the list alone: -1 without children, asleep with living
      ones only, and otherwise the first child of the list that hangs is reaped: it is dead and
      off the list, and its status is returned. */
  ghost predicate WaitDone(s: Procs, s': Procs, r: Result) {
    && Sized(s)
    && (r.NoChild? <==> forall t: Task :: t in s.all ==> s.parent[t] != Cur(s))
    && (r.Blocks? <==>
          && (exists t: Task :: t in s.all && s.parent[t] == Cur(s))
          && forall t: Task :: t in s.all && s.parent[t] == Cur(s) ==> s.sched.status[t] != Hanging)
    && s'.inWait == s.inWait[Cur(s) := r.Blocks?] && s'.parent == s.parent && s'.code == s.code && s'.count == s.count && s'.init == s.init
    && match r
       case NoChild => s'.all == s.all && s'.sched == s.sched
       case Blocks => s'.all == s.all && GaveWay(s.sched, s'.sched, Waiting) && Cur(s') != Cur(s)
       case Reaped(c, code) =>
         && (exists i: nat :: FirstHanging(s, i, c) && s'.all == s.all[..i] + s.all[i + 1..])
         && c < |s.code| && code == s.code[c]
         && s'.sched == s.sched.(status := s.sched.status[c := Died])
  }

  ghost predicate FirstHanging(s: Procs, i: nat, c: Task)
    requires Sized(s)
  {
    && i < |s.all| && s.all[i] == c && c in s.all && s.parent[c] == Cur(s) && s.sched.status[c] == Hanging
    && forall t: Task :: t in s.all && t in s.all[..i] ==> s.parent[t] != Cur(s) || s.sched.status[t] != Hanging
  }

  lemma WaitMeans(s: Procs)
    requires MayHappen(s, Wait)
    ensures WaitDone(s, Waited(s), WaitResult(s))
  {
    hide TasksOk, NoDuplicates, ParentOk, WaitOk, BlockedWith, GaveWay;
    ReadyThere(s.sched);
    var i, j := FirstChild(s, Cur(s), true, 0), FirstChild(s, Cur(s), false, 0);
    forall t: Task | t in s.all && s.parent[t] == Cur(s)
      ensures j < |s.all| && (s.sched.status[t] == Hanging ==> i < |s.all|)
    {
      var k :| 0 <= k < |s.all| && s.all[k] == t;
      assert IsChild(s, s.all[k], Cur(s), false);
      assert s.sched.status[t] == Hanging ==> IsChild(s, s.all[k], Cur(s), true);
    }
    if i < |s.all| {
      assert s.all[i] in s.all;
      assert FirstHanging(s, i, s.all[i]);
    } else {
      if j < |s.all| {
        assert s.all[j] in s.all;
        BlockMeans(s.sched, Waiting);
      }
    }
  }

  lemma NoChildKeeps(s: Procs)
    requires MayHappen(s, Wait) && WaitResult(s).NoChild?
    ensures ProcsOk(Waited(s))
  {
    ReadyThere(s.sched);
    hide TasksOk, NoDuplicates;
    var s' := Waited(s);
    forall t: Task | t in s'.all
      ensures ParentOk(s', t)
    {
      assert ParentOk(s, t);
    }
    forall q: Task, t: Task | q < |s'.parent| && t in s'.all
      ensures WaitOk(s', q, t)
    {
      assert WaitOk(s, q, t);
    }
  }

  lemma BlockKeeps(s: Procs)
    requires MayHappen(s, Wait) && WaitResult(s).Blocks?
    ensures ProcsOk(Waited(s))
  {
    hide TasksOk, NoDuplicates, BlockedWith, WaitOk, ParentOk;
    var s' := Waited(s);
    ReadyThere(s.sched);
    IdleStatus(s.sched);
    BlockEffect(s.sched, Waiting);
    ReadyThere(s'.sched);
    forall t: Task | t in s.all
      ensures !IsChild(s, t, Cur(s), true)
    {
      NoneHangs(s, t);
    }
    hide Waited, WaitResult, FirstChild;
    BlockedOk(s, s');
  }

  lemma BlockedOk(s: Procs, s': Procs)
    requires ProcsOk(s) && Sized(s') && Cur(s) != IDLE && TasksOk(s'.sched) && OthersKept(s.sched, s'.sched, Cur(s))
    requires s' == s.(sched := s'.sched, inWait := s.inWait[Cur(s) := true]) && s'.sched.status[Cur(s)] == Waiting
    requires s.sched.status[Cur(s)] == Running && forall t: Task :: t in s.all ==> !IsChild(s, t, Cur(s), true)
    ensures ProcsOk(s')
  {
    hide TasksOk, NoDuplicates;
    IdleStatus(s.sched);
    IdleStatus(s'.sched);
    forall t: Task | t in s'.all
      ensures ParentOk(s', t)
    {
      assert ParentOk(s, t);
    }
    forall q: Task, t: Task | q < |s'.parent| && t in s'.all
      ensures WaitOk(s', q, t)
    {
      assert q != Cur(s) ==> WaitOk(s, q, t);
    }
  }

  /** The walk over the whole list found no hanging child. */
  lemma NoneHangs(s: Procs, t: Task)
    requires Sized(s) && t in s.all && FirstChild(s, Cur(s), true, 0) == |s.all|
    ensures !IsChild(s, t, Cur(s), true)
  {
    var i :| 0 <= i < |s.all| && s.all[i] == t;
  }

  lemma ReapKeeps(s: Procs, c: Task)
    requires MayHappen(s, Wait) && WaitResult(s).Reaped? && WaitResult(s).child == c
    ensures ProcsOk(Waited(s)) && c in s.all && c !in Waited(s).all && s.sched.status[c] == Hanging
  {
    hide TasksOk, NoDuplicates, ParentOk, WaitOk, FirstChild;
    var i, s' := FirstChild(s, Cur(s), true, 0), Waited(s);
    ReadyThere(s.sched);
    assert s.all[i] == c && c in s.all;
    ReapedTasks(s.sched, c);
    WithoutAll(s.all, i);
    hide Waited, WaitResult;
    ReapedOk(s, s', c);
  }

  lemma ReapedOk(s: Procs, s': Procs, c: Task)
    requires ProcsOk(s) && c in s.all && s.sched.status[c] == Hanging && TasksOk(s'.sched) && Cur(s) < |s.inWait|
    requires s' == s.(sched := s.sched.(status := s.sched.status[c := Died]), all := s'.all, inWait := s.inWait[Cur(s) := false])
    requires NoDuplicates(s'.all) && (forall t: Task :: t in s'.all <==> t in s.all && t != c) && s.sched.status[Cur(s)] == Running
    ensures ProcsOk(s')
  {
    hide TasksOk, NoDuplicates;
    ReadyThere(s'.sched);
    forall t: Task | t in s'.all
      ensures ParentOk(s', t)
    {
      assert ParentOk(s, t);
    }
    forall q: Task, t: Task | q < |s'.parent| && t in s'.all
      ensures WaitOk(s', q, t)
    {
      assert WaitOk(s, q, t);
    }
  }

  lemma ReapedTasks(s: Tasks, c: Task)
    requires TasksOk(s) && c < |s.status| && s.status[c] == Hanging
    ensures TasksOk(s.(status := s.status[c := Died])) && c != s.current && c !in s.ready
    ensures Ended(s, c) == s.(status := s.status[c := Died])
  {
  }

  /** Every call of every task keeps the family in order. */
  lemma EventKeeps(s: Procs, e: Event)
    requires MayHappen(s, e)
    ensures ProcsOk(After(s, e))
  {
    hide TasksOk, NoDuplicates, Scheduled, BlockedWith, Unblocked, ParentOk, WaitOk;
    match e
    case Fork => ForkKeeps(s);
    case Exit(status) => ExitKeeps(s, status);
    case Wait => WaitKeeps(s);
    case Tick =>
      TickEffect(s.sched);
      SchedulerOnly(s, After(s, e));
    case Block =>
      ReadyThere(s.sched);
      BlockEffect(s.sched, Blocked);
      SchedulerOnly(s, After(s, e));
    case Wake(t) =>
      WakeEffect(s.sched, t);
      SchedulerOnly(s, After(s, e));
  }

  // ---- init ----

  /** A task that is there for init to reap while init sleeps. */
  ghost predicate InitMisses(s: Procs, c: Task) {
    Sized(s) && s.init < |s.parent| && c in s.all && s.sched.status[s.init] == Waiting && IsChild(s, c, s.init, true)
  }

  /** sys_exit hands children that are already dead to init without waking it. If init
      misses nobody before an exit, it does afterwards exactly when it was waiting, the one
      that exits has a dead child, and is itself no child of init's. */
  lemma ExitMayMissInit(s: Procs, status: int)
    requires MayHappen(s, Exit(status)) && forall c: Task :: !InitMisses(s, c)
    ensures (exists c: Task :: InitMisses(Exited(s, status), c)) <==>
              && s.sched.status[s.init] == Waiting && s.parent[Cur(s)] != s.init
              && exists c: Task :: c in s.all && IsChild(s, c, Cur(s), true)
  {
    hide TasksOk, BlockedWith, Unblocked, ParentWoken, NoDuplicates, WaitOk;
    var s', x := Exited(s, status), Cur(s);
    ExitStatuses(s, status);
    ExitKeeps(s, status);
    ReadyThere(s.sched);
    IdleStatus(s.sched);
    IdleStatus(s'.sched);
    assert ParentOk(s, x);
    if exists c: Task :: InitMisses(s', c) {
      var c: Task :| InitMisses(s', c);
      assert !InitMisses(s, c);
      assert c in s.all && IsChild(s, c, x, true);
    }
    if s.sched.status[s.init] == Waiting && s.parent[x] != s.init && exists c: Task :: c in s.all && IsChild(s, c, x, true) {
      var c: Task :| c in s.all && IsChild(s, c, x, true);
      assert InitMisses(s', c);
    }
  }

  // ---- whole runs ----

  ghost predicate Run(states: seq<Procs>, es: seq<Event>) {
    && |states| == |es| + 1 && ProcsOk(states[0])
    && forall i :: 0 <= i < |es| ==> MayHappen(states[i], es[i]) && states[i + 1] == After(states[i], es[i])
  }

  lemma {:induction false} RunKeeps(states: seq<Procs>, es: seq<Event>, i: nat)
    requires Run(states, es) && i < |states|
    ensures ProcsOk(states[i]) && |states[i].parent| == |states[0].parent|
    decreases i
  {
    hide ProcsOk, MayHappen, After;
    if i > 0 {
      RunKeeps(states, es, i - 1);
      EventKeeps(states[i - 1], es[i - 1]);
      SizesKept(states[i - 1], es[i - 1]);
    }
  }

  lemma SizesKept(s: Procs, e: Event)
    requires MayHappen(s, e)
    ensures |After(s, e).parent| == |s.parent|
  {
  }

  /** One step of a task that has ended: it stays as it is until it is reaped, by its
      parent, and then for ever. */
  lemma EndedStays(s: Procs, e: Event, c: Task)
    requires MayHappen(s, e) && c < |s.parent|
    requires s.sched.status[c] == Hanging || s.sched.status[c] == Died
    ensures var s' := After(s, e);
            && c < |s'.sched.status| && c < |s'.code| && s'.code[c] == s.code[c]
            && (s.sched.status[c] == Died ==> s'.sched.status[c] == Died)
            && (s.sched.status[c] == Hanging ==>
                  || s'.sched.status[c] == Hanging
                  || (s'.sched.status[c] == Died && e == Wait && WaitResult(s) == Reaped(c, s.code[c]) && s.parent[c] == Cur(s)))
            && (e == Wait && WaitResult(s).Reaped? && WaitResult(s).child == c ==> s.sched.status[c] == Hanging && s'.sched.status[c] == Died)
  {
    hide TasksOk, NoDuplicates, Scheduled, BlockedWith, Unblocked, ParentOk, WaitOk, ParentWoken;
    ReadyThere(s.sched);
    IdleStatus(s.sched);
    match e
    case Fork => ForkStatuses(s);
    case Exit(status) => ExitStatuses(s, status);
    case Wait =>
      if WaitResult(s).Blocks? {
        BlockEffect(s.sched, Waiting);
      }
    case Tick => TickEffect(s.sched);
    case Block => BlockEffect(s.sched, Blocked);
    case Wake(t) => WakeEffect(s.sched, t);
  }

  lemma ForkStatuses(s: Procs)
    requires MayHappen(s, Fork)
    ensures var s' := Forked(s);
            |s'.sched.status| == |s.sched.status| && forall t: Task :: t < |s.parent| && t != s.count ==> s'.sched.status[t] == s.sched.status[t]
  {
    hide TasksOk, NoDuplicates, ParentOk, WaitOk;
  }

  ghost predicate Reaps(s: Procs, e: Event, c: Task) {
    MayHappen(s, e) && e == Wait && WaitResult(s).Reaped? && WaitResult(s).child == c
  }

  lemma {:induction false} EndedInRun(states: seq<Procs>, es: seq<Event>, i: nat, j: nat, c: Task)
    requires Run(states, es) && i <= j < |states| && c < |states[0].parent|
    requires c < |states[i].sched.status| && (states[i].sched.status[c] == Hanging || states[i].sched.status[c] == Died)
    ensures c < |states[j].sched.status| && c < |states[j].code| && c < |states[i].code| && states[j].code[c] == states[i].code[c]
    ensures states[j].sched.status[c] == Hanging || states[j].sched.status[c] == Died
    ensures states[i].sched.status[c] == Died ==> states[j].sched.status[c] == Died
    decreases j - i
  {
    hide MayHappen, After, TasksOk, ParentOk, WaitOk;
    RunKeeps(states, es, i);
    if i < j {
      EndedInRun(states, es, i, j - 1, c);
      RunKeeps(states, es, j - 1);
      EndedStays(states[j - 1], es[j - 1], c);
    }
  }

  /** A child that exits is reaped at most once, by its parent, and what sys_wait returns is
      what it passed to sys_exit, truncated to 8 bits. */
  lemma ReapedOnce(states: seq<Procs>, es: seq<Event>, i: nat, j: nat, k: nat, c: Task, status: int)
    requires Run(states, es) && i < j < k < |es|
    requires es[i] == Exit(status) && Cur(states[i]) == c && Reaps(states[j], es[j], c)
    ensures WaitResult(states[j]) == Reaped(c, Trunc8(status))
    ensures c < |states[j].parent| && states[j].parent[c] == Cur(states[j])
    ensures !Reaps(states[k], es[k], c)
  {
    hide After, TasksOk, ParentOk, WaitOk;
    RunKeeps(states, es, i);
    RunKeeps(states, es, j);
    RunKeeps(states, es, k);
    ExitStatuses(states[i], status);
    ExitCode(states[i], status);
    assert states[i + 1] == Exited(states[i], status) by { AfterExit(states[i], status); }
    EndedInRun(states, es, i + 1, j, c);
    EndedStays(states[j], es[j], c);
    EndedInRun(states, es, j + 1, k, c);
    if Reaps(states[k], es[k], c) {
      EndedStays(states[k], es[k], c);
    }
  }

  lemma AfterExit(s: Procs, status: int)
    requires MayHappen(s, Exit(status))
    ensures After(s, Exit(status)) == Exited(s, status)
  {
  }

  lemma ExitCode(s: Procs, status: int)
    requires MayHappen(s, Exit(status))
    ensures Exited(s, status).code[Cur(s)] == Trunc8(status)
  {
  }

  // ---- the calls, in place ----

  class ProcessTable {
    const sched: Scheduler
    const init: Task
    var count: nat
    var all: seq<Task>
    const parent: array<int>
    const code: array<int>
    const inWait: array<bool>

    ghost function P(): Procs
      reads this, sched, sched.status, parent, code, inWait
    {
      Procs(sched.S(), count, init, all, parent[..], code[..], inWait[..])
    }

    ghost predicate Valid()
      reads this, sched, sched.status, parent, code, inWait
    {
      parent != code && ProcsOk(P())
    }

    /** thread_init and the first process: main, idle and init, none of them anyone's child. */
    constructor (slots: nat)
      requires slots >= 3
      ensures Valid() && init == 2 && fresh(sched) && fresh(sched.status) && fresh(parent) && fresh(code) && fresh(inWait)
    {
      sched := new Scheduler(slots);
      init, count, all := 2, 3, [0, 1, 2];
      parent := new int[slots](_ => -1);
      code := new int[slots](_ => 0);
      inWait := new bool[slots](_ => false);
      new;
      sched.ThreadReady(2);
      assert sched.status[..] == seq(slots, i => if i == 0 then Running else if i == IDLE || i == 2 then Ready else Unborn);
      InitialOk(P(), slots);
    }

    /** sys_wait up to where it blocks, or from where it was woken to there. */
    method SysWait() returns (r: Result)
      requires Valid() && MayHappen(P(), Wait)
      modifies `all, sched, sched.status, inWait
      ensures Valid() && r == WaitResult(old(P())) && P() == Waited(old(P()))
      ensures WaitDone(old(P()), P(), r)
    {
      hide ProcsOk, Ended, TasksOk, WaitDone, GaveWay, LeftList;
      ghost var s := P();
      WaitMeans(s);
      WaitKeeps(s);
      OkSized(s);
      var ppid := sched.current;
      var e := 0;
      while e < |all|
        invariant e <= |all| && P() == s
        invariant FirstChild(s, ppid, true, 0) == FirstChild(s, ppid, true, e)
      {
        var child := all[e];
        assert child in s.all;
        if parent[child] == ppid && sched.status[child] == Hanging {
          r := Reaped(child, code[child]);
          HangingOff(s, child);
          ReapedTasks(s.sched, child);
          sched.ThreadExit(child, false);
          all := all[..e] + all[e + 1..];
          inWait[ppid] := false;
          assert P() == Waited(s);
          return;
        }
        e := e + 1;
      }
      e := 0;
      while e < |all|
        invariant e <= |all| && P() == s
        invariant FirstChild(s, ppid, false, 0) == FirstChild(s, ppid, false, e)
      {
        assert all[e] in s.all;
        if parent[all[e]] == ppid {
          break;
        }
        e := e + 1;
      }
      if e == |all| {
        inWait[ppid] := false;
        assert P() == Waited(s);
        return NoChild;
      }
      inWait[ppid] := true;
      sched.ThreadBlockWithStatus(Waiting);
      assert P() == Waited(s);
      return Blocks;
    }

    method SysExit(status: int)
      requires Valid() && MayHappen(P(), Exit(status))
      modifies sched, sched.status, parent, code
      ensures Valid() && P() == Exited(old(P()), status)
      ensures ExitDone(old(P()), P(), status)
    {
      hide ProcsOk, GaveWay, PutFirst, ExitDone;
      ghost var s := P();
      ExitMeans(s, status);
      ExitKeeps(s, status);
      OkSized(s);
      var cur := sched.current;
      code[cur] := Trunc8(status);
      var e := 0;
      while e < |all|
        invariant e <= |all| && all == s.all && sched.S() == s.sched && code[..] == s.code[cur := Trunc8(status)] && inWait[..] == s.inWait && count == s.count
        invariant forall t: Task :: t < parent.Length ==> parent[t] == if t in s.all[..e] && s.parent[t] == cur then init else s.parent[t]
      {
        var t := all[e];
        assert t in s.all;
        assert s.all[..e + 1] == s.all[..e] + [t];
        if parent[t] == cur {
          parent[t] := init;
        }
        e := e + 1;
      }
      assert s.all[..e] == s.all;
      assert parent[..] == Adopted(s, cur);
      ExitWakes(s, status);
      var p := parent[cur];
      if 0 <= p < count && sched.status[p] == Waiting {
        sched.ThreadUnblock(p);
      }
      assert sched.S() == ParentWoken(s, p);
      sched.ThreadBlockWithStatus(Hanging);
      assert P() == Exited(s, status);
    }

    method SysFork() returns (pid: Task)
      requires Valid() && MayHappen(P(), Fork)
      modifies `count, `all, sched, sched.status, parent, code
      ensures Valid() && P() == Forked(old(P())) && pid == old(count)
      ensures ForkDone(old(P()), P(), pid)
      ensures parent[pid] == old(sched.current) && pid in all && sched.status[pid] == Ready
    {
      hide ProcsOk, PutLast, ForkDone;
      ghost var s := P();
      ForkMeans(s);
      ForkKeeps(s);
      OkSized(s);
      pid := count;
      count := count + 1;
      all := all + [pid];
      parent[pid] := sched.current;
      code[pid] := 0;
      SlotUnborn(s);
      sched.ThreadReady(pid);
      assert P() == Forked(s);
    }
  }

  lemma InitialOk(s: Procs, slots: nat)
    requires slots >= 3 && TasksOk(s.sched) && s.sched.status == seq(slots, i => if i == 0 then Running else if i == IDLE || i == 2 then Ready else Unborn)
    requires s == Procs(s.sched, 3, 2, [0, 1, 2], seq(slots, _ => -1), seq(slots, _ => 0), seq(slots, _ => false))
    ensures ProcsOk(s)
  {
    ReadyThere(s.sched);
    hide TasksOk;
    forall p: Task, c: Task | p < |s.parent| && c in s.all
      ensures WaitOk(s, p, c)
    {
    }
  }

  lemma OkSized(s: Procs)
    requires ProcsOk(s)
    ensures Sized(s) && TasksOk(s.sched) && s.sched.status[Cur(s)] == Running && s.init < |s.parent| && s.count <= |s.parent|
  {
  }

  lemma SlotUnborn(s: Procs)
    requires ProcsOk(s) && s.count < |s.parent|
    ensures s.sched.status[s.count] == Unborn && s.count !in s.sched.ready
  {
  }

  lemma HangingOff(s: Procs, c: Task)
    requires ProcsOk(s) && c < |s.parent| && s.sched.status[c] == Hanging
    ensures c !in s.sched.ready && c != Cur(s)
  {
  }

  lemma ExitWakes(s: Procs, status: int)
    requires MayHappen(s, Exit(status))
    ensures var w := ParentWoken(s, Adopted(s, Cur(s))[Cur(s)]);
            && TasksOk(w) && w.current == Cur(s) != IDLE
            && TasksMarked(s.sched)
            && (forall p: Task :: p < |s.parent| && s.sched.status[p] == Waiting ==> p !in s.sched.ready)
  {
    var p := Adopted(s, Cur(s))[Cur(s)];
    if 0 <= p < s.count && s.sched.status[p] == Waiting {
      UnblockKeeps(s.sched, p);
    }
  }
}
