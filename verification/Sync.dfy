/** Semaphores and reentrant locks, statement by statement. */
module Sync {
  // Tasks run sync.c one statement at a time and may be preempted between any two of them, save
  // where interrupts are off.

  import opened Sched

  const NOBODY := -1

  /** struct lock with its semaphore. */
  datatype Lock = Lock(holder: int, repeat: nat, value: nat, waiters: seq<Task>)

  /** The statement of sync.c a task is about to execute, for the lock it is at; Out is
      anywhere else. Asleep stands after thread_block in sema_down: interrupts are off
      there, and the value is tested again before they come back on. */
  datatype Pc =
    | Out
    | Acquire(l: nat)  // if (plock->holder != current_task)
    | Again(l: nat)    // plock->holder_repeat_nr++
    | Down(l: nat)     // sema_down
    | Asleep(l: nat)   // sema_down, woken up
    | Got(l: nat)      // plock->holder = current_task
    | First(l: nat)    // ASSERT and plock->holder_repeat_nr = 1
    | Release(l: nat)  // ASSERT and if (plock->holder_repeat_nr > 1)
    | Less(l: nat)     // plock->holder_repeat_nr--
    | Drop(l: nat)     // ASSERT and plock->holder = 0
    | Zero(l: nat)     // plock->holder_repeat_nr = 0
    | Up(l: nat)       // sema_up

  /** depth[t][l] counts what task t has done: completed acquires of l less completed releases. */
  datatype State = State(sched: Tasks, locks: seq<Lock>, pc: seq<Pc>, depth: seq<seq<nat>>)

  function Cur(s: State): Task { s.sched.current }

  ghost predicate Formed(s: State) {
    && TasksOk(s.sched)
    && |s.pc| == |s.depth| == |s.sched.status|
    && (forall t: Task :: t < |s.depth| ==> |s.depth[t]| == |s.locks|)
    && (forall t: Task :: t < |s.pc| && s.pc[t] != Out ==> s.pc[t].l < |s.locks|)
    && s.pc[IDLE] == Out
  }

  // ---- the steps ----

  datatype Step =
    | Preempt              // the timer: schedule() from the interrupt handler
    | Statement            // the next statement of sync.c
    | CallAcquire(l: nat)
    | CallRelease(l: nat)
    | Sleep(st: Status)    // thread_block and its like elsewhere, or the end of the task
    | Wake(t: Task)        // thread_unblock elsewhere, from a task or a handler
    | Spawn(t: Task)       // a new task
    | End(t: Task)         // thread_exit from sys_wait, of a task that hangs

  /** A task releases only what it has acquired; whoever sleeps in sema_down is woken by
      sema_up alone; with interrupts off there is no preemption. */
  ghost predicate Possible(s: State, e: Step)
    requires Formed(s)
  {
    match e
    case Preempt => !s.pc[Cur(s)].Asleep?
    case Statement => s.pc[Cur(s)] != Out
    case CallAcquire(l) => s.pc[Cur(s)] == Out && Cur(s) != IDLE && l < |s.locks|
    case CallRelease(l) => s.pc[Cur(s)] == Out && Cur(s) != IDLE && l < |s.locks| && s.depth[Cur(s)][l] > 0
    case Sleep(st) => s.pc[Cur(s)] == Out && !Runs(st) && st != Unborn && (Cur(s) == IDLE ==> st == Blocked)
    case Wake(t) => t < |s.pc| && s.pc[t] == Out && Sched.Asleep(s.sched.status[t])
    case Spawn(t) => t < |s.pc| && s.pc[t] == Out && s.sched.status[t] == Unborn
    case End(t) => t < |s.pc| && s.pc[t] == Out && s.sched.status[t] == Hanging
  }

  /** The current task goes on to `pc` with depth `n` in lock l, which becomes `k`. */
  ghost function Moved(s: State, l: nat, k: Lock, pc: Pc, n: nat): State
    requires Formed(s) && l < |s.locks|
  {
    var row: seq<nat> := s.depth[Cur(s)];
    s.(locks := s.locks[l := k], pc := s.pc[Cur(s) := pc], depth := s.depth[Cur(s) := row[l := n]])
  }

  /** sema_down from where it tests the value: once round its loop. */
  ghost function DownStep(s: State, l: nat): State
    requires Formed(s) && l < |s.locks|
  {
    var k, d := s.locks[l], s.depth[Cur(s)][l];
    if k.value == 0 then Moved(s, l, k.(waiters := k.waiters + [Cur(s)]), Asleep(l), d).(sched := BlockedWith(s.sched, Blocked))
    else Moved(s, l, k.(value := k.value - 1), Got(l), d)
  }

  ghost function UpStep(s: State, l: nat): State
    requires Formed(s) && l < |s.locks| && s.depth[Cur(s)][l] > 0
    requires forall t: Task :: t in s.locks[l].waiters ==> t < |s.pc|
  {
    var k, d := s.locks[l], s.depth[Cur(s)][l];
    if k.waiters == [] then Moved(s, l, k.(value := k.value + 1), Out, d - 1)
    else
      assert k.waiters[0] in k.waiters;
      Moved(s, l, k.(waiters := k.waiters[1..], value := k.value + 1), Out, d - 1).(sched := Unblocked(s.sched, k.waiters[0]))
  }

  ghost function Executed(s: State): State
    requires Formed(s) && s.pc[Cur(s)] != Out && AssertsHold(s)
  {
    var t, l := Cur(s), s.pc[Cur(s)].l;
    var k, d := s.locks[l], s.depth[t][l];
    match s.pc[t]
    case Acquire(_) => Moved(s, l, k, if k.holder != t then Down(l) else Again(l), d)
    case Again(_) => Moved(s, l, k.(repeat := k.repeat + 1), Out, d + 1)
    case Down(_) => DownStep(s, l)
    case Asleep(_) => DownStep(s, l)
    case Got(_) => Moved(s, l, k.(holder := t), First(l), d)
    case First(_) => Moved(s, l, k.(repeat := 1), Out, d + 1)
    case Release(_) => Moved(s, l, k, if k.repeat > 1 then Less(l) else Drop(l), d)
    case Less(_) => Moved(s, l, k.(repeat := k.repeat - 1), Out, d - 1)
    case Drop(_) => Moved(s, l, k.(holder := NOBODY), Zero(l), d)
    case Zero(_) => Moved(s, l, k.(repeat := 0), Up(l), d)
    case Up(_) => UpStep(s, l)
  }

  ghost function After(s: State, e: Step): State
    requires Formed(s) && Possible(s, e) && (e == Statement ==> AssertsHold(s))
  {
    match e
    case Preempt => s.(sched := Scheduled(s.sched))
    case Statement => Executed(s)
    case CallAcquire(l) => Moved(s, l, s.locks[l], Acquire(l), s.depth[Cur(s)][l])
    case CallRelease(l) => Moved(s, l, s.locks[l], Release(l), s.depth[Cur(s)][l])
    case Sleep(st) => s.(sched := BlockedWith(s.sched, st))
    case Wake(t) => s.(sched := Unblocked(s.sched, t))
    case Spawn(t) => s.(sched := Readied(s.sched, t))
    case End(t) => s.(sched := Ended(s.sched, t))
  }

  /** Every ASSERT the next statement of the current task would evaluate, those of
      thread_unblock and of the list of waiters included, and that no count goes below 0. */
  ghost predicate AssertsHold(s: State)
    requires Formed(s) && s.pc[Cur(s)] != Out
  {
    var t, l := Cur(s), s.pc[Cur(s)].l;
    var k := s.locks[l];
    match s.pc[t]
    case Down(_) => k.value != 0 ==> k.value - 1 == 0
    case Asleep(_) => k.value != 0 ==> k.value - 1 == 0
    case First(_) => k.repeat == 0
    case Release(_) => k.holder == t
    case Less(_) => k.repeat > 0 && s.depth[t][l] > 0
    case Drop(_) => k.repeat == 1
    case Up(_) =>
      && k.value == 0 && k.value + 1 == 1 && s.depth[t][l] > 0
      && (forall w: Task :: w in k.waiters ==> w < |s.pc|)
      && (k.waiters != [] ==> k.waiters[0] < |s.pc| && Sched.Asleep(s.sched.status[k.waiters[0]]) && k.waiters[0] !in s.sched.ready)
    case _ => true
  }

  // ---- the invariant ----

  /** Task t has taken the semaphore of lock l down and not put it up again. */
  ghost predicate Owns(s: State, t: Task, l: nat) {
    && t < |s.pc| && t < |s.depth| && l < |s.depth[t]|
    && (s.depth[t][l] > 0 || s.pc[t] == Got(l) || s.pc[t] == First(l))
  }

  /** What holder and holder_repeat_nr are while t owns the lock. */
  ghost predicate Held(k: Lock, t: Task, pc: Pc, l: nat, depth: nat) {
    if pc == Got(l) then k.holder == NOBODY && k.repeat == 0 == depth
    else if pc == First(l) then k.holder == t && k.repeat == 0 == depth
    else if pc == Less(l) then k.holder == t && k.repeat == depth >= 2
    else if pc == Drop(l) then k.holder == t && k.repeat == depth == 1
    else if pc == Zero(l) then k.holder == NOBODY && k.repeat == depth == 1
    else if pc == Up(l) then k.holder == NOBODY && k.repeat == 0 && depth == 1
    else k.holder == t && k.repeat == depth >= 1
  }

  ghost predicate HeldBy(s: State, l: nat, t: Task)
    requires Formed(s) && l < |s.locks|
  {
    Owns(s, t, l) && Held(s.locks[l], t, s.pc[t], l, s.depth[t][l])
  }

  /** Free, or owned by one task and no other. */
  ghost predicate LockOk(s: State, l: nat)
    requires Formed(s) && l < |s.locks|
  {
    var k := s.locks[l];
    && (k.value == 0 || k.value == 1)
    && (k.value == 1 ==> k.holder == NOBODY && k.repeat == 0 && forall t: Task :: !Owns(s, t, l))
    && (k.value == 0 ==> exists t: Task :: HeldBy(s, l, t))
    && (forall t: Task, u: Task :: Owns(s, t, l) && Owns(s, u, l) ==> t == u)
  }

  /** The waiters are the tasks that sleep in sema_down, each once; and while the lock is
      free someone who was woken has yet to look. */
  ghost predicate WaitOk(s: State, l: nat)
    requires Formed(s) && l < |s.locks|
  {
    var k := s.locks[l];
    && NoDuplicates(k.waiters)
    && (forall t: Task :: t in k.waiters <==> Sleeps(s, t, l))
    && (k.value == 1 && k.waiters != [] ==> exists t: Task :: Woken(s, t, l))
  }

  ghost predicate Sleeps(s: State, t: Task, l: nat) {
    t < |s.pc| && t < |s.sched.status| && s.pc[t] == Asleep(l) && s.sched.status[t] == Blocked
  }

  ghost predicate Woken(s: State, t: Task, l: nat) {
    t < |s.pc| && t < |s.sched.status| && s.pc[t] == Asleep(l) && Runs(s.sched.status[t])
  }

  /** Where a task stands fits what it owns. */
  ghost predicate PcOk(s: State, t: Task)
    requires Formed(s) && t < |s.pc|
  {
    && (s.pc[t] != Out && !s.pc[t].Asleep? ==> Runs(s.sched.status[t]))
    && (s.pc[t].Asleep? ==> Runs(s.sched.status[t]) || s.sched.status[t] == Blocked)
    && (s.pc[t].Again? || s.pc[t].Release? || s.pc[t].Less? || s.pc[t].Drop? || s.pc[t].Zero? || s.pc[t].Up? ==> s.depth[t][s.pc[t].l] > 0)
    && (s.pc[t].Down? || s.pc[t].Asleep? || s.pc[t].Got? || s.pc[t].First? ==> s.depth[t][s.pc[t].l] == 0)
  }

  ghost predicate Inv(s: State) {
    && Formed(s)
    && (forall t: Task {:trigger PcOk(s, t)} :: t < |s.pc| ==> PcOk(s, t))
    && (forall l: nat {:trigger LockOk(s, l)} :: l < |s.locks| ==> LockOk(s, l))
    && (forall l: nat {:trigger WaitOk(s, l)} :: l < |s.locks| ==> WaitOk(s, l))
  }

  // ---- no assertion fails ----

  lemma OwnerHeld(s: State, t: Task, l: nat)
    requires Inv(s) && l < |s.locks| && Owns(s, t, l)
    ensures s.locks[l].value == 0 && HeldBy(s, l, t)
  {
    assert LockOk(s, l);
  }

  /** In every state that can be reached no ASSERT of sync.c fails. */
  lemma NoAssertFails(s: State)
    requires Inv(s) && s.pc[Cur(s)] != Out
    ensures AssertsHold(s)
  {
    CurrentRuns(s);
    var t, l := Cur(s), s.pc[Cur(s)].l;
    assert PcOk(s, t) && LockOk(s, l) && WaitOk(s, l);
    if Owns(s, t, l) {
      OwnerHeld(s, t, l);
    }
    if s.pc[t].Up? && s.locks[l].waiters != [] {
      var w := s.locks[l].waiters[0];
      assert w in s.locks[l].waiters;
      SleeperOffList(s, w, l);
    }
  }

  lemma SleeperOffList(s: State, w: Task, l: nat)
    requires Formed(s) && Sleeps(s, w, l)
    ensures Sched.Asleep(s.sched.status[w]) && w !in s.sched.ready && w != Cur(s)
  {
  }

  // ---- one step at a time ----

  /** The current task moved, at lock l; besides it only `w` changed its status, if anyone:
      a task that slept there and was woken. */
  ghost predicate Local(s: State, s': State, l: nat, w: int)
    requires Formed(s)
  {
    var c := Cur(s);
    && Formed(s') && |s'.locks| == |s.locks| && |s'.pc| == |s.pc| && l < |s.locks|
    && (forall m: nat :: m < |s.locks| && m != l ==> s'.locks[m] == s.locks[m] && s'.depth[c][m] == s.depth[c][m])
    && (forall t: Task :: t < |s.pc| && t != c ==> s'.pc[t] == s.pc[t] && s'.depth[t] == s.depth[t])
    && (s.pc[c] == Out || s.pc[c].l == l) && (s'.pc[c] == Out || s'.pc[c].l == l)
    && (0 <= w < |s.pc| ==> s.pc[w] == Asleep(l))
    && (forall t: Task :: t < |s.pc| && t != c && t != w && t != IDLE ==>
          Runs(s'.sched.status[t]) == Runs(s.sched.status[t]) && (!Runs(s.sched.status[t]) ==> s'.sched.status[t] == s.sched.status[t]))
  }

  lemma OtherLock(s: State, s': State, l: nat, w: int, m: nat)
    requires Inv(s) && Local(s, s', l, w) && m < |s.locks| && m != l
    ensures LockOk(s', m)
  {
    hide TasksOk;
    assert LockOk(s, m);
    forall t: Task
      ensures Owns(s', t, m) == Owns(s, t, m)
      ensures Owns(s, t, m) ==> HeldBy(s', m, t) == HeldBy(s, m, t)
    {
    }
    if s.locks[m].value == 0 {
      var t: Task :| HeldBy(s, m, t);
      assert HeldBy(s', m, t);
    }
  }

  lemma OtherWaiters(s: State, s': State, l: nat, w: int, m: nat)
    requires Inv(s) && Local(s, s', l, w) && m < |s.locks| && m != l
    ensures WaitOk(s', m)
  {
    hide TasksOk, LockOk, PcOk;
    assert WaitOk(s, m);
    forall t: Task
      ensures Sleeps(s', t, m) == Sleeps(s, t, m)
      ensures Woken(s', t, m) == Woken(s, t, m)
    {
    }
    if s.locks[m].value == 1 && s.locks[m].waiters != [] {
      var t: Task :| Woken(s, t, m);
      assert Woken(s', t, m);
    }
  }

  lemma Conclude(s: State, s': State, l: nat, w: int)
    requires Inv(s) && Local(s, s', l, w) && LockOk(s', l) && WaitOk(s', l) && PcOk(s', Cur(s))
    requires 0 <= w < |s.pc| ==> PcOk(s', w)
    ensures Inv(s')
  {
    hide TasksOk, LockOk, WaitOk;
    forall m: nat | m < |s'.locks|
      ensures LockOk(s', m) && WaitOk(s', m)
    {
      if m != l {
        OtherLock(s, s', l, w, m);
        OtherWaiters(s, s', l, w, m);
      }
    }
    forall t: Task | t < |s'.pc|
      ensures PcOk(s', t)
    {
      assert PcOk(s, t);
    }
  }

  /** The lock stays with whoever owned it, or free. */
  lemma SameOwner(s: State, s': State, l: nat)
    requires Inv(s) && Formed(s') && l < |s.locks| == |s'.locks| && |s'.pc| == |s.pc|
    requires s'.locks[l].value == s.locks[l].value
    requires forall t: Task :: t < |s.pc| ==> Owns(s', t, l) == Owns(s, t, l)
    requires forall t: Task :: t < |s.pc| && HeldBy(s, l, t) ==> HeldBy(s', l, t)
    requires s.locks[l].value == 1 ==> s'.locks[l].holder == NOBODY && s'.locks[l].repeat == 0
    ensures LockOk(s', l)
  {
    hide TasksOk, HeldBy;
    assert LockOk(s, l);
    assert forall t: Task :: Owns(s', t, l) ==> Owns(s, t, l);
    if s.locks[l].value == 0 {
      var t: Task :| HeldBy(s, l, t);
      HeldMeans(s, l, t);
      assert HeldBy(s', l, t);
    }
  }

  lemma HeldMeans(s: State, l: nat, t: Task)
    requires Formed(s) && l < |s.locks| && HeldBy(s, l, t)
    ensures Owns(s, t, l) && t < |s.pc|
  {
  }

  /** No one went to sleep or woke up. */
  lemma SameWaiters(s: State, s': State, l: nat)
    requires Inv(s) && Formed(s') && l < |s.locks| == |s'.locks| && |s'.pc| == |s.pc| && s'.sched.status == s.sched.status
    requires s'.locks[l].waiters == s.locks[l].waiters
    requires forall t: Task :: t < |s.pc| && t != Cur(s) ==> s'.pc[t] == s.pc[t]
    requires !s'.pc[Cur(s)].Asleep?
    requires s'.locks[l].value == 1 ==> s.locks[l].value == 1 && !s.pc[Cur(s)].Asleep?
    ensures WaitOk(s', l)
  {
    hide LockOk, PcOk;
    assert WaitOk(s, l);
    assert s.sched.status[Cur(s)] == Running;
    forall t: Task
      ensures Sleeps(s', t, l) == Sleeps(s, t, l)
    {
    }
    if s'.locks[l].value == 1 && s'.locks[l].waiters != [] {
      var t: Task :| Woken(s, t, l);
      assert Woken(s', t, l);
    }
  }

  /** A step of the current task that does not touch the scheduler. */
  lemma MovedLocal(s: State, l: nat, k: Lock, pc: Pc, n: nat)
    requires Formed(s) && l < |s.locks| && Cur(s) != IDLE
    requires (s.pc[Cur(s)] == Out || s.pc[Cur(s)].l == l) && (pc == Out || pc.l == l)
    ensures var s' := Moved(s, l, k, pc, n);
            && Local(s, s', l, -1) && s'.sched == s.sched && Cur(s) < |s.pc|
            && s'.pc[Cur(s)] == pc && s'.depth[Cur(s)][l] == n && s'.locks[l] == k
            && (forall t: Task :: t != Cur(s) ==> Owns(s', t, l) == Owns(s, t, l))
            && (Owns(s', Cur(s), l) <==> n > 0 || pc == Got(l) || pc == First(l))
  {
  }

  /** A step that touches the value no more than the waiters: the lock stays with its owner
      or free. */
  lemma QuietStep(s: State, l: nat, k: Lock, pc: Pc, n: nat)
    requires Inv(s) && l < |s.locks| && Cur(s) != IDLE && !s.pc[Cur(s)].Asleep? && !pc.Asleep?
    requires (s.pc[Cur(s)] == Out || s.pc[Cur(s)].l == l) && (pc == Out || pc.l == l)
    requires k.value == s.locks[l].value && k.waiters == s.locks[l].waiters
    requires Owns(s, Cur(s), l) <==> n > 0 || pc == Got(l) || pc == First(l)
    requires if Owns(s, Cur(s), l) then Held(k, Cur(s), pc, l, n) else k == s.locks[l]
    requires pc.Again? || pc.Release? || pc.Less? || pc.Drop? || pc.Zero? || pc.Up? ==> n > 0
    requires pc.Down? || pc.Got? || pc.First? ==> n == 0
    ensures Inv(Moved(s, l, k, pc, n))
  {
    hide WaitOk;
    var c := Cur(s);
    var s' := Moved(s, l, k, pc, n);
    MovedLocal(s, l, k, pc, n);
    CurrentRuns(s);
    QuietLock(s, s', l);
    SameWaiters(s, s', l);
    Conclude(s, s', l, -1);
  }

  lemma QuietLock(s: State, s': State, l: nat)
    requires Inv(s) && Local(s, s', l, -1) && s'.locks[l].value == s.locks[l].value
    requires forall t: Task :: Owns(s', t, l) == Owns(s, t, l)
    requires if Owns(s, Cur(s), l) then Held(s'.locks[l], Cur(s), s'.pc[Cur(s)], l, s'.depth[Cur(s)][l]) else s'.locks[l] == s.locks[l]
    ensures LockOk(s', l)
  {
    hide TasksOk, WaitOk, PcOk;
    var c := Cur(s);
    assert LockOk(s, l);
    forall t: Task | t < |s.pc| && HeldBy(s, l, t)
      ensures HeldBy(s', l, t)
    {
      if Owns(s, c, l) {
        assert t == c;
      }
    }
    if s.locks[l].value == 1 {
      assert !Owns(s, c, l);
    }
    SameOwner(s, s', l);
  }

  lemma PlainStatement(s: State)
    requires Inv(s) && s.pc[Cur(s)] != Out && AssertsHold(s)
    requires !s.pc[Cur(s)].Down? && !s.pc[Cur(s)].Asleep? && !s.pc[Cur(s)].Up?
    ensures Inv(Executed(s))
  {
    CurrentRuns(s);
    hide TasksOk, WaitOk, LockOk;
    var c, l := Cur(s), s.pc[Cur(s)].l;
    var k, d := s.locks[l], s.depth[c][l];
    assert PcOk(s, c);
    if Owns(s, c, l) {
      OwnerHeld(s, c, l);
    } else {
      NotOwner(s, c, l);
    }
    match s.pc[c]
    case Acquire(_) => QuietStep(s, l, k, if k.holder != c then Down(l) else Again(l), d);
    case Again(_) => QuietStep(s, l, k.(repeat := k.repeat + 1), Out, d + 1);
    case Got(_) => QuietStep(s, l, k.(holder := c), First(l), d);
    case First(_) => QuietStep(s, l, k.(repeat := 1), Out, d + 1);
    case Release(_) => QuietStep(s, l, k, if k.repeat > 1 then Less(l) else Drop(l), d);
    case Less(_) => QuietStep(s, l, k.(repeat := k.repeat - 1), Out, d - 1);
    case Drop(_) => QuietStep(s, l, k.(holder := NOBODY), Zero(l), d);
    case Zero(_) => QuietStep(s, l, k.(repeat := 0), Up(l), d);
    case _ =>
  }

  lemma CurrentRuns(s: State)
    requires Formed(s)
    ensures Cur(s) < |s.pc| && s.sched.status[Cur(s)] == Running
  {
  }

  /** Only the owner can be entered as the holder. */
  lemma NotOwner(s: State, t: Task, l: nat)
    requires Inv(s) && l < |s.locks| && t < |s.pc| && !Owns(s, t, l)
    ensures s.locks[l].holder != t
  {
    assert LockOk(s, l);
    if s.locks[l].value == 0 {
      var u: Task :| HeldBy(s, l, u);
    }
  }

  // ---- going to sleep, taking the lock, putting it up ----

  lemma Takes(s: State, l: nat)
    requires Inv(s) && l < |s.locks| && (s.pc[Cur(s)] == Down(l) || s.pc[Cur(s)] == Asleep(l))
    requires s.locks[l].value == 1
    ensures Inv(DownStep(s, l))
  {
    CurrentRuns(s);
    hide TasksOk, WaitOk;
    var c := Cur(s);
    var s' := DownStep(s, l);
    assert PcOk(s, c) && LockOk(s, l);
    var k := s.locks[l];
    MovedLocal(s, l, k.(value := k.value - 1), Got(l), s.depth[c][l]);
    assert HeldBy(s', l, c);
    SameWaiters(s, s', l);
    Conclude(s, s', l, -1);
  }

  lemma FallsAsleep(s: State, l: nat)
    requires Inv(s) && l < |s.locks| && (s.pc[Cur(s)] == Down(l) || s.pc[Cur(s)] == Asleep(l))
    requires s.locks[l].value == 0
    ensures Inv(DownStep(s, l))
  {
    CurrentRuns(s);
    var c := Cur(s);
    assert c != IDLE;
    var k := s.locks[l];
    var m := Moved(s, l, k.(waiters := k.waiters + [c]), Asleep(l), s.depth[c][l]);
    MovedLocal(s, l, k.(waiters := k.waiters + [c]), Asleep(l), s.depth[c][l]);
    assert PcOk(s, c);
    hide TasksOk, WaitOk, LockOk, Inv, BlockedWith, Scheduled, HeldBy, Held;
    BlockEffect(s.sched, Blocked);
    var s' := DownStep(s, l);
    assert s' == m.(sched := s'.sched);
    assert Local(s, s', l, -1);
    NotHolder(s, c, l);
    forall t: Task
      ensures Owns(s', t, l) == Owns(m, t, l)
    {
    }
    SleepLock(s, s', l);
    SleeperJoins(s, s', l);
    Conclude(s, s', l, -1);
  }

  lemma NotHolder(s: State, c: Task, l: nat)
    requires Formed(s) && c < |s.pc| && PcOk(s, c) && (s.pc[c] == Down(l) || s.pc[c] == Asleep(l))
    ensures !Owns(s, c, l)
  {
  }

  lemma SleepLock(s: State, s': State, l: nat)
    requires Inv(s) && Local(s, s', l, -1) && s.locks[l].value == 0 == s'.locks[l].value
    requires s'.locks[l].holder == s.locks[l].holder && s'.locks[l].repeat == s.locks[l].repeat
    requires !Owns(s, Cur(s), l) && forall t: Task :: Owns(s', t, l) == Owns(s, t, l)
    ensures LockOk(s', l)
  {
    hide TasksOk, WaitOk, PcOk;
    assert LockOk(s, l);
    forall t: Task | t < |s.pc| && HeldBy(s, l, t)
      ensures HeldBy(s', l, t)
    {
    }
    SameOwner(s, s', l);
  }

  lemma FreeMeans(s: State, l: nat)
    requires Inv(s) && l < |s.locks|
    ensures s.locks[l].value == 1 ==> s.locks[l].holder == NOBODY && s.locks[l].repeat == 0
    ensures s.locks[l].value == 0 || s.locks[l].value == 1
  {
    assert LockOk(s, l);
  }

  lemma SleeperJoins(s: State, s': State, l: nat)
    requires Inv(s) && Formed(s') && l < |s.locks| == |s'.locks| && |s'.pc| == |s.pc| && Cur(s) < |s.pc| && s.sched.status[Cur(s)] == Running
    requires s'.pc == s.pc[Cur(s) := Asleep(l)] && s'.sched.status[Cur(s)] == Blocked && s.pc[IDLE] == Out && Cur(s) != IDLE
    requires s'.locks[l].waiters == s.locks[l].waiters + [Cur(s)] && s'.locks[l].value == 0
    requires forall t: Task :: t < |s.pc| && t != Cur(s) && t != IDLE ==>
               Runs(s'.sched.status[t]) == Runs(s.sched.status[t]) && (!Runs(s.sched.status[t]) ==> s'.sched.status[t] == s.sched.status[t])
    ensures WaitOk(s', l)
  {
    hide TasksOk, LockOk, PcOk;
    assert WaitOk(s, l);
    var c := Cur(s);
    assert !Sleeps(s, c, l);
    forall t: Task
      ensures Sleeps(s', t, l) == (t == c || Sleeps(s, t, l))
    {
    }
  }

  lemma PutsUp(s: State)
    requires Inv(s) && s.pc[Cur(s)].Up? && AssertsHold(s)
    ensures Inv(UpStep(s, s.pc[Cur(s)].l))
  {
    CurrentRuns(s);
    var c, l := Cur(s), s.pc[Cur(s)].l;
    var s' := UpStep(s, l);
    var k, d := s.locks[l], s.depth[c][l];
    assert PcOk(s, c);
    OwnerHeld(s, c, l);
    NobodyElse(s, c, l);
    var ws := k.waiters;
    if ws == [] {
      MovedLocal(s, l, k.(value := k.value + 1), Out, d - 1);
      hide TasksOk, WaitOk;
      WaitersGone(s, s', l);
      assert LockOk(s', l);
      Conclude(s, s', l, -1);
    } else {
      var w := ws[0];
      assert w in ws;
      WaiterSleeps(s, w, l);
      SleeperOffList(s, w, l);
      UnblockKeeps(s.sched, w);
      var m := Moved(s, l, k.(waiters := ws[1..], value := k.value + 1), Out, d - 1);
      MovedLocal(s, l, k.(waiters := ws[1..], value := k.value + 1), Out, d - 1);
      hide TasksOk, WaitOk;
      assert s' == m.(sched := s'.sched);
      assert Local(s, s', l, w);
      forall t: Task
        ensures Owns(s', t, l) == Owns(m, t, l)
      {
      }
      WaiterWakes(s, s', l);
      assert LockOk(s', l);
      assert PcOk(s, w);
      Conclude(s, s', l, w);
    }
  }

  lemma NobodyElse(s: State, c: Task, l: nat)
    requires Inv(s) && l < |s.locks| && Owns(s, c, l)
    ensures forall t: Task :: Owns(s, t, l) ==> t == c
  {
    assert LockOk(s, l);
  }

  lemma WaiterSleeps(s: State, w: Task, l: nat)
    requires Inv(s) && l < |s.locks| && w in s.locks[l].waiters
    ensures Sleeps(s, w, l)
  {
    assert WaitOk(s, l);
  }

  lemma WaitersGone(s: State, s': State, l: nat)
    requires Inv(s) && Formed(s') && l < |s.locks| == |s'.locks| && |s'.pc| == |s.pc| && s'.sched == s.sched
    requires s.locks[l].waiters == [] == s'.locks[l].waiters && s'.pc == s.pc[Cur(s) := Out] && Cur(s) < |s.pc|
    ensures WaitOk(s', l)
  {
    hide TasksOk, LockOk, PcOk;
    assert WaitOk(s, l);
    forall t: Task
      ensures !Sleeps(s', t, l)
    {
      assert !Sleeps(s, t, l);
    }
  }

  /** The first of the waiters leaves the list and has yet to look at the value. */
  lemma WaiterWakes(s: State, s': State, l: nat)
    requires Inv(s) && Formed(s') && l < |s.locks| == |s'.locks| && |s'.pc| == |s.pc|
    requires Cur(s) < |s.pc| && s'.pc == s.pc[Cur(s) := Out] && s.sched.status[Cur(s)] == Running
    requires s.locks[l].waiters != [] && s'.locks[l].waiters == s.locks[l].waiters[1..] && s.locks[l].waiters[0] < |s.pc|
    requires s'.sched.status == s.sched.status[s.locks[l].waiters[0] := Ready]
    ensures WaitOk(s', l)
  {
    hide TasksOk, LockOk, PcOk;
    assert WaitOk(s, l);
    var ws := s.locks[l].waiters;
    var w := ws[0];
    assert w in ws && Sleeps(s, w, l);
    forall t: Task
      ensures t in ws[1..] <==> t in ws && t != w
      ensures Sleeps(s', t, l) == (t != w && Sleeps(s, t, l))
    {
      if t in ws && t != w {
        var i :| 0 <= i < |ws| && ws[i] == t;
        assert ws[1..][i - 1] == t;
      }
    }
    assert Woken(s', w, l);
  }

  // ---- everything that can happen ----

  /** The scheduler alone changed: no lock, no statement. */
  lemma SchedulerOnly(s: State, s': State)
    requires Inv(s) && Formed(s') && s' == s.(sched := s'.sched)
    requires |s'.sched.status| == |s.sched.status|
    requires forall t: Task :: t < |s.pc| && s.pc[t] != Out ==>
               Runs(s'.sched.status[t]) == Runs(s.sched.status[t]) && (!Runs(s.sched.status[t]) ==> s'.sched.status[t] == s.sched.status[t])
    ensures Inv(s')
  {
    hide TasksOk, NoDuplicates;
    forall l: nat | l < |s'.locks|
      ensures LockOk(s', l) && WaitOk(s', l)
    {
      assert LockOk(s, l) && WaitOk(s, l);
      forall t: Task
        ensures Owns(s', t, l) == Owns(s, t, l)
        ensures HeldBy(s', l, t) == HeldBy(s, l, t)
        ensures Sleeps(s', t, l) == Sleeps(s, t, l)
        ensures Woken(s', t, l) == Woken(s, t, l)
      {
      }
      SchedulerOnlyLock(s, s', l);
    }
    forall t: Task | t < |s'.pc|
      ensures PcOk(s', t)
    {
      assert PcOk(s, t);
    }
  }

  lemma SchedulerOnlyLock(s: State, s': State, l: nat)
    requires Formed(s) && Formed(s') && s'.locks == s.locks && l < |s.locks| && LockOk(s, l) && WaitOk(s, l)
    requires forall t: Task :: Owns(s', t, l) == Owns(s, t, l)
    requires forall t: Task :: HeldBy(s', l, t) == HeldBy(s, l, t)
    requires forall t: Task :: Sleeps(s', t, l) == Sleeps(s, t, l)
    requires forall t: Task :: Woken(s', t, l) == Woken(s, t, l)
    ensures LockOk(s', l) && WaitOk(s', l)
  {
    hide TasksOk, Owns, HeldBy, Sleeps, Woken, NoDuplicates;
    if s.locks[l].value == 0 {
      var t: Task :| HeldBy(s, l, t);
      assert HeldBy(s', l, t);
    }
    if s.locks[l].value == 1 && s.locks[l].waiters != [] {
      var t: Task :| Woken(s, t, l);
      assert Woken(s', t, l);
    }
  }

  /** A call of lock_acquire or lock_release begins. */
  lemma CallBegins(s: State, pc: Pc)
    requires Inv(s) && s.pc[Cur(s)] == Out && Cur(s) != IDLE && (pc.Acquire? || pc.Release?) && pc.l < |s.locks|
    requires pc.Release? ==> s.depth[Cur(s)][pc.l] > 0
    ensures Inv(Moved(s, pc.l, s.locks[pc.l], pc, s.depth[Cur(s)][pc.l]))
  {
    CurrentRuns(s);
    hide TasksOk, WaitOk, LockOk;
    var c, l := Cur(s), pc.l;
    if Owns(s, c, l) {
      OwnerHeld(s, c, l);
    }
    QuietStep(s, l, s.locks[l], pc, s.depth[c][l]);
  }

  /** Every step of every task, under any preemption, keeps the invariant. */
  lemma StepKeeps(s: State, e: Step)
    requires Inv(s) && Possible(s, e)
    ensures e == Statement ==> AssertsHold(s)
    ensures Inv(After(s, e))
  {
    CurrentRuns(s);
    match e
    case Preempt => PreemptKeeps(s);
    case Statement =>
      NoAssertFails(s);
      StatementKeeps(s);
    case CallAcquire(l) => CallBegins(s, Acquire(l));
    case CallRelease(l) => CallBegins(s, Release(l));
    case Sleep(st) => SleepKeeps(s, st);
    case Wake(t) =>
      UnblockKeeps(s.sched, t);
      SchedulerOnly(s, After(s, e));
    case Spawn(t) =>
      SpawnKeeps(s, t);
    case End(t) =>
      EndKept(s, t);
  }

  lemma StatementKeeps(s: State)
    requires Inv(s) && s.pc[Cur(s)] != Out && AssertsHold(s)
    ensures Inv(Executed(s))
  {
    CurrentRuns(s);
    hide TasksOk, WaitOk, LockOk, PcOk;
    var l := s.pc[Cur(s)].l;
    FreeMeans(s, l);
    if s.pc[Cur(s)].Up? {
      PutsUp(s);
    } else if s.pc[Cur(s)].Down? || s.pc[Cur(s)].Asleep? {
      if s.locks[l].value == 0 {
        FallsAsleep(s, l);
      } else {
        Takes(s, l);
      }
    } else {
      PlainStatement(s);
    }
  }

  lemma PreemptKeeps(s: State)
    requires Inv(s)
    ensures Inv(s.(sched := Scheduled(s.sched)))
  {
    hide WaitOk, LockOk, PcOk;
    ScheduleFinds(s.sched);
    SchedulerOnly(s, s.(sched := Scheduled(s.sched)));
  }

  lemma SleepKeeps(s: State, st: Status)
    requires Inv(s) && Possible(s, Sleep(st))
    ensures Inv(s.(sched := BlockedWith(s.sched, st)))
  {
    hide WaitOk, LockOk, PcOk;
    MarkKeeps(s.sched, st);
    ScheduleFinds(Marked(s.sched, st));
    SchedulerOnly(s, s.(sched := BlockedWith(s.sched, st)));
  }

  lemma SpawnKeeps(s: State, t: Task)
    requires Inv(s) && Possible(s, Spawn(t))
    ensures Inv(s.(sched := Readied(s.sched, t)))
  {
    hide WaitOk, LockOk, PcOk;
    ReadyKeeps(s.sched, t);
    SchedulerOnly(s, s.(sched := Readied(s.sched, t)));
  }

  lemma EndKept(s: State, t: Task)
    requires Inv(s) && Possible(s, Step.End(t))
    ensures Inv(s.(sched := Ended(s.sched, t)))
  {
    hide WaitOk, LockOk, PcOk;
    EndKeeps(s.sched, t);
    SchedulerOnly(s, s.(sched := Ended(s.sched, t)));
  }

  // ---- who is woken ----

  /** Tasks wait for a lock in turn: whoever finds its semaphore taken goes to the end of the
      list, and sema_up wakes the first, if there is one, and no other; it is put at the front of
      the ready list. */
  lemma WaitInTurn(s: State, e: Step, l: nat)
    requires Inv(s) && Possible(s, e) && l < |s.locks| && (e == Statement ==> AssertsHold(s))
    ensures var s', c, was := After(s, e), Cur(s), s.locks[l].waiters;
            && |s'.locks| == |s.locks|
            && (if e == Statement && s.pc[c] == Up(l) && was != [] then
                  && s'.locks[l].waiters == was[1..]
                  && PutFirst(s.sched, s'.sched, was[0]) && Sleeps(s, was[0], l) && Woken(s', was[0], l)
                else if e == Statement && (s.pc[c] == Down(l) || s.pc[c] == Pc.Asleep(l)) && s.locks[l].value == 0 then
                  s'.locks[l].waiters == was + [c] && Sleeps(s', c, l) && GaveWay(s.sched, s'.sched, Blocked)
                else s'.locks[l].waiters == was)
  {
    CurrentRuns(s);
    var c, was := Cur(s), s.locks[l].waiters;
    if e == Statement && s.pc[c] == Up(l) && was != [] {
      assert was[0] in was && WaitOk(s, l);
      SleeperOffList(s, was[0], l);
    }
    if e == Statement && s.pc[c] != Out {
      BlockMeans(s.sched, Blocked);
    }
  }

  // ---- whole runs ----

  /** thread_init and lock_init of every lock: main runs, idle is ready, all locks are free. */
  ghost function Initial(slots: nat, locks: nat): State
    requires slots >= 2
  {
    State(Tasks(0, [IDLE], seq(slots, i => if i == 0 then Running else if i == IDLE then Ready else Unborn)),
          seq(locks, _ => Lock(NOBODY, 0, 1, [])), seq(slots, _ => Out), seq(slots, _ => seq(locks, _ => 0)))
  }

  lemma InitialOk(slots: nat, locks: nat)
    requires slots >= 2
    ensures Inv(Initial(slots, locks))
  {
    var s := Initial(slots, locks);
    forall l: nat | l < |s.locks|
      ensures LockOk(s, l) && WaitOk(s, l)
    {
      assert forall t: Task :: !Owns(s, t, l) && !Sleeps(s, t, l);
    }
  }

  ghost predicate Run(states: seq<State>, es: seq<Step>) {
    && |states| == |es| + 1
    && (exists slots: nat, locks: nat :: slots >= 2 && states[0] == Initial(slots, locks))
    && forall i :: 0 <= i < |es| ==>
         Formed(states[i]) && Possible(states[i], es[i]) && (es[i] == Statement ==> AssertsHold(states[i])) && states[i + 1] == After(states[i], es[i])
  }

  /** The invariant holds throughout every run. */
  lemma {:induction false} RunKeeps(states: seq<State>, es: seq<Step>, i: nat)
    requires Run(states, es) && i < |states|
    ensures Inv(states[i])
  {
    hide Inv, Formed, Possible, AssertsHold, After;
    if i == 0 {
      var slots: nat, locks: nat :| slots >= 2 && states[0] == Initial(slots, locks);
      InitialOk(slots, locks);
    } else {
      RunKeeps(states, es, i - 1);
      StepKeeps(states[i - 1], es[i - 1]);
    }
  }

  /** At most one task is between a completed outermost lock_acquire and the end of the
      lock_release that matches it, and while it is not inside either call the holder is
      that task and the repeat count its depth. */
  lemma MutualExclusion(states: seq<State>, es: seq<Step>, i: nat, t: Task, u: Task, l: nat)
    requires Run(states, es) && i < |states|
    requires var s := states[i]; t < |s.depth| && u < |s.depth| && l < |s.depth[t]| && l < |s.depth[u]| && l < |s.locks| && t < |s.pc|
    requires states[i].depth[t][l] > 0
    ensures states[i].depth[u][l] > 0 ==> u == t
    ensures var s := states[i];
            && s.locks[l].value == 0
            && (s.pc[t] == Out ==> s.locks[l].holder == t && s.locks[l].repeat == s.depth[t][l])
  {
    RunKeeps(states, es, i);
    var s := states[i];
    assert Owns(s, t, l) && LockOk(s, l);
    OwnerHeld(s, t, l);
    NobodyElse(s, t, l);
    assert s.depth[u][l] > 0 ==> Owns(s, u, l);
  }

  /** No wakeup is lost: while anyone waits for a lock that is free, someone who was woken
      will look again; and while it is taken, the one who took it has yet to put it up. */
  lemma NoLostWakeup(states: seq<State>, es: seq<Step>, i: nat, l: nat)
    requires Run(states, es) && i < |states| && l < |states[i].locks|
    ensures var s := states[i];
            && (s.locks[l].value == 0 || s.locks[l].value == 1)
            && (s.locks[l].value == 1 && s.locks[l].waiters != [] ==> exists t: Task :: Woken(s, t, l))
            && (s.locks[l].value == 0 ==> exists t: Task :: Owns(s, t, l))
            && (forall w: Task :: w in s.locks[l].waiters ==> Sleeps(s, w, l) && w !in s.sched.ready)
  {
    RunKeeps(states, es, i);
    var s := states[i];
    assert LockOk(s, l) && WaitOk(s, l);
    if s.locks[l].value == 0 {
      var t: Task :| HeldBy(s, l, t);
      HeldMeans(s, l, t);
    }
    forall w: Task | w in s.locks[l].waiters
      ensures Sleeps(s, w, l) && w !in s.sched.ready
    {
      SleeperOffList(s, w, l);
    }
  }

  /** A task's one tag is on at most one list: the ready list or the waiters of one lock. */
  lemma OneList(states: seq<State>, es: seq<Step>, i: nat, t: Task, l: nat, m: nat)
    requires Run(states, es) && i < |states| && l < |states[i].locks| && m < |states[i].locks|
    requires t in states[i].locks[l].waiters
    ensures t !in states[i].sched.ready && t != states[i].sched.current
    ensures t in states[i].locks[m].waiters ==> m == l
    ensures NoDuplicates(states[i].locks[l].waiters) && NoDuplicates(states[i].sched.ready)
  {
    hide LockOk, PcOk;
    RunKeeps(states, es, i);
    var s := states[i];
    assert WaitOk(s, l) && WaitOk(s, m);
    SleeperOffList(s, t, l);
  }
}
