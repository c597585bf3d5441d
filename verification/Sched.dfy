/** The ready list and the current task: thread.c's scheduling calls, what each of them
    keeps, and how long a ready task waits. */
module Sched {
  /** An index into g_task_table. */
  type Task = nat

  const IDLE: Task := 1  // thread_init creates it right after main

  /** enum task_status; Unborn is a slot of the table that is not in use yet. */
  datatype Status = Unborn | Running | Ready | Blocked | Waiting | Hanging | Died

  datatype Tasks = Tasks(current: Task, ready: seq<Task>, status: seq<Status>)

  predicate Asleep(st: Status) {
    st == Blocked || st == Waiting || st == Hanging
  }

  predicate Runs(st: Status) {
    st == Running || st == Ready
  }

  ghost predicate NoDuplicates(s: seq<Task>) {
    forall i, j :: 0 <= i < j < |s| ==> s[i] != s[j]
  }

  /** The current task is the one that runs, the list holds each ready task once and no
      other, and the idle task is never anything but running, ready or blocked. */
  ghost predicate TasksOk(s: Tasks) {
    && s.current < |s.status| && IDLE < |s.status|
    && (forall t: Task :: t < |s.status| ==> (s.status[t] == Running <==> t == s.current))
    && NoDuplicates(s.ready)
    && (forall t: Task :: t in s.ready <==> t < |s.status| && s.status[t] == Ready)
    && (s.status[IDLE] == Running || s.status[IDLE] == Ready || s.status[IDLE] == Blocked)
  }

  /** The same, but the current task may just have been marked as anything. */
  ghost predicate TasksMarked(s: Tasks) {
    && s.current < |s.status| && IDLE < |s.status|
    && (forall t: Task :: t < |s.status| && s.status[t] == Running ==> t == s.current)
    && NoDuplicates(s.ready)
    && (forall t: Task :: t in s.ready <==> t < |s.status| && s.status[t] == Ready)
    && (s.status[IDLE] == Running || s.status[IDLE] == Ready || s.status[IDLE] == Blocked)
  }

  // ---- the calls, as functions ----

  function Marked(s: Tasks, st: Status): Tasks
    requires s.current < |s.status|
  {
    s.(status := s.status[s.current := st])
  }

  /** thread_unblock pushes to the front. */
  function Unblocked(s: Tasks, t: Task): Tasks
    requires t < |s.status|
  {
    s.(ready := [t] + s.ready, status := s.status[t := Ready])
  }

  /** The current task to the end of the list. */
  function Queued(s: Tasks): Tasks
    requires s.current < |s.status|
  {
    s.(ready := s.ready + [s.current], status := s.status[s.current := Ready])
  }

  function Scheduled(s: Tasks): Tasks
    requires s.current < |s.status| && IDLE < |s.status| && forall t :: t in s.ready ==> t < |s.status|
  {
    var s1 := if s.status[s.current] == Running then Queued(s) else s;
    var s2 := if s1.ready == [] then Unblocked(s1, IDLE) else s1;
    assert s.ready != [] ==> s.ready[0] in s.ready;
    Tasks(s2.ready[0], s2.ready[1..], s2.status[s2.ready[0] := Running])
  }

  function BlockedWith(s: Tasks, st: Status): Tasks
    requires s.current < |s.status| && IDLE < |s.status| && forall t :: t in s.ready ==> t < |s.status|
  {
    Scheduled(Marked(s, st))
  }

  function Yielded(s: Tasks): Tasks
    requires s.current < |s.status| && IDLE < |s.status| && forall t :: t in s.ready ==> t < |s.status|
  {
    Scheduled(Queued(s))
  }

  function Readied(s: Tasks, t: Task): Tasks
    requires t < |s.status|
  {
    if t in s.ready then s else s.(ready := s.ready + [t], status := s.status[t := Ready])
  }

  /** thread_exit: the task leaves the ready list if it is on it. */
  function Ended(s: Tasks, t: Task): Tasks
    requires t < |s.status|
  {
    s.(ready := Without(s.ready, t), status := s.status[t := Died])
  }

  /** The first place of a task in a list, the list's length if it is not there. */
  function PlaceOf(ready: seq<Task>, t: Task, i: nat): (r: nat)
    requires i <= |ready|
    ensures i <= r <= |ready| && (r < |ready| ==> ready[r] == t)
    ensures forall j :: i <= j < r ==> ready[j] != t
    decreases |ready| - i
  {
    if i == |ready| || ready[i] == t then i else PlaceOf(ready, t, i + 1)
  }

  function Without(ready: seq<Task>, t: Task): (r: seq<Task>)
    ensures forall u :: u in r ==> u in ready
  {
    var i := PlaceOf(ready, t, 0);
    if i == |ready| then ready else ready[..i] + ready[i + 1..]
  }

  // ---- what they keep ----

  /** schedule always finds a task: when the list is empty the idle task is asleep, so that
      the assertion in thread_unblock holds, and then the list is not empty. */
  lemma ScheduleFinds(s: Tasks)
    requires TasksMarked(s)
    ensures s.ready == [] && s.status[s.current] != Running ==> s.status[IDLE] == Blocked
    ensures TasksOk(Scheduled(s))
    ensures |Scheduled(s).status| == |s.status|
    ensures forall t: Task :: t < |s.status| && t != IDLE ==>
      if Runs(s.status[t]) then Runs(Scheduled(s).status[t]) else Scheduled(s).status[t] == s.status[t]
  {
    if s.ready == [] && s.status[s.current] != Running {
      assert s.status[IDLE] != Ready;
    }
    var s1 := if s.status[s.current] == Running then Queued(s) else s;
    var s2 := if s1.ready == [] then Unblocked(s1, IDLE) else s1;
    assert s2.ready[0] in s2.ready;
    assert forall t: Task :: t in s2.ready <==> t < |s2.status| && s2.status[t] == Ready;
    assert forall t: Task :: t in s2.ready[1..] <==> t in s2.ready && t != s2.ready[0];
  }

  /** Who runs next: the first of the list; if there is none the current task goes on, and if
      that does not run any more the idle task does. A current task that runs still goes to the end of
      the list, and nobody else's status or place changes. */
  lemma NextToRun(s: Tasks)
    requires TasksMarked(s)
    ensures var s' := Scheduled(s);
            && |s'.status| == |s.status|
            && (s.ready == [] && s.status[s.current] == Running ==> s' == s)
            && (s.ready == [] && s.status[s.current] != Running ==>
                  s' == Tasks(IDLE, [], s.status[IDLE := Running]))
            && (s.ready != [] ==>
                  && s'.current == s.ready[0]
                  && s'.ready == s.ready[1..] + (if s.status[s.current] == Running then [s.current] else [])
                  && (forall t: Task :: t < |s.status| ==>
                        s'.status[t] == if t == s.ready[0] then Running
                                        else if t == s.current && s.status[t] == Running then Ready
                                        else s.status[t]))
  {
    if s.ready != [] {
      assert s.ready[0] in s.ready;
      assert (s.ready + [s.current])[1..] == s.ready[1..] + [s.current];
    } else {
      assert [s.current][1..] == [] && [IDLE][1..] == [];
    }
  }

  /** The idle task is put to run only when nobody else can. */
  lemma IdleIsLast(s: Tasks)
    requires TasksMarked(s) && IDLE !in s.ready && s.current != IDLE
    ensures Scheduled(s).current == IDLE <==> forall t: Task :: t < |s.status| ==> !Runs(s.status[t])
  {
    NextToRun(s);
    if s.ready != [] {
      assert s.ready[0] in s.ready;
    } else {
      assert forall t: Task :: t < |s.status| ==> s.status[t] != Ready;
    }
  }

  /** The task is ready, before all others. */
  ghost predicate PutFirst(s: Tasks, s': Tasks, t: Task) {
    t < |s.status| && s' == Tasks(s.current, [t] + s.ready, s.status[t := Ready])
  }

  /** The task is ready, after all others, unless it was on the list. */
  ghost predicate PutLast(s: Tasks, s': Tasks, t: Task) {
    t < |s.status| && if t in s.ready then s' == s else s' == Tasks(s.current, s.ready + [t], s.status[t := Ready])
  }

  /** The task is dead, and off the list if it was on it; the others keep their order. */
  ghost predicate LeftList(s: Tasks, s': Tasks, t: Task) {
    && t < |s.status| && s'.current == s.current && s'.status == s.status[t := Died]
    && (t !in s.ready ==> s'.ready == s.ready)
    && (forall i: nat :: i < |s.ready| && s.ready[i] == t ==> s'.ready == s.ready[..i] + s.ready[i + 1..])
  }

  /** The current task takes the status given and the first of the list runs, or else idle. */
  ghost predicate GaveWay(s: Tasks, s': Tasks, st: Status) {
    && |s'.status| == |s.status|
    && s'.current == (if s.ready == [] then IDLE else s.ready[0])
    && s'.ready == (if s.ready == [] then [] else s.ready[1..])
    && forall t: Task :: t < |s.status| ==>
         s'.status[t] == if t == s'.current then Running else if t == s.current then st else s.status[t]
  }

  lemma BlockMeans(s: Tasks, st: Status)
    requires TasksOk(s) && st != Running && st != Ready && (s.current == IDLE ==> st == Blocked)
    ensures GaveWay(s, BlockedWith(s, st), st)
    ensures s.current != IDLE ==> BlockedWith(s, st).current != s.current
  {
    MarkKeeps(s, st);
    NextToRun(Marked(s, st));
    if s.ready != [] {
      assert s.ready[0] in s.ready;
    }
  }

  lemma MarkKeeps(s: Tasks, st: Status)
    requires TasksOk(s) && st != Running && st != Ready && (s.current == IDLE ==> st == Blocked)
    ensures TasksMarked(Marked(s, st))
  {
  }

  lemma QueueKeeps(s: Tasks)
    requires TasksOk(s)
    ensures TasksMarked(Queued(s))
  {
    assert s.current !in s.ready;
  }

  /** Whoever is unblocked was asleep, hence on no list and not current. */
  lemma UnblockKeeps(s: Tasks, t: Task)
    requires TasksOk(s) && t < |s.status| && Asleep(s.status[t])
    ensures t !in s.ready && t != s.current
    ensures TasksOk(Unblocked(s, t))
  {
  }

  lemma ReadyKeeps(s: Tasks, t: Task)
    requires TasksOk(s) && t < |s.status| && t != s.current && s.status[t] == Unborn
    ensures TasksOk(Readied(s, t))
  {
  }

  // ---- what they do to the others ----

  lemma WithoutMeans(ready: seq<Task>, t: Task)
    requires NoDuplicates(ready)
    ensures NoDuplicates(Without(ready, t))
    ensures forall u: Task :: u in Without(ready, t) <==> u in ready && u != t
    ensures t !in ready ==> Without(ready, t) == ready
  {
    if PlaceOf(ready, t, 0) < |ready| {
      WithoutAll(ready, PlaceOf(ready, t, 0));
    }
  }

  /** The others keep their order. */
  lemma WithoutOrder(ready: seq<Task>, t: Task, i: nat)
    requires NoDuplicates(ready) && i < |ready| && ready[i] == t
    ensures Without(ready, t) == ready[..i] + ready[i + 1..]
  {
  }

  lemma WithoutAll(s: seq<Task>, i: nat)
    requires NoDuplicates(s) && i < |s|
    ensures NoDuplicates(s[..i] + s[i + 1..])
    ensures forall t: Task :: t in s[..i] + s[i + 1..] <==> t in s && t != s[i]
  {
    forall t: Task
      ensures t in s[..i] + s[i + 1..] <==> t in s && t != s[i]
    {
      WithoutOne(s, i, t);
    }
  }

  lemma WithoutOne(s: seq<Task>, i: nat, t: Task)
    requires NoDuplicates(s) && i < |s|
    ensures t in s[..i] + s[i + 1..] <==> t in s && t != s[i]
  {
    if t in s && t != s[i] {
      var j :| 0 <= j < |s| && s[j] == t;
      assert j < i ==> s[..i][j] == t;
      assert j > i ==> s[i + 1..][j - i - 1] == t;
    }
  }

  /** A task that is made to end is neither current nor ready any more; when it ends itself
      the scheduler must run next. */
  lemma EndKeeps(s: Tasks, t: Task)
    requires TasksOk(s) && t < |s.status| && t != IDLE
    ensures TasksMarked(Ended(s, t)) && (t != s.current ==> TasksOk(Ended(s, t)))
    ensures !Runs(s.status[t]) ==> Ended(s, t).ready == s.ready
  {
    WithoutMeans(s.ready, t);
  }

  /** Everyone but the one named, and but idle, sleeps or runs on as before. */
  ghost predicate OthersKept(s: Tasks, s': Tasks, but: Task) {
    && |s'.status| == |s.status|
    && forall t: Task :: t < |s.status| && t != IDLE && t != but ==>
         if Runs(s.status[t]) then Runs(s'.status[t]) else s'.status[t] == s.status[t]
  }

  lemma TickEffect(s: Tasks)
    requires TasksOk(s)
    ensures TasksOk(Scheduled(s)) && OthersKept(s, Scheduled(s), IDLE)
  {
    ScheduleFinds(s);
  }

  lemma BlockEffect(s: Tasks, st: Status)
    requires TasksOk(s) && !Runs(st) && (s.current == IDLE ==> st == Blocked)
    ensures TasksOk(BlockedWith(s, st)) && OthersKept(s, BlockedWith(s, st), s.current)
    ensures s.current != IDLE ==> BlockedWith(s, st).status[s.current] == st
  {
    MarkKeeps(s, st);
    ScheduleFinds(Marked(s, st));
  }

  lemma WakeEffect(s: Tasks, t: Task)
    requires TasksOk(s) && t < |s.status| && Asleep(s.status[t])
    ensures TasksOk(Unblocked(s, t)) && Unblocked(s, t).status == s.status[t := Ready] && Unblocked(s, t).current == s.current
    ensures t !in s.ready && t != s.current
  {
    UnblockKeeps(s, t);
  }

  // ---- bounded waiting ----

  /** What can happen to the scheduler: the running task is preempted or yields, blocks in
      some way or dies, someone is unblocked, a new task is made ready. */
  datatype Event = Tick | Block(st: Status) | Unblock(t: Task) | Make(t: Task) | End(t: Task)

  ghost predicate Possible(s: Tasks, e: Event) {
    && TasksOk(s)
    && match e
       case Tick => true
       case Block(st) => st != Running && st != Ready && st != Unborn && (s.current == IDLE ==> st == Blocked)
       case Unblock(t) => t < |s.status| && Asleep(s.status[t])
       case Make(t) => t < |s.status| && s.status[t] == Unborn
       case End(t) => t < |s.status| && s.status[t] == Hanging  // thread_exit from sys_wait
  }

  ghost function After(s: Tasks, e: Event): Tasks
    requires Possible(s, e)
  {
    match e
    case Tick => Scheduled(s)
    case Block(st) => BlockedWith(s, st)
    case Unblock(t) => Unblocked(s, t)
    case Make(t) => Readied(s, t)
    case End(t) => Ended(s, t)
  }

  lemma EventKeeps(s: Tasks, e: Event)
    requires Possible(s, e)
    ensures TasksOk(After(s, e)) && |After(s, e).status| == |s.status|
    ensures forall t: Task :: t < |s.status| && s.status[t] == Died ==> After(s, e).status[t] == Died
  {
    match e
    case Tick => ScheduleFinds(s);
    case Block(st) => MarkKeeps(s, st); ScheduleFinds(Marked(s, st));
    case Unblock(t) => UnblockKeeps(s, t);
    case Make(t) => ReadyKeeps(s, t);
    case End(t) => EndKeeps(s, t);
  }

  /** thread_yield does what a tick does. */
  lemma YieldIsTick(s: Tasks)
    requires TasksOk(s)
    ensures Yielded(s) == Scheduled(s)
  {
    QueueKeeps(s);
  }

  predicate Schedules(e: Event) { e.Tick? || e.Block? }

  function Count(es: seq<Event>, sched: bool): nat {
    if es == [] then 0
    else Count(es[..|es| - 1], sched) + (if (if sched then Schedules(es[|es| - 1]) else es[|es| - 1].Unblock?) then 1 else 0)
  }

  /** A run: each state comes from the one before by an event that was possible in it. */
  ghost predicate Run(states: seq<Tasks>, es: seq<Event>) {
    && |states| == |es| + 1
    && TasksOk(states[0])
    && forall i :: 0 <= i < |es| ==> Possible(states[i], es[i]) && states[i + 1] == After(states[i], es[i])
  }

  lemma {:induction false} RunKeeps(states: seq<Tasks>, es: seq<Event>, i: nat)
    requires Run(states, es) && i < |states|
    ensures TasksOk(states[i]) && |states[i].status| == |states[0].status|
    ensures forall t: Task :: t < |states[0].status| && states[0].status[t] == Died ==> states[i].status[t] == Died
  {
    hide TasksOk, Possible, After;
    if i > 0 {
      RunKeeps(states, es, i - 1);
      EventKeeps(states[i - 1], es[i - 1]);
    }
  }

  /** One event moves a waiting task by one place or none. */
  lemma Moves(s: Tasks, e: Event, t: Task, k: nat)
    requires Possible(s, e) && k < |s.ready| && s.ready[k] == t
    ensures var s' := After(s, e);
            if Schedules(e) then (if k == 0 then s'.current == t else k - 1 < |s'.ready| && s'.ready[k - 1] == t)
            else if e.Unblock? then k + 1 < |s'.ready| && s'.ready[k + 1] == t
            else k < |s'.ready| && s'.ready[k] == t
  {
    if e.End? {
      EndKeeps(s, e.t);
    }
  }

  /** As long as a task that was ready has not run, its place in the list is told by the
      calls made since: one nearer for each schedule, one further for each unblock. */
  lemma {:induction false} PlaceInList(states: seq<Tasks>, es: seq<Event>, t: Task, k: nat)
    requires Run(states, es) && k < |states[0].ready| && states[0].ready[k] == t
    requires forall i :: 0 < i < |states| ==> states[i].current != t
    ensures var last := states[|es|];
            var place := k + Count(es, false) - Count(es, true);
            0 <= place < |last.ready| && last.ready[place] == t
    decreases |es|
  {
    hide TasksOk, Possible, After;
    if es != [] {
      var n := |es| - 1;
      assert es[..n] == es[..|es| - 1];
      PlaceInList(states[..n + 1], es[..n], t, k);
      Moves(states[n], es[n], t, k + Count(es[..n], false) - Count(es[..n], true));
      assert states[n + 1].current != t;
    }
  }

  /** So a task at place k runs by the time schedule was called k + 1 times and once more
      for every unblock in between. */
  lemma BoundedWaiting(states: seq<Tasks>, es: seq<Event>, t: Task, k: nat)
    requires Run(states, es) && k < |states[0].ready| && states[0].ready[k] == t
    requires Count(es, true) >= k + 1 + Count(es, false)
    ensures exists i :: 0 < i < |states| && states[i].current == t
  {
    if forall i :: 0 < i < |states| ==> states[i].current != t {
      PlaceInList(states, es, t, k);
    }
  }

  // ---- the calls, in place ----

  class Scheduler {
    var current: Task
    var ready: seq<Task>  // g_ready_list
    const status: array<Status>

    /** thread_init, and the first thread_block of the idle task aside: main runs, idle is ready. */
    constructor (slots: nat)
      requires slots >= 2
      ensures fresh(status) && TasksOk(S())
      ensures S() == Tasks(0, [IDLE], seq(slots, i => if i == 0 then Running else if i == IDLE then Ready else Unborn))
    {
      current, ready := 0, [IDLE];
      status := new Status[slots](i => if i == 0 then Running else if i == IDLE then Ready else Unborn);
    }

    ghost function S(): Tasks
      reads this, status
    {
      Tasks(current, ready, status[..])
    }

    method ThreadUnblock(t: Task)
      requires TasksMarked(S()) && t < status.Length && Asleep(status[t]) && t !in ready
      modifies `ready, status
      ensures S() == Unblocked(old(S()), t)
      ensures PutFirst(old(S()), S(), t)
    {
      // ASSERT(status is one of the three) is the precondition
      if status[t] != Ready {
        assert t !in ready;  // ASSERT(!elem_find(...))
        ready := [t] + ready;
        status[t] := Ready;
      }
    }

    method Schedule()
      requires TasksMarked(S())
      modifies this, status
      ensures S() == Scheduled(old(S()))
      ensures TasksOk(S())
      ensures old(ready) != [] ==> current == old(ready[0])
      ensures old(ready) == [] ==> current == if old(status[current]) == Running then old(current) else IDLE
      ensures ready == (if old(ready) == [] then [] else old(ready)[1..] + (if old(status[current]) == Running then [old(current)] else []))
      ensures forall t: Task :: t < status.Length ==>
        status[t] == if t == current then Running else if t == old(current) && old(status[t]) == Running then Ready else old(status[t])
    {
      ScheduleFinds(S());
      NextToRun(S());
      if status[current] == Running {
        ghost var s := S();
        status[current] := Ready;
        ready := ready + [current];
        assert S() == Queued(s);
      } else if ready == [] {
        ThreadUnblock(IDLE);
      }
      var next := ready[0];
      ready := ready[1..];
      status[next] := Running;
      current := next;
    }

    method ThreadBlockWithStatus(st: Status)
      requires TasksOk(S()) && st != Running && st != Ready && (current == IDLE ==> st == Blocked)
      modifies this, status
      ensures S() == BlockedWith(old(S()), st) && TasksOk(S())
      ensures GaveWay(old(S()), S(), st)
    {
      MarkKeeps(S(), st);
      BlockMeans(S(), st);
      ghost var s := S();
      status[current] := st;
      assert S() == Marked(s, st);
      Schedule();
    }

    method ThreadYield()
      requires TasksOk(S())
      modifies this, status
      ensures S() == Yielded(old(S())) && TasksOk(S())
      ensures current == (old(ready) + [old(current)])[0] && ready == (old(ready) + [old(current)])[1..]
      ensures forall t: Task :: t < status.Length ==>
        status[t] == if t == current then Running else if t == old(current) then Ready else old(status[t])
    {
      QueueKeeps(S());
      ghost var s := S();
      status[current] := Ready;
      ready := ready + [current];
      assert S() == Queued(s);
      Schedule();
    }

    method ThreadReady(t: Task)
      requires TasksOk(S()) && t < status.Length
      modifies `ready, status
      ensures S() == Readied(old(S()), t)
      ensures PutLast(old(S()), S(), t)
      ensures old(status[t]) == Unborn ==> TasksOk(S())
    {
      if old(status[t]) == Unborn {
        ReadyKeeps(S(), t);
      }
      if t !in ready {
        status[t] := Ready;
        ready := ready + [t];
      }
    }

    method ThreadExit(t: Task, needSchedule: bool)
      requires TasksOk(S()) && t < status.Length && t != IDLE && (t == current ==> needSchedule)
      modifies this, status
      ensures S() == if needSchedule then Scheduled(Ended(old(S()), t)) else Ended(old(S()), t)
      ensures !needSchedule ==> LeftList(old(S()), S(), t)
      ensures status[t] == Died && t !in ready
      ensures TasksOk(S())
    {
      ghost var s := S();
      EndKeeps(s, t);
      WithoutMeans(ready, t);
      forall i: nat | i < |ready| && ready[i] == t
        ensures Without(ready, t) == ready[..i] + ready[i + 1..]
      {
        WithoutOrder(ready, t, i);
      }
      status[t] := Died;
      if t in ready {
        RemoveReady(t);
      }
      assert S() == Ended(s, t);
      if needSchedule {
        Schedule();
      }
    }

    /** list_remove, of a tag that is on the list. */
    method RemoveReady(t: Task)
      requires t in ready
      modifies `ready
      ensures ready == Without(old(ready), t)
    {
      var i := 0;
      while ready[i] != t
        invariant i <= PlaceOf(ready, t, 0) < |ready|
        decreases |ready| - i
      {
        i := i + 1;
      }
      ready := ready[..i] + ready[i + 1..];
    }
  }
}
