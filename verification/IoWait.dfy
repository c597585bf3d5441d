/** Waiting on a ring, with its lock and its two slots. */
module IoWait {
  // ioq_putchar and ioq_getchar up to where they block and from where they are woken, for any
  // number of tasks. Interrupts are off in both, so a task runs from one blocking point to the
  // next.

  import opened Bytes
  import opened IoQueue
  import Sched

  type Task = Sched.Task

  const NOBODY := -1

  datatype Want = WantPut(b: byte) | WantGet

  /** Where a task stands, with what it wants. */
  datatype Pc =
    | Out
    | InLock(w: Want)    // asleep in lock_acquire, on the lock's waiter list
    | FromLock(w: Want)  // taken off that list by lock_release, yet to look at the lock again
    | InSlot(w: Want)    // asleep in ioq_wait, holding the lock
    | FromSlot(w: Want)  // woken by the other side, still holding the lock

  /** sent and taken are the bytes of the completed calls. */
  datatype State = State(ring: Ring, producer: int, consumer: int, holder: int, waiters: seq<Task>,
                         pc: seq<Pc>, sent: seq<byte>, taken: seq<byte>)

  predicate MustWait(r: Ring, w: Want) {
    if w.WantPut? then Full(r) else Empty(r)
  }

  // ---- the parts of the two calls ----

  /** ioq_wait: the task enters itself in its side's slot and blocks. */
  function Slept(s: State, t: Task, w: Want): State
    requires t < |s.pc|
  {
    var s1 := s.(pc := s.pc[t := InSlot(w)]);
    if w.WantPut? then s1.(producer := t) else s1.(consumer := t)
  }

  /** lock_acquire, and ioq_wait if it succeeds. */
  function Locked(s: State, t: Task, w: Want): State
    requires t < |s.pc|
  {
    if s.holder == NOBODY then Slept(s.(holder := t), t, w)
    else s.(waiters := s.waiters + [t], pc := s.pc[t := InLock(w)])
  }

  /** lock_release by a task that has woken up: the first waiter is woken in turn. */
  function Unlocked(s: State, t: Task): State
    requires t < |s.pc| && (s.waiters != [] ==> s.waiters[0] < |s.pc| && s.pc[s.waiters[0]].InLock?)
  {
    var s1 := s.(holder := NOBODY, pc := s.pc[t := Out]);
    if s.waiters == [] then s1
    else s1.(waiters := s.waiters[1..], pc := s1.pc[s.waiters[0] := FromLock(s.pc[s.waiters[0]].w)])
  }

  /** wakeup: thread_unblock takes only a task that sleeps. */
  function WokenUp(s: State, t: int): State
    requires t == NOBODY || (0 <= t < |s.pc| && s.pc[t].InSlot?)
  {
    if t == NOBODY then s else s.(pc := s.pc[t := FromSlot(s.pc[t].w)])
  }

  /** The byte goes in or out, and whoever waits on the other side is woken. */
  function Completed(s: State, t: Task, w: Want): State
    requires RingOk(s.ring) && t < |s.pc| && SlotsOk(s)
  {
    if w.WantPut? then
      WokenUp(s, s.consumer).(ring := Put(s.ring, w.b), sent := s.sent + [w.b], consumer := NOBODY)
    else
      WokenUp(s, s.producer).(ring := Got(s.ring), taken := s.taken + [s.ring.buf[s.ring.tail]], producer := NOBODY)
  }

  /** From the test of the loop to the end or to the next blocking point. */
  function Entered(s: State, t: Task, w: Want): State
    requires RingOk(s.ring) && t < |s.pc| && SlotsOk(s)
  {
    if MustWait(s.ring, w) then Locked(s, t, w)
    else
      var s1 := Completed(s, t, w);
      s1.(pc := s1.pc[t := Out])
  }

  // ---- the invariant ----

  ghost predicate SlotsOk(s: State) {
    && (s.producer == NOBODY || (0 <= s.producer < |s.pc| && s.pc[s.producer].InSlot?))
    && (s.consumer == NOBODY || (0 <= s.consumer < |s.pc| && s.pc[s.consumer].InSlot?))
  }

  /** Whoever sleeps in a slot, or was woken there, holds the lock: there is never more than
      one of them. No byte is lost or doubled. */
  ghost predicate Inv(s: State) {
    && RingOk(s.ring)
    && (s.holder == NOBODY || (0 <= s.holder < |s.pc| && (s.pc[s.holder].InSlot? || s.pc[s.holder].FromSlot?)))
    && (forall t: Task :: t < |s.pc| && (s.pc[t].InSlot? || s.pc[t].FromSlot?) ==> t == s.holder)
    && s.producer == (if s.holder != NOBODY && s.pc[s.holder].InSlot? && s.pc[s.holder].w.WantPut? then s.holder else NOBODY)
    && s.consumer == (if s.holder != NOBODY && s.pc[s.holder].InSlot? && s.pc[s.holder].w.WantGet? then s.holder else NOBODY)
    && Sched.NoDuplicates(s.waiters)
    && (forall t: Task :: t in s.waiters <==> t < |s.pc| && s.pc[t].InLock?)
    && s.sent == s.taken + Contents(s.ring)
  }

  // ---- the steps ----

  datatype Step = Call(t: Task, w: Want) | Resume(t: Task)

  ghost predicate Possible(s: State, e: Step) {
    && Inv(s) && e.t < |s.pc|
    && if e.Call? then s.pc[e.t] == Out else s.pc[e.t].FromLock? || s.pc[e.t].FromSlot?
  }

  ghost function After(s: State, e: Step): State
    requires Possible(s, e)
  {
    match e
    case Call(t, w) => Entered(s, t, w)
    case Resume(t) =>
      assert s.waiters != [] ==> s.waiters[0] in s.waiters;
      if s.pc[t].FromSlot? then Entered(Unlocked(s, t), t, s.pc[t].w) else Locked(s, t, s.pc[t].w)
  }

  // ---- what every step keeps ----

  lemma LockedKeeps(s: State, t: Task, w: Want)
    requires Inv(s) && t < |s.pc| && (s.pc[t] == Out || s.pc[t].FromLock?)
    ensures Inv(Locked(s, t, w)) && |Locked(s, t, w).pc| == |s.pc|
  {
    hide RingOk, Contents;
  }

  lemma UnlockedKeeps(s: State, t: Task)
    requires Inv(s) && t < |s.pc| && s.pc[t].FromSlot?
    ensures s.waiters != [] ==> s.waiters[0] < |s.pc| && s.pc[s.waiters[0]].InLock?
    ensures Inv(Unlocked(s, t)) && |Unlocked(s, t).pc| == |s.pc| && Unlocked(s, t).pc[t] == Out && Unlocked(s, t).holder == NOBODY
  {
    hide RingOk, Contents;
    if s.waiters != [] {
      assert s.waiters[0] in s.waiters;
      assert forall u: Task :: u in s.waiters <==> u == s.waiters[0] || u in s.waiters[1..];
    }
  }

  lemma CompletedKeeps(s: State, t: Task, w: Want)
    requires Inv(s) && t < |s.pc| && s.pc[t] == Out && !MustWait(s.ring, w)
    ensures Inv(Completed(s, t, w)) && Completed(s, t, w).pc[t] == Out && |Completed(s, t, w).pc| == |s.pc|
  {
    hide Contents, Put, Got, Full, Empty;
    RingIsQueue(s.ring);
    var s' := Completed(s, t, w);
    if w.WantPut? {
      assert s.taken + (Contents(s.ring) + [w.b]) == s.taken + Contents(s.ring) + [w.b];
    } else {
      var b := s.ring.buf[s.ring.tail];
      assert s.taken + ([b] + Contents(Got(s.ring))) == s.taken + [b] + Contents(Got(s.ring));
    }
  }

  lemma EnteredKeeps(s: State, t: Task, w: Want)
    requires Inv(s) && t < |s.pc| && s.pc[t] == Out
    ensures Inv(Entered(s, t, w)) && |Entered(s, t, w).pc| == |s.pc|
  {
    hide RingOk, Contents, Put, Got, Full, Empty, Locked, Completed;
    if MustWait(s.ring, w) {
      LockedKeeps(s, t, w);
    } else {
      CompletedKeeps(s, t, w);
    }
  }

  /** Every step keeps the invariant: in particular the assertion in thread_unblock never
      fails, for whoever a slot names is asleep there. */
  lemma StepKeeps(s: State, e: Step)
    requires Possible(s, e)
    ensures Inv(After(s, e)) && |After(s, e).pc| == |s.pc|
  {
    hide RingOk, Contents, Locked, Unlocked, Entered, Inv;
    if e.Call? {
      EnteredKeeps(s, e.t, e.w);
    } else if s.pc[e.t].FromSlot? {
      UnlockedKeeps(s, e.t);
      EnteredKeeps(Unlocked(s, e.t), e.t, s.pc[e.t].w);
    } else {
      LockedKeeps(s, e.t, s.pc[e.t].w);
    }
  }

  /** What a step does to the others. The first that waits for the lock is woken, exactly when a
      task that was woken in a slot goes on; new waiters go to the end; whoever is woken, from the
      list or from a slot, wants what it wanted; and nobody else moves. */
  lemma OthersMove(s: State, e: Step)
    requires Possible(s, e)
    ensures var s' := After(s, e);
            && |s'.pc| == |s.pc|
            && (if e.Resume? && s.pc[e.t].FromSlot? && s.waiters != [] then
                  s.waiters[0] < |s.pc| && s.waiters[0] != e.t && s.pc[s.waiters[0]].InLock?
                  && s'.waiters == s.waiters[1..] && s'.pc[s.waiters[0]] == FromLock(s.pc[s.waiters[0]].w)
                else
                  s'.waiters == if s'.pc[e.t].InLock? then s.waiters + [e.t] else s.waiters)
            && forall u: Task :: u < |s.pc| && u != e.t && s'.pc[u] != s.pc[u] ==>
                 || (s.waiters != [] && u == s.waiters[0] && s.pc[u].InLock? && s'.pc[u] == FromLock(s.pc[u].w))
                 || (s.pc[u].InSlot? && s'.pc[u] == FromSlot(s.pc[u].w))
  {
    hide RingOk, Contents, Full, Empty, Put, Got;
    if s.waiters != [] {
      assert s.waiters[0] in s.waiters;
    }
  }

  function WantOf(s: State, e: Step): Want
    requires e.t < |s.pc| && (e.Call? || s.pc[e.t] != Out)
  {
    if e.Call? then e.w else s.pc[e.t].w
  }

  /** And what it does to the bytes: a call that ends has put its own byte or taken the oldest one,
      and one that does not end has done nothing yet. It ends when the ring lets it, unless it has
      just waited for the lock: then it goes to sleep whatever the ring is like. */
  lemma BytesMove(s: State, e: Step)
    requires Possible(s, e)
    ensures var s', w := After(s, e), WantOf(s, e);
            && |s'.pc| == |s.pc|
            && (s'.pc[e.t] == Out <==>
                  (e.Call? || s.pc[e.t].FromSlot?) && if w.WantPut? then |Contents(s.ring)| < BUFSIZE - 1 else Contents(s.ring) != [])
            && (s'.pc[e.t] != Out ==> s'.pc[e.t].w == w && s'.sent == s.sent && s'.taken == s.taken && s'.ring == s.ring)
            && (s'.pc[e.t] == Out && w.WantPut? ==>
                  s'.sent == s.sent + [w.b] && s'.taken == s.taken && Contents(s'.ring) == Contents(s.ring) + [w.b])
            && (s'.pc[e.t] == Out && w.WantGet? ==>
                  && Contents(s.ring) != [] && s'.taken == s.taken + [Contents(s.ring)[0]] && s'.sent == s.sent
                  && Contents(s'.ring) == Contents(s.ring)[1..])
  {
    hide RingOk, Contents, Full, Empty, Put, Got, Length;
    OthersMove(s, e);
    RingIsQueue(s.ring);
    assert |Contents(s.ring)| <= BUFSIZE - 1;
  }

  /** While the queue's lock is free and tasks wait for it, one that was woken has yet to look. */
  ghost predicate Looks(s: State) {
    s.holder == NOBODY && s.waiters != [] ==> exists t: Task :: t < |s.pc| && s.pc[t].FromLock?
  }

  lemma LookKept(s: State, e: Step)
    requires Possible(s, e) && Looks(s)
    ensures Looks(After(s, e))
  {
    hide RingOk, Contents, Full, Empty, Put, Got;
    OthersMove(s, e);
    var s' := After(s, e);
    if s'.holder == NOBODY && s'.waiters != [] {
      if e.Resume? && s.pc[e.t].FromSlot? {
        assert s'.pc[s.waiters[0]].FromLock?;
      } else if e.Call? {
        var t: Task :| t < |s.pc| && s.pc[t].FromLock?;
        assert s'.pc[t].FromLock?;
      }
    }
  }

  /** No waiter is overwritten in its slot: it leaves it by being woken. */
  lemma SlotKept(s: State, e: Step)
    requires Possible(s, e)
    ensures var s' := After(s, e);
            && (s.producer != NOBODY && s'.producer != s.producer ==>
                  0 <= s.producer < |s'.pc| && s'.producer == NOBODY && s'.pc[s.producer].FromSlot?)
            && (s.consumer != NOBODY && s'.consumer != s.consumer ==>
                  0 <= s.consumer < |s'.pc| && s'.consumer == NOBODY && s'.pc[s.consumer].FromSlot?)
  {
    hide RingOk, Contents, Full, Empty, Put, Got;
  }

  // ---- sleeping for nothing ----

  /** The task sleeps in its slot though the ring would let it go on. */
  predicate Needless(s: State, t: Task) {
    t < |s.pc| && s.pc[t].InSlot? && !MustWait(s.ring, s.pc[t].w)
  }

  /** A step puts a task to sleep for nothing exactly when the task had to wait for the
      queue's lock and the ring changed meanwhile: it is not looked at again. */
  lemma SleepsForNothing(s: State, e: Step)
    requires Possible(s, e) && forall t: Task :: !Needless(s, t)
    ensures (exists t: Task :: Needless(After(s, e), t)) <==>
              e.Resume? && s.pc[e.t].FromLock? && s.holder == NOBODY && !MustWait(s.ring, s.pc[e.t].w)
  {
    hide RingOk, Contents, Full, Empty, Locked, Unlocked, Entered, Inv;
    if e.Call? {
      EnteredSleeps(s, e.t, e.w);
    } else if s.pc[e.t].FromSlot? {
      UnlockedKeeps(s, e.t);
      UnlockedSleeps(s, e.t);
      EnteredSleeps(Unlocked(s, e.t), e.t, s.pc[e.t].w);
    } else {
      LockedSleeps(s, e.t, s.pc[e.t].w);
      assert Needless(After(s, e), e.t) <==> s.holder == NOBODY && !MustWait(s.ring, s.pc[e.t].w);
    }
  }

  lemma LockedSleeps(s: State, t: Task, w: Want)
    requires Inv(s) && t < |s.pc| && (s.pc[t] == Out || s.pc[t].FromLock?) && forall u: Task :: !Needless(s, u)
    ensures forall u: Task :: Needless(Locked(s, t, w), u) <==> u == t && s.holder == NOBODY && !MustWait(s.ring, w)
  {
    hide Contents, Full, Empty;
    forall u: Task
      ensures Needless(Locked(s, t, w), u) <==> u == t && s.holder == NOBODY && !MustWait(s.ring, w)
    {
      assert !Needless(s, u);
    }
  }

  lemma UnlockedSleeps(s: State, t: Task)
    requires Inv(s) && t < |s.pc| && s.pc[t].FromSlot?
    requires s.waiters != [] ==> s.waiters[0] < |s.pc| && s.pc[s.waiters[0]].InLock?
    ensures forall u: Task :: !Needless(Unlocked(s, t), u)
  {
    hide Contents, Full, Empty;
  }

  lemma EnteredSleeps(s: State, t: Task, w: Want)
    requires Inv(s) && t < |s.pc| && s.pc[t] == Out && forall u: Task :: !Needless(s, u)
    ensures forall u: Task :: !Needless(Entered(s, t, w), u)
  {
    hide Contents, Full, Empty, Put, Got, Locked;
    if MustWait(s.ring, w) {
      LockedSleeps(s, t, w);
    } else {
      forall u: Task
        ensures !Needless(Entered(s, t, w), u)
      {
        assert !Needless(s, u);
      }
    }
  }

  // ---- runs ----

  ghost predicate Run(states: seq<State>, es: seq<Step>) {
    && |states| == |es| + 1
    && Inv(states[0]) && (forall t: Task :: t < |states[0].pc| ==> states[0].pc[t] == Out)
    && forall i :: 0 <= i < |es| ==> Possible(states[i], es[i]) && states[i + 1] == After(states[i], es[i])
  }

  /** However many tasks put and take, and wherever they wait, what was put is what was
      taken followed by what is in the ring, and of the sleepers in the slots there is at
      most one. */
  lemma {:induction false} RunKeeps(states: seq<State>, es: seq<Step>, i: nat)
    requires Run(states, es) && i < |states|
    ensures Inv(states[i]) && |states[i].pc| == |states[0].pc|
    ensures states[i].sent == states[i].taken + Contents(states[i].ring)
  {
    hide RingOk, Contents, Possible, After;
    if i > 0 {
      RunKeeps(states, es, i - 1);
      StepKeeps(states[i - 1], es[i - 1]);
    }
  }

  /** So no wakeup of the lock is lost in any run. */
  lemma {:induction false} NoLostWakeup(states: seq<State>, es: seq<Step>, i: nat)
    requires Run(states, es) && i < |states|
    ensures Looks(states[i])
  {
    hide RingOk, Contents, Possible, After, Looks;
    if i == 0 {
      NobodyWaits(states[0]);
    } else {
      NoLostWakeup(states, es, i - 1);
      LookKept(states[i - 1], es[i - 1]);
    }
  }

  lemma NobodyWaits(s: State)
    requires Inv(s) && forall t: Task :: t < |s.pc| ==> s.pc[t] == Out
    ensures s.waiters == [] && Looks(s)
  {
    FirstIsListed(s.waiters);
  }

  lemma FirstIsListed(ws: seq<Task>)
    ensures ws != [] ==> ws[0] in ws
  {
  }

  /** As long as no task ever finds the queue's lock taken, none sleeps for nothing: who
      waits to put sleeps while the ring is full, who waits to take while it is empty. */
  lemma {:induction false} NoneSleepsForNothing(states: seq<State>, es: seq<Step>, i: nat)
    requires Run(states, es) && i < |states|
    requires forall j :: 0 <= j < i ==> states[j].waiters == []
    ensures forall t: Task :: t < |states[i].pc| ==> !states[i].pc[t].FromLock?
    ensures forall t: Task :: !Needless(states[i], t)
  {
    hide RingOk, Contents, Inv, Full, Empty;
    if i > 0 {
      var s, e := states[i - 1], es[i - 1];
      NoneSleepsForNothing(states, es, i - 1);
      SleepsForNothing(s, e);
      NoneFromLock(s, e);
    }
  }

  lemma NoneFromLock(s: State, e: Step)
    requires Possible(s, e) && s.waiters == [] && forall t: Task :: t < |s.pc| ==> !s.pc[t].FromLock?
    ensures forall t: Task :: t < |After(s, e).pc| ==> !After(s, e).pc[t].FromLock?
  {
    hide RingOk, Contents, Full, Empty, Put, Got;
  }

  /** One task takes n bytes, one call after the other. */
  ghost function Drained(s: State, t: Task, n: nat): (s': State)
    requires Inv(s) && t < |s.pc| && s.pc[t] == Out && s.producer == NOBODY == s.consumer && n <= Length(s.ring)
    ensures Inv(s') && s' == s.(ring := s'.ring, taken := s'.taken) && Length(s'.ring) == Length(s.ring) - n
  {
    if n == 0 then s
    else
      var s1 := Drained(s, t, n - 1);
      RingIsQueue(s1.ring);
      StepKeeps(s1, Call(t, WantGet));
      RingIsQueue(After(s1, Call(t, WantGet)).ring);
      After(s1, Call(t, WantGet))
  }

  /** Two tasks write to a full ring and a third reads: one byte, which wakes the first
      writer, and when that has written again all the rest. The second writer, woken from
      the lock only now, goes to sleep on an empty ring. */
  lemma SecondWriterSleeps(s0: State, b: byte, c: byte)
    requires Inv(s0) && |s0.pc| >= 3 && s0.pc[0] == s0.pc[1] == s0.pc[2] == Out && Full(s0.ring)
    requires s0.holder == NOBODY && s0.waiters == []
    ensures Possible(s0, Call(0, WantPut(b)))
    ensures var s1 := After(s0, Call(0, WantPut(b)));
            && Possible(s1, Call(1, WantPut(c)))
            && var s2 := After(s1, Call(1, WantPut(c)));
            && Possible(s2, Call(2, WantGet))
            && var s3 := After(s2, Call(2, WantGet));
            && Possible(s3, Resume(0))
            && var s4 := After(s3, Resume(0));
            && Inv(s4) && |s4.pc| >= 3 && s4.pc[2] == Out && s4.producer == NOBODY == s4.consumer
            && var s5 := Drained(s4, 2, Length(s4.ring));
            && Possible(s5, Resume(1))
            && Empty(After(s5, Resume(1)).ring) && Needless(After(s5, Resume(1)), 1)
  {
    hide Contents;
    RingIsQueue(s0.ring);
    var s1 := After(s0, Call(0, WantPut(b)));
    StepKeeps(s0, Call(0, WantPut(b)));
    var s2 := After(s1, Call(1, WantPut(c)));
    StepKeeps(s1, Call(1, WantPut(c)));
    var s3 := After(s2, Call(2, WantGet));
    StepKeeps(s2, Call(2, WantGet));
    var s4 := After(s3, Resume(0));
    StepKeeps(s3, Resume(0));
    var s5 := Drained(s4, 2, Length(s4.ring));
    assert s5.pc == s4.pc && s4.pc[1] == FromLock(WantPut(c));
    RingIsQueue(s5.ring);
    assert Empty(s5.ring) && !Full(s5.ring);
  }
}
