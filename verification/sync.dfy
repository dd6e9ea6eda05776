/**
 Locks and condition variables of marker/os-244/threads/thread.c, built on
 the wait queues of `Blocking`. A lock is its owner (NONE when free) and the
 handle of its wait queue; a condition variable is the handle of its wait
 queue. A NULL lock or condition variable is `None`; the source asserts
 against it, so every operation on `None` fails.
 */
module Sync {
  import opened ThreadIds
  import opened Optional
  import TidQueue
  import opened Scheduler
  import opened Blocking

  datatype Lock = Lock(owner: int, queue: nat)

  datatype Cv = Cv(queue: nat)

  /**
   One pass of a blocking call. `Acquired`: the caller holds the lock and
   returns. `Suspended`: the caller is SLEEPING on a wait queue and has
   yielded; usually another thread now runs, but a yield that finds nothing
   runnable returns to the caller at once. Either way, once running again the
   caller retries lock_acquire. `Spins`: the caller waits for a
   lock while no other thread is ready, so the loop never ends. `Failed`: an
   assert fails or freed memory is used.
   */
  datatype Step = Acquired(s: Sched, lock: Lock) | Suspended(s: Sched, lock: Lock) | Spins | Failed

  /** lock_create: a free lock with a new empty wait queue. */
  function LockCreate(s: Sched): (r: (Lock, Sched))
    requires Wf(s)
    ensures Wf(r.1) && r.0.owner == NONE
    ensures r.0.queue !in s.waits && r.0.queue in r.1.waits && r.1.waits[r.0.queue] == []
    ensures r.1.table == s.table && r.1.ready == s.ready && r.1.running == s.running
  {
    var (h, s1) := WaitQueueCreate(s);
    (Lock(NONE, h), s1)
  }

  /** lock_destroy: asserts the lock exists, is free and has no waiter; frees its queue. */
  function LockDestroy(s: Sched, l: Option<Lock>): (o: Option<Sched>)
    requires Wf(s)
    ensures o.Some? <==>
              l.Some? && l.value.owner == NONE && l.value.queue in s.waits && |s.waits[l.value.queue]| == 0
    ensures o.Some? ==>
              Wf(o.value) && l.value.queue !in o.value.waits &&
              o.value.table == s.table && o.value.ready == s.ready && o.value.running == s.running
  {
    if l.None? || l.value.owner != NONE then None
    else if l.value.queue !in s.waits || |s.waits[l.value.queue]| != 0 then None
    else WaitQueueDestroy(s, Some(l.value.queue))
  }

  /** Creating a lock and destroying it at once frees what was allocated. */
  lemma LockCreateThenDestroy(s: Sched)
    requires Wf(s)
    ensures var (l, s1) := LockCreate(s);
            LockDestroy(s1, Some(l)) == Some(s.(nextHandle := s.nextHandle + 1))
  {
    CreateThenDestroy(s);
  }

  /**
   One iteration of lock_acquire: asserts the caller does not hold the lock;
   takes a free lock, otherwise sleeps on the lock's queue.
   */
  function LockAcquire(s: Sched, l: Option<Lock>): (r: Step)
    requires Wf(s)
    ensures l.None? || l.value.owner == s.running ==> r == Failed
    ensures l.Some? && l.value.owner == NONE ==> r == Acquired(s, l.value.(owner := s.running))
    ensures l.Some? && l.value.owner != NONE && l.value.owner != s.running ==>
              && (|s.ready| == 0 ==> r == Spins)
              && (|s.ready| > 0 ==>
                    && (r.Failed? <==> l.value.queue !in s.waits)
                    && (r.Suspended? ==>
                          var h := l.value.queue;
                          && r.lock == l.value
                          && Wf(r.s) && h in s.waits
                          && r.s.waits == s.waits[h := TidQueue.Add(s.waits[h], s.running)]
                          && r.s.table[s.running] == Some(Asleep(s, h))))
  {
    if l.None? || l.value.owner == s.running then Failed
    else if l.value.owner == NONE then Acquired(s, l.value.(owner := s.running))
    else if |s.ready| == 0 then Spins
    else
      match Sleep(s, Some(l.value.queue))
      case Ok(_, s1) => Suspended(s1, l.value)
      case _ => Failed
  }

  /**
   lock_release: asserts the caller holds the lock, frees it and wakes every
   waiter of the lock's queue (thread_wakeup with `all` set), front first.
   */
  function LockRelease(s: Sched, l: Option<Lock>): (r: Option<(Sched, Lock)>)
    requires Wf(s)
    ensures l.None? || l.value.owner != s.running ==> r.None?
    ensures r.Some? ==> Wf(r.value.0) && r.value.1 == l.value.(owner := NONE)
    ensures l.Some? && l.value.owner == s.running ==>
              var h := l.value.queue;
              && (r.None? <==> h !in s.waits || SomeSlotEmpty(s, s.waits[h]))
              && (r.Some? && |s.waits[h]| == 0 ==> r.value.0 == s)
              && (r.Some? ==>
                    var w := s.waits[h];
                    && r.value.0.ready == TidQueue.AddAll(s.ready, w)
                    && r.value.0.waits == s.waits[h := []]
                    && r.value.0.running == s.running
                    && r.value.0.exitStatus == s.exitStatus && r.value.0.nextHandle == s.nextHandle
                    && forall j :: 0 <= j < MaxThreads ==>
                         r.value.0.table[j] == if j in w then Some(s.table[j].value.(status := Ready)) else s.table[j])
  {
    if l.None? || l.value.owner != s.running then None
    else
      var h := l.value.queue;
      var o := Wakeup(s, Some(h), true);
      if h in s.waits then
        var w := s.waits[h];
        assert w[..|w|] == w && w[|w|..] == [];
        if o.Ok? then Some((o.s, l.value.(owner := NONE))) else None
      else None
  }

  /** Acquiring a free lock and releasing it with nobody waiting restores lock and state. */
  lemma AcquireThenRelease(s: Sched, l: Lock)
    requires Wf(s) && l.owner == NONE && l.queue in s.waits && |s.waits[l.queue]| == 0
    ensures LockAcquire(s, Some(l)) == Acquired(s, l.(owner := s.running))
    ensures LockRelease(s, Some(l.(owner := s.running))) == Some((s, l))
  {
  }

  /** Once released, a lock is taken by whichever thread next tries, without sleeping. */
  lemma ReleaseThenAcquire(s: Sched, l: Lock, s': Sched)
    requires Wf(s) && Wf(s') && LockRelease(s, Some(l)).Some?
    ensures var l1 := LockRelease(s, Some(l)).value.1;
            LockAcquire(s', Some(l1)) == Acquired(s', l1.(owner := s'.running))
  {
  }

  /** A release wakes every waiter, so the released lock can be destroyed at once. */
  lemma ReleaseThenDestroy(s: Sched, l: Lock)
    requires Wf(s) && LockRelease(s, Some(l)).Some?
    ensures var (s1, l1) := LockRelease(s, Some(l)).value;
            LockDestroy(s1, Some(l1)).Some?
  {
  }

  // ---------------------------------------------------------------------
  // Condition variables
  // ---------------------------------------------------------------------

  /** cv_create: a condition variable with a new empty wait queue. */
  function CvCreate(s: Sched): (r: (Cv, Sched))
    requires Wf(s)
    ensures Wf(r.1)
    ensures r.0.queue !in s.waits && r.0.queue in r.1.waits && r.1.waits[r.0.queue] == []
    ensures r.1.table == s.table && r.1.ready == s.ready && r.1.running == s.running
  {
    var (h, s1) := WaitQueueCreate(s);
    (Cv(h), s1)
  }

  /** cv_destroy: asserts the condition variable exists and has no waiter; frees its queue. */
  function CvDestroy(s: Sched, cv: Option<Cv>): (o: Option<Sched>)
    requires Wf(s)
    ensures o.Some? <==> cv.Some? && cv.value.queue in s.waits && |s.waits[cv.value.queue]| == 0
    ensures o.Some? ==> Wf(o.value) && cv.value.queue !in o.value.waits && o.value.table == s.table
  {
    if cv.None? || cv.value.queue !in s.waits || |s.waits[cv.value.queue]| != 0 then None
    else WaitQueueDestroy(s, Some(cv.value.queue))
  }

  /** The asserts shared by cv_wait, cv_signal and cv_broadcast. */
  predicate CvCallOk(s: Sched, cv: Option<Cv>, l: Option<Lock>) {
    cv.Some? && l.Some? && l.value.owner == s.running
  }

  /**
   `x` can be resumed once the lock's waiters `w` are READY: it has a slot
   and is either one of them or not DEAD.
   */
  predicate LiveAfterWake(s: Sched, w: seq<int>, x: int)
    requires |s.table| == MaxThreads
  {
    InRange(x) && s.table[x].Some? && (x in w || s.table[x].value.status != Dead)
  }

  /**
   cv_wait: asserts the caller holds the lock; releases it, sleeps on the
   condition variable and, once running again, acquires the lock. A sleep that
   returns without switching goes straight on to lock_acquire.
   */
  function CvWait(s: Sched, cv: Option<Cv>, l: Option<Lock>): (r: Step)
    requires Wf(s)
    ensures !CvCallOk(s, cv, l) ==> r == Failed
    ensures CvCallOk(s, cv, l) && LockRelease(s, l).None? ==> r == Failed
    ensures r.Suspended? ==>
              var h := cv.value.queue;
              var hl := l.value.queue;
              && CvCallOk(s, cv, l) && hl in s.waits && h in s.waits
              && var w := s.waits[hl];
                 var rq := TidQueue.AddAll(s.ready, w);
                 var held := s.waits[hl := []];
                 && Wf(r.s) && r.lock == l.value.(owner := NONE)
                 && r.s.waits == held[h := TidQueue.Add(held[h], s.running)]
                 && r.s.table[s.running] == Some(Asleep(s, h))
                 && r.s.exitStatus == s.exitStatus && r.s.nextHandle == s.nextHandle
                 && |rq| > 0
                 && (forall j :: 0 <= j < MaxThreads && j != s.running && j != r.s.running ==>
                       r.s.table[j] == if j in w then Some(s.table[j].value.(status := Ready)) else s.table[j])
                 && (rq[0] != s.running && LiveAfterWake(s, w, rq[0]) ==>
                       r.s.running == rq[0] && r.s.ready == TidQueue.Remove(rq[1..], rq[0]).1)
    ensures r.Acquired? ==> r.lock == l.value && r.s.running == s.running && r.s.ready == []
    ensures CvCallOk(s, cv, l) && l.value.queue in s.waits && s.waits[l.value.queue] == [] && s.ready == [] ==>
              r == Acquired(s, l.value)
    ensures !r.Spins?
  {
    if !CvCallOk(s, cv, l) then Failed
    else
      match LockRelease(s, l)
      case None => Failed
      case Some((s1, l1)) =>
        var h := cv.value.queue;
        var w := s.waits[l.value.queue];
        var o := Sleep(s1, Some(h));
        if o.Fault? then Failed
        else if o.ret == NONE then
          assert o.s.running == s.running;
          LockAcquire(o.s, Some(l1))
        else
          assert Asleep(s1, h) == Asleep(s, h);
          assert |s1.ready| > 0;
          assert forall x :: Live(s1.table, x) <==> LiveAfterWake(s, w, x);
          Suspended(o.s, l1)
  }

  /**
   The waiter's partner: once cv_wait has suspended the only waiter of a
   condition variable, the thread now running takes the free lock at once,
   and its cv_signal makes the waiter READY at the back of the ready queue.
   */
  lemma CvWaitThenSignal(s: Sched, cv: Cv, l: Lock)
    requires Wf(s) && l.owner == s.running && cv.queue != l.queue
    requires cv.queue in s.waits && s.waits[cv.queue] == []
    requires CvWait(s, Some(cv), Some(l)).Suspended?
    ensures var r := CvWait(s, Some(cv), Some(l));
            var l1 := l.(owner := r.s.running);
            && LockAcquire(r.s, Some(r.lock)) == Acquired(r.s, l1)
            && var o := CvSignal(r.s, Some(cv), Some(l1));
               && o.Ok? && o.ret == 1
               && o.s.waits[cv.queue] == []
               && o.s.ready == TidQueue.Add(r.s.ready, s.running)
               && o.s.table[s.running] == Some(Asleep(s, cv.queue).(status := Ready))
  {
    var r := CvWait(s, Some(cv), Some(l));
    assert r.s.waits[cv.queue] == [s.running];
    WakeSole(r.s, cv.queue, s.running);
  }

  /** Waking the sole waiter of a queue empties it and makes that waiter READY at the back of the ready queue. */
  lemma WakeSole(t: Sched, h: nat, x: int)
    requires Wf(t) && h in t.waits && t.waits[h] == [x] && InRange(x) && t.table[x].Some?
    ensures var o := Wakeup(t, Some(h), false);
            && o.Ok? && o.ret == 1 && o.s.waits[h] == []
            && o.s.ready == TidQueue.Add(t.ready, x)
            && o.s.table[x] == Some(t.table[x].value.(status := Ready))
  {
    var w := t.waits[h];
    assert w[..1] == w;
    assert !SomeSlotEmpty(t, w[..1]);
  }

  /** cv_signal: asserts the caller holds the lock and wakes the first waiter. */
  function CvSignal(s: Sched, cv: Option<Cv>, l: Option<Lock>): (o: Out)
    requires Wf(s)
    ensures !CvCallOk(s, cv, l) ==> o == Fault
    ensures CvCallOk(s, cv, l) ==> o == Wakeup(s, Some(cv.value.queue), false)
    ensures o.Ok? ==> o.ret <= 1
  {
    if !CvCallOk(s, cv, l) then Fault else Wakeup(s, Some(cv.value.queue), false)
  }

  /** cv_broadcast: asserts the caller holds the lock and wakes every waiter. */
  function CvBroadcast(s: Sched, cv: Option<Cv>, l: Option<Lock>): (o: Out)
    requires Wf(s)
    ensures !CvCallOk(s, cv, l) ==> o == Fault
    ensures CvCallOk(s, cv, l) ==> o == Wakeup(s, Some(cv.value.queue), true)
    ensures o.Ok? && cv.value.queue in s.waits ==>
              o.ret == |s.waits[cv.value.queue]| && o.s.waits[cv.value.queue] == []
  {
    if !CvCallOk(s, cv, l) then Fault else Wakeup(s, Some(cv.value.queue), true)
  }
}
