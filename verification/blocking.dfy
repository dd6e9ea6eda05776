/**
 The blocking primitives of marker/os-244/threads/thread.c: wait queues,
 thread_sleep, thread_wakeup and thread_wait, over the scheduler state of
 `Scheduler`. A wait queue is named by its handle in `Sched.waits`; a NULL
 queue argument is `None`.
 */
module Blocking {
  import opened ThreadIds
  import opened Optional
  import TidQueue
  import opened Scheduler

  // ---------------------------------------------------------------------
  // wait_queue_create / wait_queue_destroy
  // ---------------------------------------------------------------------

  /** wait_queue_create: a new empty queue under a handle no live queue uses. */
  function WaitQueueCreate(s: Sched): (r: (nat, Sched))
    requires Wf(s)
    ensures Wf(r.1)
    ensures r.0 !in s.waits && r.0 in r.1.waits && r.1.waits[r.0] == []
    ensures forall h :: h in s.waits ==> h in r.1.waits && r.1.waits[h] == s.waits[h]
    ensures r.1.table == s.table && r.1.ready == s.ready && r.1.running == s.running
    ensures r.1.exitStatus == s.exitStatus
  {
    (s.nextHandle, s.(waits := s.waits[s.nextHandle := []], nextHandle := s.nextHandle + 1))
  }

  /**
   wait_queue_destroy: a NULL queue is ignored; otherwise the queue must be
   empty (an assert) and is freed. Freeing a queue twice is a fault.
   */
  function WaitQueueDestroy(s: Sched, q: Option<nat>): (o: Option<Sched>)
    requires Wf(s)
    ensures q.None? ==> o == Some(s)
    ensures q.Some? ==> (o.None? <==> q.value !in s.waits || |s.waits[q.value]| != 0)
    ensures o.Some? ==> Wf(o.value)
    ensures o.Some? && q.Some? ==>
              && q.value !in o.value.waits
              && o.value.table == s.table && o.value.ready == s.ready && o.value.running == s.running
              && forall h :: h in s.waits && h != q.value ==> h in o.value.waits && o.value.waits[h] == s.waits[h]
  {
    if q.None? then Some(s)
    else if q.value !in s.waits || |s.waits[q.value]| != 0 then None
    else Some(s.(waits := s.waits - {q.value}))
  }

  /** Destroying a queue right after creating it leaves every other queue as it was. */
  lemma CreateThenDestroy(s: Sched)
    requires Wf(s)
    ensures var (h, s1) := WaitQueueCreate(s);
            WaitQueueDestroy(s1, Some(h)) == Some(s.(nextHandle := s.nextHandle + 1))
  {
    var (h, s1) := WaitQueueCreate(s);
    assert s1.waits - {h} == s.waits;
  }

  // ---------------------------------------------------------------------
  // thread_sleep
  // ---------------------------------------------------------------------

  /** The caller as it goes to sleep on queue `h`. */
  function Asleep(s: Sched, h: nat): Tcb
    requires Wf(s)
  {
    s.table[s.running].value.(status := Sleeping, curQ := WaitQueue(h))
  }

  /** The caller enqueued on `h` and SLEEPING, just before it yields. */
  function Enqueued(s: Sched, h: nat): (r: Sched)
    requires Wf(s) && h in s.waits
    ensures Wf(r) && r.running == s.running && r.ready == s.ready
  {
    WfSetSlot(s, s.running, Some(Asleep(s, h)));
    QueueOkAdd(s.waits[h], s.running);
    s.(table := s.table[s.running := Some(Asleep(s, h))],
       waits := s.waits[h := TidQueue.Add(s.waits[h], s.running)])
  }

  /** What the yield at the end of thread_sleep produces, in terms of the state before the caller slept. */
  predicate SleptThenYielded(s: Sched, h: nat, o: Out)
    requires Wf(s) && |s.ready| > 0 && h in s.waits && o.Ok?
  {
    && Wf(o.s)
    && o.s.waits == s.waits[h := TidQueue.Add(s.waits[h], s.running)]
    && o.s.table[s.running] == Some(Asleep(s, h))
    && o.s.exitStatus == s.exitStatus && o.s.nextHandle == s.nextHandle
    && (o.ret == NONE || o.ret == s.running || o.s.running == o.ret)
    && (o.ret == NONE ==> o.s.running == s.running && o.s.ready == [])
    && (o.s.running != s.running ==> s.table[o.s.running].Some?)
    && (forall j :: 0 <= j < MaxThreads && j != s.running ==>
         o.s.table[j] == if j == o.s.running then Some(s.table[j].value.(status := Running)) else s.table[j])
    && (s.ready[0] != s.running && Live(s.table, s.ready[0]) ==>
         o.ret == s.ready[0] && o.s.running == s.ready[0] &&
         o.s.ready == TidQueue.Remove(s.ready[1..], s.ready[0]).1)
  }

  /** The yield of a sleeping caller never faults, and it resumes the front of the ready queue when that is live. */
  lemma SleepYields(s: Sched, h: nat)
    requires Wf(s) && |s.ready| > 0 && h in s.waits
    ensures var o := YieldAny(Enqueued(s, h));
            !o.Halt? && !o.Fault? && SleptThenYielded(s, h, o)
  {
    var s2 := Enqueued(s, h);
    var o := YieldAny(s2);
    YieldAnyPicks(s2);
    if o.Ok? && o.ret != NONE {
      var k :| YieldedFrom(s2, k, o);
      if o.ret != s2.running {
        SleepSwitched(s, h, k, o);
      } else {
        SleepResumesSelf(s, h, k, o);
      }
    }
  }

  /** The sleeping caller found itself in the ready queue: it is taken again without a switch. */
  lemma SleepResumesSelf(s: Sched, h: nat, k: int, o: Out)
    requires Wf(s) && |s.ready| > 0 && h in s.waits && o.Ok? && Wf(o.s)
    requires YieldedFrom(Enqueued(s, h), k, o) && o.ret == s.running
    ensures SleptThenYielded(s, h, o)
  {
    var s2 := Enqueued(s, h);
    assert Live(s2.table, s.running);
    if s.ready[0] != s.running && Live(s.table, s.ready[0]) {
      assert false;
    }
  }

  /** The sleeping caller switched to the thread at position `k` of the ready queue. */
  lemma SleepSwitched(s: Sched, h: nat, k: int, o: Out)
    requires Wf(s) && |s.ready| > 0 && h in s.waits && o.Ok? && Wf(o.s)
    requires YieldedFrom(Enqueued(s, h), k, o) && o.ret != s.running
    ensures SleptThenYielded(s, h, o)
  {
    var s2 := Enqueued(s, h);
    var t := o.ret;
    assert Switched(s2.(ready := s.ready[k + 1..]), t, o);
    assert o.s.running == t && o.s.table[s.running] == s2.table[s.running];
    assert s2.table[t] == s.table[t];
    forall j | 0 <= j < MaxThreads && j != s.running
      ensures o.s.table[j] == if j == o.s.running then Some(s.table[j].value.(status := Running)) else s.table[j]
    {
      assert s2.table[j] == s.table[j];
    }
    if s.ready[0] != s.running && Live(s.table, s.ready[0]) {
      assert Live(s2.table, s.ready[0]);
      assert k == 0;
    }
  }

  /**
   thread_sleep: INVALID for a NULL queue; NONE, enqueueing nothing, when the
   ready queue is empty. Otherwise the caller becomes SLEEPING, records the
   queue in `cur_q`, is appended to it, and yields to any thread.
   */
  function Sleep(s: Sched, q: Option<nat>): (o: Out)
    requires Wf(s)
    ensures !o.Halt?
    ensures q.None? ==> o == Ok(INVALID, s)
    ensures q.Some? && |s.ready| == 0 ==> o == Ok(NONE, s)
    ensures o.Fault? <==> q.Some? && |s.ready| > 0 && q.value !in s.waits
    ensures o.Ok? && q.Some? && |s.ready| > 0 ==> q.value in s.waits && SleptThenYielded(s, q.value, o)
  {
    if q.None? then Ok(INVALID, s)
    else if |s.ready| == 0 then Ok(NONE, s)
    else
      var h := q.value;
      if h !in s.waits then Fault
      else
        SleepYields(s, h);
        YieldAny(Enqueued(s, h))
  }

  // ---------------------------------------------------------------------
  // thread_wakeup
  // ---------------------------------------------------------------------

  /** Ids of `xs` whose slot is empty: setting their state dereferences NULL. */
  predicate SomeSlotEmpty(s: Sched, xs: seq<int>)
    requires Wf(s) && QueueOk(xs)
  {
    exists i :: 0 <= i < |xs| && s.table[xs[i]].None?
  }

  /** The thread `x`, which has a slot, marked READY and appended to the ready queue. */
  function MarkReady(s: Sched, x: int): (r: Sched)
    requires Wf(s) && InRange(x) && s.table[x].Some?
    ensures Wf(r)
  {
    WfSetSlot(s, x, Some(s.table[x].value.(status := Ready)));
    QueueOkAdd(s.ready, x);
    s.(table := s.table[x := Some(s.table[x].value.(status := Ready))], ready := TidQueue.Add(s.ready, x))
  }

  /** `r` is `s` with the threads `xs` marked READY and appended to the ready queue in order. */
  ghost predicate MovedToReady(s: Sched, xs: seq<int>, r: Sched)
    requires |s.table| == MaxThreads && QueueOk(xs)
  {
    && (forall i :: 0 <= i < |xs| ==> s.table[xs[i]].Some?)
    && Wf(r)
    && r.ready == TidQueue.AddAll(s.ready, xs)
    && r == s.(table := r.table, ready := r.ready)
    && forall j :: 0 <= j < MaxThreads ==>
         r.table[j] == if j in xs then Some(s.table[j].value.(status := Ready)) else s.table[j]
  }

  /** Moving the first thread and then the rest is moving them all. */
  lemma MoveToReadyStep(s: Sched, xs: seq<int>, o: Option<Sched>)
    requires Wf(s) && QueueOk(xs) && |xs| > 0 && s.table[xs[0]].Some?
    requires var s1 := MarkReady(s, xs[0]);
             && (o.None? <==> SomeSlotEmpty(s1, xs[1..]))
             && (o.Some? ==> MovedToReady(s1, xs[1..], o.value))
    ensures o.None? <==> SomeSlotEmpty(s, xs)
    ensures o.Some? ==> MovedToReady(s, xs, o.value)
  {
    var s1 := MarkReady(s, xs[0]);
    assert forall i :: 0 <= i < |xs[1..]| ==> xs[1..][i] == xs[i + 1];
    if SomeSlotEmpty(s1, xs[1..]) {
      var i :| 0 <= i < |xs[1..]| && s1.table[xs[1..][i]].None?;
      assert s.table[xs[i + 1]].None?;
    }
    if SomeSlotEmpty(s, xs) {
      var i :| 0 <= i < |xs| && s.table[xs[i]].None?;
      assert i > 0 && s1.table[xs[1..][i - 1]].None?;
    }
    if o.Some? {
      var r := o.value;
      assert TidQueue.AddAll(s.ready, xs) == TidQueue.AddAll(s1.ready, xs[1..]);
      forall j | 0 <= j < MaxThreads
        ensures r.table[j] == if j in xs then Some(s.table[j].value.(status := Ready)) else s.table[j]
      {
        assert j in xs <==> j == xs[0] || j in xs[1..];
      }
    }
  }

  /**
   The loop of thread_wakeup over the ids popped, front first: each one is
   marked READY and appended to the ready queue.
   */
  function MoveToReady(s: Sched, xs: seq<int>): (o: Option<Sched>)
    requires Wf(s) && QueueOk(xs)
    ensures o.None? <==> SomeSlotEmpty(s, xs)
    ensures o.Some? ==> MovedToReady(s, xs, o.value)
    decreases |xs|
  {
    if |xs| == 0 then Some(s)
    else if s.table[xs[0]].None? then None
    else
      var o := MoveToReady(MarkReady(s, xs[0]), xs[1..]);
      MoveToReadyStep(s, xs, o);
      o
  }

  /** How many threads thread_wakeup moves from a non-empty queue of `size` threads. */
  function WakeCount(size: nat, all: bool): nat {
    if all then size else 1
  }

  /**
   thread_wakeup: 0 for a NULL or empty queue; otherwise the first thread (or
   every thread, when `all`) leaves the wait queue, front first, becomes READY
   and is appended to the ready queue. The result is the number moved.
   */
  function Wakeup(s: Sched, q: Option<nat>, all: bool): (o: Out)
    requires Wf(s)
    ensures !o.Halt?
    ensures q.None? || (q.value in s.waits && |s.waits[q.value]| == 0) ==> o == Ok(0, s)
    ensures o.Fault? <==>
              q.Some? && (q.value !in s.waits ||
                          (|s.waits[q.value]| > 0 &&
                           SomeSlotEmpty(s, s.waits[q.value][..WakeCount(|s.waits[q.value]|, all)])))
    ensures o.Ok? && q.Some? && q.value in s.waits && |s.waits[q.value]| > 0 ==>
              var w := s.waits[q.value];
              var n := WakeCount(|w|, all);
              && Wf(o.s)
              && o.ret == n && 0 < n <= |w|
              && o.s.ready == TidQueue.AddAll(s.ready, w[..n])
              && o.s.waits == s.waits[q.value := w[n..]]
              && o.s.running == s.running && o.s.exitStatus == s.exitStatus && o.s.nextHandle == s.nextHandle
              && forall j :: 0 <= j < MaxThreads ==>
                   o.s.table[j] == if j in w[..n] then Some(s.table[j].value.(status := Ready)) else s.table[j]
  {
    if q.None? then Ok(0, s)
    else
      var h := q.value;
      if h !in s.waits then Fault
      else if |s.waits[h]| == 0 then Ok(0, s)
      else
        var w := s.waits[h];
        var n := WakeCount(|w|, all);
        var s1 := s.(waits := s.waits[h := w[n..]]);
        assert Wf(s1);
        match MoveToReady(s1, w[..n])
        case None => Fault
        case Some(s2) => Ok(n, s2)
  }

  /** Waking one thread and then the rest moves the same threads, in the same order, as waking all. */
  lemma WakeOneThenAll(s: Sched, h: nat)
    requires Wf(s) && h in s.waits && |s.waits[h]| > 0
    requires Wakeup(s, Some(h), false).Ok?
    ensures var o := Wakeup(s, Some(h), false);
            Wakeup(o.s, Some(h), true).Ok? ==>
              Wakeup(o.s, Some(h), true).s.ready == TidQueue.AddAll(s.ready, s.waits[h]) &&
              Wakeup(o.s, Some(h), true).s.waits[h] == []
  {
    var w := s.waits[h];
    var o := Wakeup(s, Some(h), false);
    assert o.s.waits[h] == w[1..];
    assert w[..1] + w[1..] == w;
    if |w[1..]| > 0 && Wakeup(o.s, Some(h), true).Ok? {
      AddAllConcat(s.ready, w[..1], w[1..]);
      assert w[1..][..|w[1..]|] == w[1..];
    }
    if |w[1..]| == 0 {
      assert w[..1] == w;
    }
  }

  /** Adding two lists one after the other is adding their concatenation. */
  lemma {:induction false} AddAllConcat(q: seq<int>, xs: seq<int>, ys: seq<int>)
    ensures TidQueue.AddAll(TidQueue.AddAll(q, xs), ys) == TidQueue.AddAll(q, xs + ys)
    decreases |xs|
  {
    if |xs| > 0 {
      AddAllConcat(TidQueue.Add(q, xs[0]), xs[1..], ys);
      assert (xs + ys)[0] == xs[0];
      assert (xs + ys)[1..] == xs[1..] + ys;
    } else {
      assert xs + ys == ys;
      assert TidQueue.AddAll(q, xs) == q;
    }
  }

  // ---------------------------------------------------------------------
  // thread_wait
  // ---------------------------------------------------------------------

  /** The ids thread_wait rejects outright: out of range, an empty slot, or the caller. */
  predicate JoinRejected(s: Sched, tid: int)
    requires Wf(s)
  {
    tid < 0 || tid >= MaxThreads || s.table[tid].None? || tid == s.running
  }

  /** Giving a thread a freshly allocated join queue keeps `Wf`. */
  lemma WfNewJoin(s: Sched, tid: int)
    requires Wf(s) && InRange(tid) && s.table[tid].Some? && s.table[tid].value.joinQ.None?
    ensures Wf(s.(table := s.table[tid := Some(s.table[tid].value.(joinQ := Some(s.nextHandle)))],
                  waits := s.waits[s.nextHandle := []], nextHandle := s.nextHandle + 1))
  {
    var tb := s.table[tid := Some(s.table[tid].value.(joinQ := Some(s.nextHandle)))];
    var s1 := s.(table := tb, waits := s.waits[s.nextHandle := []], nextHandle := s.nextHandle + 1);
    forall h | h in s1.waits ensures h < s1.nextHandle && QueueOk(s1.waits[h]) {
      if h != s.nextHandle {
        assert h in s.waits;
      }
    }
    forall a | 0 <= a < MaxThreads && HasJoin(tb, a) ensures JoinOf(tb, a) < s1.nextHandle {
      if a != tid {
        assert HasJoin(s.table, a);
      }
    }
    forall a, b | 0 <= a < b < MaxThreads && HasJoin(tb, a) && HasJoin(tb, b)
      ensures JoinOf(tb, a) != JoinOf(tb, b)
    {
      if a != tid && b != tid {
        assert HasJoin(s.table, a) && HasJoin(s.table, b);
      } else if a == tid {
        assert HasJoin(s.table, b) && JoinOf(s.table, b) < s.nextHandle;
      } else {
        assert HasJoin(s.table, a) && JoinOf(s.table, a) < s.nextHandle;
      }
    }
  }

  /**
   The first half of thread_wait for an accepted id: the first joiner creates
   the target's join queue and will return the target's id; a later joiner
   finds the queue there and will return INVALID.
   */
  function JoinQueue(s: Sched, tid: int): (r: (Sched, int))
    requires Wf(s) && !JoinRejected(s, tid)
    ensures Wf(r.0) && HasJoin(r.0.table, tid)
    ensures r.1 == (if HasJoin(s.table, tid) then INVALID else tid)
    ensures HasJoin(s.table, tid) ==> r.0 == s
    ensures !HasJoin(s.table, tid) ==>
              && JoinOf(r.0.table, tid) == s.nextHandle && s.nextHandle !in s.waits
              && r.0.waits == s.waits[s.nextHandle := []]
              && r.0.table[s.running] == s.table[s.running]
              && r.0.ready == s.ready && r.0.running == s.running && r.0.exitStatus == s.exitStatus
  {
    var t := s.table[tid].value;
    if t.joinQ.None? then
      WfNewJoin(s, tid);
      (s.(table := s.table[tid := Some(t.(joinQ := Some(s.nextHandle)))],
          waits := s.waits[s.nextHandle := []], nextHandle := s.nextHandle + 1), tid)
    else (s, INVALID)
  }

  /** Sleeping changes no thread's join queue. */
  lemma SleepKeepsJoin(s: Sched, h: nat, j: int)
    requires Wf(s) && InRange(j) && HasJoin(s.table, j)
    ensures var o := Sleep(s, Some(h));
            o.Ok? ==> HasJoin(o.s.table, j) && JoinOf(o.s.table, j) == JoinOf(s.table, j)
  {
    var o := Sleep(s, Some(h));
    if o.Ok? && |s.ready| > 0 {
      assert SleptThenYielded(s, h, o);

    }
  }

  /**
   thread_wait up to the point where the caller sleeps. A rejected id returns
   INVALID at once; otherwise the caller sleeps on the target's join queue,
   whichever of the two results it will return. `ret` is the value thread_wait
   returns. A target that is DEAD but not yet reaped is accepted.
   */
  function Join(s: Sched, tid: int): (o: Out)
    requires Wf(s)
    ensures !o.Halt?
    ensures JoinRejected(s, tid) ==> o == Ok(INVALID, s)
    ensures o.Fault? <==>
              !JoinRejected(s, tid) && HasJoin(s.table, tid) && |s.ready| > 0 && JoinOf(s.table, tid) !in s.waits
    ensures o.Ok? && !JoinRejected(s, tid) ==>
              && Wf(o.s)
              && o.ret == (if HasJoin(s.table, tid) then INVALID else tid)
              && HasJoin(o.s.table, tid)
              && var h := JoinOf(o.s.table, tid);
                 && (HasJoin(s.table, tid) ==> h == JoinOf(s.table, tid))
                 && (!HasJoin(s.table, tid) ==> h !in s.waits)
                 && (|s.ready| > 0 ==>
                       && o.s.table[s.running] == Some(Asleep(s, h))
                       && h in o.s.waits
                       && o.s.waits[h] == TidQueue.Add(if HasJoin(s.table, tid) then s.waits[h] else [], s.running))
                 && (|s.ready| == 0 ==>
                       o.s.running == s.running && o.s.table[s.running] == s.table[s.running] &&
                       (!HasJoin(s.table, tid) ==> h in o.s.waits && o.s.waits[h] == []))
  {
    if JoinRejected(s, tid) then Ok(INVALID, s)
    else
      var (s1, ret) := JoinQueue(s, tid);
      var h := JoinOf(s1.table, tid);
      var o := Sleep(s1, Some(h));
      assert !HasJoin(s.table, tid) ==> h in s1.waits && s1.waits[h] == [];
      assert HasJoin(s.table, tid) ==> s1 == s && h == JoinOf(s.table, tid);
      SleepKeepsJoin(s1, h, tid);
      match o
      case Ok(_, s2) => Ok(ret, s2)
      case _ => Fault
  }

  /** Accepting a join changes no slot but the target's, and keeps every thread's liveness. */
  lemma JoinQueueKeepsSlots(s: Sched, tid: int)
    requires Wf(s) && !JoinRejected(s, tid)
    ensures var s1 := JoinQueue(s, tid).0;
            && s1.ready == s.ready && s1.running == s.running
            && s1.table[tid].Some? && s1.table[tid].value.status == s.table[tid].value.status
            && forall j :: 0 <= j < MaxThreads ==>
                 (j != tid ==> s1.table[j] == s.table[j]) && (Live(s1.table, j) <==> Live(s.table, j))
  {
  }

  /**
   A joiner that sleeps changes no other thread's slot than its own, the
   target's join queue and the resumed thread's state, which becomes RUNNING.
   */
  lemma JoinKeepsOthers(s: Sched, tid: int)
    requires Wf(s) && !JoinRejected(s, tid) && |s.ready| > 0
    ensures var o := Join(s, tid);
            o.Ok? ==>
              && (forall j :: 0 <= j < MaxThreads && j != s.running && j != tid && j != o.s.running ==>
                    o.s.table[j] == s.table[j])
              && o.s.table[tid].value.status == (if tid == o.s.running then Running else s.table[tid].value.status)
  {
    var (s1, ret) := JoinQueue(s, tid);
    var h := JoinOf(s1.table, tid);
    var o := Sleep(s1, Some(h));
    assert Join(s, tid) == (if o.Ok? then Ok(ret, o.s) else Fault);
    if o.Ok? {
      assert SleptThenYielded(s1, h, o);
      JoinQueueKeepsSlots(s, tid);
    }
  }

  /** A joiner that sleeps resumes the front of the ready queue when that is live. */
  lemma JoinTakesFront(s: Sched, tid: int)
    requires Wf(s) && !JoinRejected(s, tid) && |s.ready| > 0
    ensures var o := Join(s, tid);
            o.Ok? && s.ready[0] != s.running && Live(s.table, s.ready[0]) ==>
              && o.s.running == s.ready[0]
              && o.s.ready == TidQueue.Remove(s.ready[1..], s.ready[0]).1
              && o.s.table[o.s.running].Some? && o.s.table[o.s.running].value.status == Running
  {
    var (s1, ret) := JoinQueue(s, tid);
    var h := JoinOf(s1.table, tid);
    var o := Sleep(s1, Some(h));
    assert Join(s, tid) == (if o.Ok? then Ok(ret, o.s) else Fault);
    if o.Ok? {
      assert SleptThenYielded(s1, h, o);
      JoinQueueKeepsSlots(s, tid);
    }
  }

  /**
   The end of thread_wait, once the caller runs again: when it is the first
   joiner and asked for the code, it reads the target's exit status and resets
   the entry to INVALID.
   */
  function JoinFinish(s: Sched, ret: int, wantsCode: bool): (r: (Option<int>, Sched))
    requires |s.exitStatus| == MaxThreads && (ret == INVALID || InRange(ret))
    ensures r.0.Some? <==> ret != INVALID && wantsCode
    ensures r.0.Some? ==> r.0.value == s.exitStatus[ret] && r.1 == s.(exitStatus := s.exitStatus[ret := INVALID])
    ensures r.0.None? ==> r.1 == s
  {
    if ret != INVALID && wantsCode then (Some(s.exitStatus[ret]), s.(exitStatus := s.exitStatus[ret := INVALID]))
    else (None, s)
  }
}
