/**
 The user-level thread scheduler of marker/os-244/threads/thread.c as a
 state machine over an immutable record.

 The record holds the thread table (`THREADS`), the running thread
 (`t_running`), the ready queue, every live wait queue keyed by a handle that
 stands for its address, and the exit-status array. Each public operation is
 one transition, taken up to the context switch: where the source saves the
 caller's context and resumes another thread, the transition returns the
 state at the moment of the switch together with the value the caller's call
 returns once it is resumed.

 Every C `assert` that fails, every NULL dereference, every access outside an
 array and every use of a freed wait queue ends the transition in `Fault`;
 the process exit in `thread_exit` is `Halt`.
 */
module Scheduler {
  import opened ThreadIds
  import opened Optional
  import TidQueue

  /** The thread states the source uses (its enum also names an unused WAITING). */
  datatype Status = Ready | Running | Killed | Dead | Sleeping

  /** Where a thread's `cur_q` points: nowhere, the ready queue, or a wait queue. */
  datatype QueueRef = NoQueue | ReadyQueue | WaitQueue(handle: nat)

  /**
   A thread control block; the id is its index in the table. `killed` records
   that thread_kill has rewritten the saved context, so that the thread calls
   thread_exit with `KillExitCode` the next time it is resumed.
   */
  datatype Tcb = Tcb(status: Status, curQ: QueueRef, joinQ: Option<nat>, killed: bool)

  datatype Sched = Sched(
    table: seq<Option<Tcb>>,
    running: int,
    ready: seq<int>,
    waits: map<nat, seq<int>>,
    nextHandle: nat,
    exitStatus: seq<int>)

  /** The result of a transition. */
  datatype Out =
    | Ok(ret: int, s: Sched)
      /** the process exits with this status */
    | Halt(code: int)
      /** a failed assert or undefined behaviour */
    | Fault

  /** A queue of valid table indices that fits in the fixed array. */
  predicate QueueOk(q: seq<int>) {
    |q| <= MaxThreads && forall i :: 0 <= i < |q| ==> InRange(q[i])
  }

  predicate HasJoin(table: seq<Option<Tcb>>, i: int)
    requires 0 <= i < |table|
  {
    table[i].Some? && table[i].value.joinQ.Some?
  }

  function JoinOf(table: seq<Option<Tcb>>, i: int): nat
    requires 0 <= i < |table| && HasJoin(table, i)
  {
    table[i].value.joinQ.value
  }

  /**
   Well-formedness: the shapes every transition relies on. Queues hold only
   table indices and never more than `MaxThreads` of them; the running thread
   has a control block; wait-queue handles are allocated from a counter, so
   each thread's join queue is its own.
   */
  predicate Wf(s: Sched) {
    && |s.table| == MaxThreads
    && |s.exitStatus| == MaxThreads
    && InRange(s.running)
    && s.table[s.running].Some?
    && QueueOk(s.ready)
    && (forall h :: h in s.waits ==> h < s.nextHandle && QueueOk(s.waits[h]))
    && (forall i :: 0 <= i < MaxThreads && HasJoin(s.table, i) ==> JoinOf(s.table, i) < s.nextHandle)
    && (forall i, j :: 0 <= i < j < MaxThreads && HasJoin(s.table, i) && HasJoin(s.table, j) ==>
          JoinOf(s.table, i) != JoinOf(s.table, j))
  }

  /**
   thread_init: thread 0 runs, no other thread exists. The exit-status array
   is initialised with a one-element initialiser, so only entry 0 holds
   INVALID and every other entry holds 0.
   */
  function Init(): (s: Sched)
    ensures Wf(s)
    ensures s.running == 0 && s.table[0] == Some(Tcb(Running, NoQueue, None, false))
    ensures forall i :: 0 < i < MaxThreads ==> s.table[i].None? && s.exitStatus[i] == 0
    ensures s.exitStatus[0] == INVALID && s.ready == [] && s.waits == map[]
  {
    Sched(seq(MaxThreads, i => if i == 0 then Some(Tcb(Running, NoQueue, None, false)) else None),
          0, [], map[], 0,
          seq(MaxThreads, i => if i == 0 then INVALID else 0))
  }

  /** A slot holding a thread that has not exited. */
  predicate Live(table: seq<Option<Tcb>>, id: int)
    requires |table| == MaxThreads
  {
    InRange(id) && table[id].Some? && table[id].value.status != Dead
  }

  /**
   t_invalid: out of range, or a positive id whose slot is empty or DEAD.
   Id 0 and the sentinels ANY and SELF are never invalid.
   */
  predicate Invalid(s: Sched, id: int)
    requires |s.table| == MaxThreads
  {
    id < SELF || id >= MaxThreads || (id > 0 && !Live(s.table, id))
  }

  lemma InvalidCharacterised(s: Sched, id: int)
    requires |s.table| == MaxThreads
    ensures !Invalid(s, id) <==> id == ANY || id == SELF || id == 0 || Live(s.table, id)
    ensures !Invalid(s, 0)
  {
  }

  // ---------------------------------------------------------------------
  // Reaping (t_clean_dead_threads)
  // ---------------------------------------------------------------------

  /** A DEAD thread other than the running one: freed by the next reaping pass. */
  predicate Reapable(s: Sched, i: int)
    requires |s.table| == MaxThreads && 0 <= i < MaxThreads
  {
    s.table[i].Some? && s.table[i].value.status == Dead && i != s.running
  }

  /** Reaping slot `i` destroys a join queue that is already freed or still holds waiters. */
  predicate BadReap(s: Sched, i: int)
    requires |s.table| == MaxThreads && 0 <= i < MaxThreads
  {
    Reapable(s, i) && HasJoin(s.table, i) &&
    (JoinOf(s.table, i) !in s.waits || |s.waits[JoinOf(s.table, i)]| != 0)
  }

  /** `h` is the join queue of a thread that the pass from slot `from` reaps. */
  ghost predicate ReapedJoin(s: Sched, from: int, h: nat)
    requires |s.table| == MaxThreads
  {
    exists j :: 0 <= from <= j < MaxThreads && Reapable(s, j) && HasJoin(s.table, j) && JoinOf(s.table, j) == h
  }

  /** What a reaping pass from slot `from` changes: reapable slots empty, their queues gone. */
  ghost predicate ReapedFrom(s: Sched, s': Sched, from: int)
    requires |s.table| == MaxThreads && |s'.table| == MaxThreads
  {
    && s'.running == s.running && s'.ready == s.ready
    && s'.nextHandle == s.nextHandle && s'.exitStatus == s.exitStatus
    && (forall j :: 0 <= j < MaxThreads ==>
          s'.table[j] == if from <= j && Reapable(s, j) then None else s.table[j])
    && (forall h :: h in s'.waits ==> h in s.waits && s'.waits[h] == s.waits[h])
    && (forall h :: h in s.waits ==> (h in s'.waits <==> !ReapedJoin(s, from, h)))
  }

  /**
   The reaping loop from slot `i` on: frees every DEAD slot except the running
   thread's, destroying its join queue; `wait_queue_destroy` asserts that the
   queue is empty.
   */
  function ReapFrom(s: Sched, i: int): (o: Option<Sched>)
    requires Wf(s) && 0 <= i <= MaxThreads
    ensures o.None? <==> exists j :: i <= j < MaxThreads && BadReap(s, j)
    ensures o.Some? ==> Wf(o.value) && ReapedFrom(s, o.value, i)
    decreases MaxThreads - i
  {
    if i == MaxThreads then Some(s)
    else if !Reapable(s, i) then
      var o := ReapFrom(s, i + 1);
      ReapSkip(s, i, o);
      o
    else if !HasJoin(s.table, i) then
      var s1 := s.(table := s.table[i := None]);
      EmptiedSlotKeepsJoins(s, i);
      var o := ReapFrom(s1, i + 1);
      ReapStep(s, i, s1, o);
      o
    else
      var h := JoinOf(s.table, i);
      if h !in s.waits || |s.waits[h]| != 0 then
        assert BadReap(s, i);
        None
      else
        var s1 := s.(table := s.table[i := None], waits := s.waits - {h});
        EmptiedSlotKeepsJoins(s, i);
        var o := ReapFrom(s1, i + 1);
        ReapStep(s, i, s1, o);
        o
  }

  /** A slot that is not reapable adds no queue to those the pass frees. */
  lemma ReapedJoinSkip(s: Sched, i: int)
    requires |s.table| == MaxThreads && 0 <= i < MaxThreads && !Reapable(s, i)
    ensures forall h :: ReapedJoin(s, i, h) <==> ReapedJoin(s, i + 1, h)
  {
    forall h | ReapedJoin(s, i, h)
      ensures ReapedJoin(s, i + 1, h)
    {
      var j :| 0 <= i <= j < MaxThreads && Reapable(s, j) && HasJoin(s.table, j) && JoinOf(s.table, j) == h;
      assert j != i;
    }
    forall h | ReapedJoin(s, i + 1, h)
      ensures ReapedJoin(s, i, h)
    {
      var j :| 0 <= i + 1 <= j < MaxThreads && Reapable(s, j) && HasJoin(s.table, j) && JoinOf(s.table, j) == h;
    }
  }

  /**
   The queues a pass from a reapable slot frees: the slot's own join queue,
   and those the pass from the next slot frees once the slot is empty.
   */
  lemma ReapedJoinStep(s: Sched, i: int, s1: Sched)
    requires |s.table| == MaxThreads && 0 <= i < MaxThreads && Reapable(s, i)
    requires s1.table == s.table[i := None]
    requires s1.running == s.running
    ensures forall h :: ReapedJoin(s, i, h) <==>
              (HasJoin(s.table, i) && h == JoinOf(s.table, i)) || ReapedJoin(s1, i + 1, h)
  {
    forall h | ReapedJoin(s, i, h)
      ensures (HasJoin(s.table, i) && h == JoinOf(s.table, i)) || ReapedJoin(s1, i + 1, h)
    {
      var j :| 0 <= i <= j < MaxThreads && Reapable(s, j) && HasJoin(s.table, j) && JoinOf(s.table, j) == h;
      if j != i {
        assert s1.table[j] == s.table[j];
        assert Reapable(s1, j) && HasJoin(s1.table, j) && JoinOf(s1.table, j) == h;
      }
    }
    forall h | ReapedJoin(s1, i + 1, h)
      ensures ReapedJoin(s, i, h)
    {
      var j :| 0 <= i + 1 <= j < MaxThreads && Reapable(s1, j) && HasJoin(s1.table, j) && JoinOf(s1.table, j) == h;
      assert s1.table[j] == s.table[j];
      assert Reapable(s, j) && HasJoin(s.table, j) && JoinOf(s.table, j) == h;
    }
  }

  /** A slot that is not reapable changes nothing about the pass. */
  lemma ReapSkip(s: Sched, i: int, o: Option<Sched>)
    requires Wf(s) && 0 <= i < MaxThreads && !Reapable(s, i)
    requires o.None? <==> exists j :: i + 1 <= j < MaxThreads && BadReap(s, j)
    requires o.Some? ==> Wf(o.value) && ReapedFrom(s, o.value, i + 1)
    ensures o.None? <==> exists j :: i <= j < MaxThreads && BadReap(s, j)
    ensures o.Some? ==> ReapedFrom(s, o.value, i)
  {
    ReapedJoinSkip(s, i);
  }

  /** The wait queues left after reaping slot `i` and then the rest: exactly those of no reaped slot. */
  lemma ReapStepWaits(s: Sched, i: int, s1: Sched, r: Sched)
    requires |s.table| == MaxThreads && 0 <= i < MaxThreads && Reapable(s, i)
    requires s1.table == s.table[i := None] && s1.running == s.running
    requires s1.waits == if HasJoin(s.table, i) then s.waits - {JoinOf(s.table, i)} else s.waits
    requires forall h :: h in r.waits ==> h in s1.waits && r.waits[h] == s1.waits[h]
    requires forall h :: h in s1.waits ==> (h in r.waits <==> !ReapedJoin(s1, i + 1, h))
    ensures forall h :: h in r.waits ==> h in s.waits && r.waits[h] == s.waits[h]
    ensures forall h :: h in s.waits ==> (h in r.waits <==> !ReapedJoin(s, i, h))
  {
    ReapedJoinStep(s, i, s1);
    forall h | h in s.waits
      ensures h in r.waits <==> !ReapedJoin(s, i, h)
    {
      if HasJoin(s.table, i) && h == JoinOf(s.table, i) {
        assert h !in s1.waits;
      } else {
        assert h in s1.waits;
      }
    }
  }

  /** Reaping slot `i` and then the rest is the pass from `i`. */
  lemma ReapStep(s: Sched, i: int, s1: Sched, o: Option<Sched>)
    requires Wf(s) && 0 <= i < MaxThreads && Reapable(s, i)
    requires !HasJoin(s.table, i) ==> s1 == s.(table := s.table[i := None])
    requires HasJoin(s.table, i) ==>
               var h := JoinOf(s.table, i);
               h in s.waits && |s.waits[h]| == 0 &&
               s1 == s.(table := s.table[i := None], waits := s.waits - {h})
    requires Wf(s1)
    requires o.None? <==> exists j :: i + 1 <= j < MaxThreads && BadReap(s1, j)
    requires o.Some? ==> Wf(o.value) && ReapedFrom(s1, o.value, i + 1)
    ensures o.None? <==> exists j :: i <= j < MaxThreads && BadReap(s, j)
    ensures o.Some? ==> ReapedFrom(s, o.value, i)
  {
    assert !BadReap(s, i);
    forall j | i + 1 <= j < MaxThreads
      ensures BadReap(s1, j) <==> BadReap(s, j)
      ensures Reapable(s1, j) <==> Reapable(s, j)
    {
      assert s1.table[j] == s.table[j];
      if HasJoin(s.table, i) && HasJoin(s.table, j) {
        assert JoinOf(s.table, j) != JoinOf(s.table, i);
      }
    }
    if o.Some? {
      var r := o.value;
      forall j | 0 <= j < MaxThreads
        ensures r.table[j] == if i <= j && Reapable(s, j) then None else s.table[j]
      {
        if j != i {
          assert s1.table[j] == s.table[j];
        }
      }
      ReapStepWaits(s, i, s1, r);
    }
  }

  /** Emptying a slot other than the running one, and freeing any wait queue, keeps `Wf`. */
  lemma EmptiedSlotKeepsJoins(s: Sched, i: int)
    requires Wf(s) && 0 <= i < MaxThreads && i != s.running
    ensures forall k :: 0 <= k < MaxThreads && HasJoin(s.table[i := None], k) ==>
              k != i && HasJoin(s.table, k) && JoinOf(s.table[i := None], k) == JoinOf(s.table, k)
    ensures Wf(s.(table := s.table[i := None]))
    ensures forall h :: Wf(s.(table := s.table[i := None], waits := s.waits - {h}))
  {
    var t := s.table[i := None];
    forall k | 0 <= k < MaxThreads && HasJoin(t, k)
      ensures k != i && HasJoin(s.table, k) && JoinOf(t, k) == JoinOf(s.table, k)
    {
      assert t[k] == s.table[k];
    }
    forall a, b | 0 <= a < b < MaxThreads && HasJoin(t, a) && HasJoin(t, b)
      ensures JoinOf(t, a) != JoinOf(t, b)
    {
      assert HasJoin(s.table, a) && HasJoin(s.table, b);
    }
    forall h ensures Wf(s.(table := t, waits := s.waits - {h})) {
      var s2 := s.(table := t, waits := s.waits - {h});
      assert forall g :: g in s2.waits ==> g in s.waits && s2.waits[g] == s.waits[g];
    }
  }

  function Reap(s: Sched): (o: Option<Sched>)
    requires Wf(s)
    ensures o.None? <==> exists j :: 0 <= j < MaxThreads && BadReap(s, j)
    ensures o.Some? ==> Wf(o.value) && ReapedFrom(s, o.value, 0)
  {
    ReapFrom(s, 0)
  }

  // ---------------------------------------------------------------------
  // Shape lemmas
  // ---------------------------------------------------------------------

  lemma QueueOkAdd(q: seq<int>, id: int)
    requires QueueOk(q) && InRange(id)
    ensures QueueOk(TidQueue.Add(q, id))
  {
  }

  lemma QueueOkRemove(q: seq<int>, id: int)
    requires QueueOk(q)
    ensures QueueOk(TidQueue.Remove(q, id).1)
  {
    if id in q {
      var k := TidQueue.IndexOf(q, id);
      var r := TidQueue.Remove(q, id).1;
      forall i | 0 <= i < |r| ensures InRange(r[i]) {
        if i < k { assert r[i] == q[i]; } else { assert r[i] == q[i + 1]; }
      }
    }
  }

  lemma {:induction false} QueueOkAddAll(q: seq<int>, xs: seq<int>)
    requires QueueOk(q) && QueueOk(xs)
    ensures QueueOk(TidQueue.AddAll(q, xs))
    decreases |xs|
  {
    if |xs| > 0 {
      QueueOkAdd(q, xs[0]);
      QueueOkAddAll(TidQueue.Add(q, xs[0]), xs[1..]);
    }
  }

  /** Overwriting one slot keeps `Wf` when it adds no join queue of its own. */
  lemma WfSetSlot(s: Sched, k: int, t: Option<Tcb>)
    requires Wf(s) && InRange(k)
    requires k == s.running ==> t.Some?
    requires t.Some? && t.value.joinQ.Some? ==> s.table[k].Some? && s.table[k].value.joinQ == t.value.joinQ
    ensures Wf(s.(table := s.table[k := t]))
  {
    var tb := s.table[k := t];
    forall a | 0 <= a < MaxThreads && HasJoin(tb, a)
      ensures HasJoin(s.table, a) && JoinOf(tb, a) == JoinOf(s.table, a)
    {
    }
    forall a, b | 0 <= a < b < MaxThreads && HasJoin(tb, a) && HasJoin(tb, b)
      ensures JoinOf(tb, a) != JoinOf(tb, b)
    {
      assert HasJoin(s.table, a) && HasJoin(s.table, b);
    }
  }

  // ---------------------------------------------------------------------
  // thread_create
  // ---------------------------------------------------------------------

  /** The lowest slot from `i` on that is empty or DEAD, or `MaxThreads` if none is. */
  function FreeSlot(table: seq<Option<Tcb>>, i: int): (k: int)
    requires |table| == MaxThreads && 0 <= i <= MaxThreads
    ensures i <= k <= MaxThreads
    ensures k < MaxThreads ==> !Live(table, k)
    ensures forall j :: i <= j < k ==> Live(table, j)
    decreases MaxThreads - i
  {
    if i == MaxThreads then MaxThreads
    else if !Live(table, i) then i
    else FreeSlot(table, i + 1)
  }

  /**
   thread_create after its reaping pass: the lowest slot that is empty or DEAD
   gets a READY thread, which joins the back of the ready queue.
   */
  function Place(s: Sched, outOfMemory: bool): (o: Out)
    requires Wf(s)
    ensures o.Ok? && Wf(o.s) && o.s.running == s.running
    ensures o.ret >= 0 || o.ret == NOMORE || o.ret == NOMEMORY
    ensures o.ret < 0 ==> o.s == s
    ensures o.ret == NOMORE <==> forall j :: 0 <= j < MaxThreads ==> Live(s.table, j)
    ensures o.ret == NOMEMORY ==> outOfMemory
    ensures o.ret >= 0 ==>
              && InRange(o.ret) && !Live(s.table, o.ret)
              && (forall j :: 0 <= j < o.ret ==> Live(s.table, j))
              && o.s.table == s.table[o.ret := Some(Tcb(Ready, ReadyQueue, None, false))]
              && o.s.ready == TidQueue.Add(s.ready, o.ret)
    ensures o.s.waits == s.waits && o.s.exitStatus == s.exitStatus && o.s.nextHandle == s.nextHandle
  {
    var k := FreeSlot(s.table, 0);
    if k == MaxThreads then Ok(NOMORE, s)
    else if outOfMemory then Ok(NOMEMORY, s)
    else
      WfSetSlot(s, k, Some(Tcb(Ready, ReadyQueue, None, false)));
      QueueOkAdd(s.ready, k);
      Ok(k, s.(table := s.table[k := Some(Tcb(Ready, ReadyQueue, None, false))],
               ready := TidQueue.Add(s.ready, k)))
  }

  /**
   thread_create: reaps, then takes the lowest slot that is empty or DEAD and
   puts a READY thread there, at the back of the ready queue. `outOfMemory`
   stands for a failing `malloc` of the control block or the stack.
   */
  function Create(s: Sched, outOfMemory: bool): (o: Out)
    requires Wf(s)
    ensures o.Fault? <==> exists j :: 0 <= j < MaxThreads && BadReap(s, j)
    ensures !o.Halt?
    ensures o.Ok? ==> Wf(o.s) && o.s.running == s.running
    ensures o.Ok? ==> o.ret >= 0 || o.ret == NOMORE || o.ret == NOMEMORY
    ensures o.Ok? ==> (o.ret == NOMORE <==> forall j :: 0 <= j < MaxThreads ==> Live(s.table, j))
    ensures o.Ok? && o.ret == NOMEMORY ==> outOfMemory
    ensures o.Ok? && o.ret >= 0 ==>
              && InRange(o.ret) && !Live(s.table, o.ret)
              && (forall j :: 0 <= j < o.ret ==> Live(s.table, j))
              && o.s.table[o.ret] == Some(Tcb(Ready, ReadyQueue, None, false))
              && o.s.ready == TidQueue.Add(s.ready, o.ret)
              && (forall j :: 0 <= j < MaxThreads && j != o.ret ==>
                    o.s.table[j] == if Reapable(s, j) then None else s.table[j])
    ensures o.Ok? && o.ret < 0 ==>
              && o.s.ready == s.ready
              && forall j :: 0 <= j < MaxThreads ==> o.s.table[j] == if Reapable(s, j) then None else s.table[j]
    ensures o.Ok? ==>
              && o.s.exitStatus == s.exitStatus && o.s.nextHandle == s.nextHandle
              && (forall h :: h in o.s.waits ==> h in s.waits && o.s.waits[h] == s.waits[h])
              && (forall h :: h in s.waits ==> (h in o.s.waits <==> !ReapedJoin(s, 0, h)))
  {
    match Reap(s)
    case None => Fault
    case Some(s1) =>
      PlaceAfterReap(s, s1, outOfMemory);
      Place(s1, outOfMemory)
  }

  /** Placing a thread after the reaping pass, described in terms of the state before it. */
  lemma PlaceAfterReap(s: Sched, s1: Sched, outOfMemory: bool)
    requires Wf(s) && Wf(s1) && ReapedFrom(s, s1, 0)
    ensures var o := Place(s1, outOfMemory);
            && (o.ret == NOMORE <==> forall j :: 0 <= j < MaxThreads ==> Live(s.table, j))
            && (o.ret >= 0 ==>
                  && !Live(s.table, o.ret)
                  && (forall j :: 0 <= j < o.ret ==> Live(s.table, j))
                  && o.s.ready == TidQueue.Add(s.ready, o.ret)
                  && (forall j :: 0 <= j < MaxThreads && j != o.ret ==>
                        o.s.table[j] == if Reapable(s, j) then None else s.table[j]))
            && (o.ret < 0 ==>
                  && o.s.ready == s.ready
                  && forall j :: 0 <= j < MaxThreads ==> o.s.table[j] == if Reapable(s, j) then None else s.table[j])
  {
    ReapKeepsLive(s, s1);
  }

  // ---------------------------------------------------------------------
  // thread_yield
  // ---------------------------------------------------------------------

  /**
   The THREAD_ANY loop of thread_yield: pops the ready queue until it meets a
   thread whose slot is neither empty nor DEAD, dropping the entries popped on
   the way. KILLED threads are taken like any other. With no such entry the
   result is NONE and the queue is left empty.
   */
  function PopLive(table: seq<Option<Tcb>>, q: seq<int>): (r: (int, seq<int>))
    requires |table| == MaxThreads && QueueOk(q)
    ensures |r.1| <= |q| && r.1 == q[|q| - |r.1|..]
    ensures r.0 == NONE <==> forall i :: 0 <= i < |q| ==> !Live(table, q[i])
    ensures r.0 == NONE ==> r.1 == []
    ensures r.0 != NONE ==>
              && |r.1| < |q|
              && q[|q| - |r.1| - 1] == r.0
              && Live(table, r.0)
              && forall i :: 0 <= i < |q| - |r.1| - 1 ==> !Live(table, q[i])
    decreases |q|
  {
    if |q| == 0 then (NONE, q)
    else if !Live(table, q[0]) then
      var r := PopLive(table, q[1..]);
      assert q[1..][|q[1..]| - |r.1|..] == q[|q| - |r.1|..];
      r
    else (q[0], q[1..])
  }

  /**
   The switch at the end of thread_yield, from the caller's point of view:
   `t` is the thread resumed and `o` what the transition produced.
   A RUNNING caller goes READY to the back of the ready queue and a reaping
   pass follows; a caller already SLEEPING or DEAD is left as it is. The target
   then leaves the ready queue, becomes RUNNING and becomes the running thread.
   */
  ghost predicate Switched(s: Sched, t: int, o: Out)
    requires Wf(s) && InRange(t) && o.Ok?
  {
    var me := s.table[s.running].value;
    var wasRunning := me.status == Running;
    && |o.s.table| == MaxThreads
    && o.ret == t
    && o.s.running == t
    && s.table[t].Some?
    && o.s.table[t] == Some(s.table[t].value.(status := Running))
    && o.s.table[s.running] == (if wasRunning then Some(me.(status := Ready)) else Some(me))
    && o.s.ready == (if wasRunning then TidQueue.Remove(TidQueue.Add(s.ready, s.running), t).1
                     else TidQueue.Remove(s.ready, t).1)
    && (forall j :: 0 <= j < MaxThreads && j != t && j != s.running ==>
          o.s.table[j] == if wasRunning && Reapable(s, j) then None else s.table[j])
    && o.s.exitStatus == s.exitStatus
    && o.s.nextHandle == s.nextHandle
    && (forall h :: h in o.s.waits ==> h in s.waits && o.s.waits[h] == s.waits[h])
    && (!wasRunning ==> o.s.waits == s.waits)
  }

  /**
   The first half of the switch: a RUNNING caller goes READY to the back of
   the ready queue and the dead threads are reaped; any other caller is left
   as it is.
   */
  function Requeue(s: Sched): (o: Option<Sched>)
    requires Wf(s)
    ensures var me := s.table[s.running].value;
            && (me.status != Running ==> o == Some(s))
            && (o.None? ==> me.status == Running)
            && (o.Some? ==>
                  var r := o.value;
                  && Wf(r) && r.running == s.running
                  && r.table[s.running] == (if me.status == Running then Some(me.(status := Ready)) else Some(me))
                  && r.ready == (if me.status == Running then TidQueue.Add(s.ready, s.running) else s.ready)
                  && (forall j :: 0 <= j < MaxThreads && j != s.running ==>
                        r.table[j] == if me.status == Running && Reapable(s, j) then None else s.table[j])
                  && r.exitStatus == s.exitStatus && r.nextHandle == s.nextHandle
                  && (forall h :: h in r.waits ==> h in s.waits && r.waits[h] == s.waits[h]))
  {
    var me := s.table[s.running].value;
    if me.status == Running then
      var s0 := s.(table := s.table[s.running := Some(me.(status := Ready))],
                   ready := TidQueue.Add(s.ready, s.running));
      WfSetSlot(s, s.running, Some(me.(status := Ready)));
      QueueOkAdd(s.ready, s.running);
      assert forall j :: 0 <= j < MaxThreads && j != s.running ==> (Reapable(s0, j) <==> Reapable(s, j));
      Reap(s0)
    else Some(s)
  }

  /** Lines 310-330 of thread_yield: switches from the caller to thread `t`. */
  function SwitchTo(s: Sched, t: int): (o: Out)
    requires Wf(s) && InRange(t) && t != s.running && (t == 0 || Live(s.table, t))
    ensures !o.Halt?
    ensures o.Ok? ==> Wf(o.s) && Switched(s, t, o)
    ensures o.Fault? ==> (t == 0 && !Live(s.table, 0)) || s.table[s.running].value.status == Running
  {
    match Requeue(s)
    case None => Fault
    case Some(s2) =>
      if s2.table[t].None? then Fault
      else
        var s3 := s2.(table := s2.table[t := Some(s2.table[t].value.(status := Running))]);
        WfSetSlot(s2, t, Some(s2.table[t].value.(status := Running)));
        QueueOkRemove(s2.ready, t);
        Ok(t, s3.(ready := TidQueue.Remove(s2.ready, t).1, running := t))
  }

  /**
   thread_yield(THREAD_ANY): pops the ready queue up to its first live entry.
   None left gives NONE with the queue emptied; the caller itself is taken
   without a switch; any other thread is switched to.
   */
  function YieldAny(s: Sched): (o: Out)
    requires Wf(s)
    ensures !o.Halt?
    ensures o.Ok? ==> Wf(o.s)
    ensures (forall i :: 0 <= i < |s.ready| ==> !Live(s.table, s.ready[i])) ==> o == Ok(NONE, s.(ready := []))
    ensures o.Ok? && o.ret == NONE ==> o == Ok(NONE, s.(ready := []))
    ensures o.Fault? ==> s.table[s.running].value.status == Running
  {
    var (t, rest) := PopLive(s.table, s.ready);
    if t == NONE then Ok(NONE, s.(ready := rest))
    else if t == s.running then
      QueueOkRemove(rest, s.running);
      Ok(s.running, s.(ready := TidQueue.Remove(rest, s.running).1))
    else SwitchTo(s.(ready := rest), t)
  }

  /**
   A yield to any thread that resumed `o.ret`, found at position `k` of the
   ready queue: every entry before it is dropped as not live; the entries
   after it stay queued, less the caller's own, which is taken without a
   switch, or switched to otherwise.
   */
  ghost predicate YieldedFrom(s: Sched, k: int, o: Out)
    requires Wf(s) && o.Ok?
  {
    && 0 <= k < |s.ready| && s.ready[k] == o.ret && Live(s.table, o.ret)
    && (forall i :: 0 <= i < k ==> !Live(s.table, s.ready[i]))
    && (o.ret == s.running ==> o.s == s.(ready := TidQueue.Remove(s.ready[k + 1..], s.running).1))
    && (o.ret != s.running ==> Switched(s.(ready := s.ready[k + 1..]), o.ret, o))
  }

  /** Switching to the first live entry of the ready queue is a yield from that position. */
  lemma SwitchYields(s: Sched, k: int)
    requires Wf(s) && 0 <= k < |s.ready| && Live(s.table, s.ready[k]) && s.ready[k] != s.running
    requires forall i :: 0 <= i < k ==> !Live(s.table, s.ready[i])
    ensures var o := SwitchTo(s.(ready := s.ready[k + 1..]), s.ready[k]);
            o.Ok? ==> YieldedFrom(s, k, o)
  {
  }

  /** A yield to any thread that resumes one resumes the first live entry of the ready queue. */
  lemma YieldAnyPicks(s: Sched)
    requires Wf(s)
    ensures var o := YieldAny(s);
            o.Ok? && o.ret != NONE ==> exists k :: YieldedFrom(s, k, o)
  {
    var (t, rest) := PopLive(s.table, s.ready);
    if t != NONE {
      var k := |s.ready| - |rest| - 1;
      assert s.ready[k + 1..] == rest;
      if t == s.running {
        assert YieldedFrom(s, k, YieldAny(s));
      } else {
        SwitchYields(s, k);
      }
    }
  }

  /**
   thread_yield: `want` is a thread id, ANY or SELF. The returned value is
   the caller's result: INVALID, NONE, the caller's own id when it does not
   switch, or the id switched to.
   */
  function Yield(s: Sched, want: int): (o: Out)
    requires Wf(s)
    ensures !o.Halt?
    ensures o.Ok? ==> Wf(o.s)
    ensures Invalid(s, want) ==> o == Ok(INVALID, s)
    ensures want == ANY ==> o == YieldAny(s)
    ensures !Invalid(s, want) && (want == SELF || want == s.running) ==>
              o == Ok(s.running, s.(ready := TidQueue.Remove(s.ready, s.running).1))
    ensures !Invalid(s, want) && want >= 0 && want != s.running && o.Ok? ==>
              Switched(s, want, o)
    ensures o.Fault? ==> (want == 0 && !Live(s.table, 0)) || s.table[s.running].value.status == Running
  {
    if Invalid(s, want) then Ok(INVALID, s)
    else if want == ANY then YieldAny(s)
    else if want == SELF || want == s.running then
      QueueOkRemove(s.ready, s.running);
      Ok(s.running, s.(ready := TidQueue.Remove(s.ready, s.running).1))
    else SwitchTo(s, want)
  }

  /** Round robin: yielding to any thread resumes the front of the ready queue when it is live. */
  lemma YieldAnyTakesFront(s: Sched)
    requires Wf(s)
    ensures |s.ready| > 0 && Live(s.table, s.ready[0]) && YieldAny(s).Ok? ==>
              YieldAny(s).ret == s.ready[0]
  {
    if |s.ready| > 0 && Live(s.table, s.ready[0]) && YieldAny(s).Ok? {
      var o := YieldAny(s);
      assert o.ret != NONE;
      YieldAnyPicks(s);
      var k :| YieldedFrom(s, k, o);
      assert k == 0;
    }
  }

  /**
   What a successful yield to any thread resumes: a live id from the ready
   queue, now running; the exit statuses are kept, and so is the caller's
   slot when the caller was not RUNNING.
   */
  lemma YieldAnyOutcome(s: Sched)
    requires Wf(s)
    ensures var o := YieldAny(s);
            o.Ok? && o.ret != NONE ==>
              && o.ret in s.ready && Live(s.table, o.ret)
              && (o.ret != s.running ==>
                    && o.s.running == o.ret && o.s.table[o.ret].Some? && o.s.table[o.ret].value.status == Running
                    && o.s.exitStatus == s.exitStatus
                    && (s.table[s.running].value.status != Running ==> o.s.table[s.running] == s.table[s.running]))
  {
    var o := YieldAny(s);
    if o.Ok? && o.ret != NONE {
      YieldAnyPicks(s);
      var k :| YieldedFrom(s, k, o);
    }
  }

  // ---------------------------------------------------------------------
  // thread_exit
  // ---------------------------------------------------------------------

  /** The running thread's join queue refers to a queue already freed. */
  predicate JoinFreed(s: Sched)
    requires Wf(s)
  {
    HasJoin(s.table, s.running) && JoinOf(s.table, s.running) !in s.waits
  }

  /** The ids waiting for the running thread to exit, front first. */
  function Joiners(s: Sched): seq<int>
    requires Wf(s)
  {
    if HasJoin(s.table, s.running) && JoinOf(s.table, s.running) in s.waits
    then s.waits[JoinOf(s.table, s.running)] else []
  }

  /** A reaping pass never frees the running thread's join queue. */
  lemma ReapKeepsOwnJoin(s: Sched, s1: Sched)
    requires Wf(s) && Wf(s1) && ReapedFrom(s, s1, 0)
    ensures s1.table[s.running] == s.table[s.running]
    ensures HasJoin(s.table, s.running) ==>
              (JoinOf(s.table, s.running) in s1.waits <==> JoinOf(s.table, s.running) in s.waits)
    ensures JoinFreed(s1) <==> JoinFreed(s)
    ensures Joiners(s1) == Joiners(s)
  {
    if HasJoin(s.table, s.running) {
      var h := JoinOf(s.table, s.running);
      forall j | 0 <= j < MaxThreads && Reapable(s, j) && HasJoin(s.table, j)
        ensures JoinOf(s.table, j) != h
      {
        assert j != s.running;
      }
    }
  }

  /**
   The bookkeeping of thread_exit once the dead threads are reaped: marks
   the caller DEAD, takes it off the ready queue, stores its exit code and
   appends every thread of its join queue to the ready queue, leaving that
   queue empty.
   */
  function MarkDead(s: Sched, code: int): (o: Option<Sched>)
    requires Wf(s)
    ensures o.None? <==> JoinFreed(s)
    ensures o.Some? ==>
              && Wf(o.value)
              && o.value.running == s.running
              && o.value.nextHandle == s.nextHandle
              && o.value.table == s.table[s.running := Some(s.table[s.running].value.(status := Dead))]
              && o.value.exitStatus == s.exitStatus[s.running := code]
              && o.value.ready == TidQueue.AddAll(TidQueue.Remove(s.ready, s.running).1, Joiners(s))
              && (HasJoin(s.table, s.running) ==> JoinOf(s.table, s.running) in o.value.waits)
              && (forall g :: g in o.value.waits ==>
                    g in s.waits &&
                    o.value.waits[g] == if HasJoin(s.table, s.running) && g == JoinOf(s.table, s.running)
                                        then [] else s.waits[g])
  {
    var me := s.table[s.running].value;
    var s2 := s.(table := s.table[s.running := Some(me.(status := Dead))],
                 ready := TidQueue.Remove(s.ready, s.running).1,
                 exitStatus := s.exitStatus[s.running := code]);
    WfSetSlot(s, s.running, Some(me.(status := Dead)));
    QueueOkRemove(s.ready, s.running);
    if me.joinQ.None? then Some(s2)
    else
      var h := me.joinQ.value;
      if h !in s.waits then None
      else
        QueueOkAddAll(s2.ready, s.waits[h]);
        Some(s2.(ready := TidQueue.AddAll(s2.ready, s.waits[h]), waits := s.waits[h := []]))
  }

  /**
   thread_exit up to its final yield: reaps, marks the caller DEAD, takes it
   off the ready queue, stores its exit code and appends every thread of its
   join queue to the ready queue. The woken threads keep their SLEEPING state:
   the call that would make them READY is commented out in the source.
   */
  function ExitBookkeeping(s: Sched, code: int): (o: Option<Sched>)
    requires Wf(s)
    ensures o.None? <==> (exists j :: 0 <= j < MaxThreads && BadReap(s, j)) || JoinFreed(s)
    ensures o.Some? ==>
              && Wf(o.value)
              && o.value.running == s.running
              && o.value.nextHandle == s.nextHandle
              && o.value.table[s.running] == Some(s.table[s.running].value.(status := Dead))
              && o.value.exitStatus == s.exitStatus[s.running := code]
              && o.value.ready == TidQueue.AddAll(TidQueue.Remove(s.ready, s.running).1, Joiners(s))
              && (forall j :: 0 <= j < MaxThreads && j != s.running ==>
                    o.value.table[j] == if Reapable(s, j) then None else s.table[j])
              && (HasJoin(s.table, s.running) ==> JoinOf(s.table, s.running) in o.value.waits)
              && (forall g :: g in o.value.waits ==>
                    g in s.waits &&
                    o.value.waits[g] == if HasJoin(s.table, s.running) && g == JoinOf(s.table, s.running)
                                        then [] else s.waits[g])
  {
    match Reap(s)
    case None => None
    case Some(s1) =>
      ReapKeepsOwnJoin(s, s1);
      MarkDead(s1, code)
  }

  /**
   The end of thread_exit, once the caller is DEAD: the process exits with
   `code` when the ready queue is empty, and otherwise the caller yields to
   any thread. A yield that finds no live thread returns, and so does
   thread_exit.
   */
  function ExitYield(s: Sched, code: int): (o: Out)
    requires Wf(s) && !Live(s.table, s.running)
    ensures !o.Fault?
    ensures o.Halt? <==> s.ready == []
    ensures o.Halt? ==> o.code == code
    ensures o.Ok? ==> Wf(o.s) && (o.ret == NONE || o.ret != s.running)
    ensures o.Ok? && o.ret == NONE ==> o.s == s.(ready := [])
    ensures o.Ok? && o.ret != NONE ==>
              && o.s.running == o.ret && o.ret in s.ready
              && o.s.table[o.ret].Some? && o.s.table[o.ret].value.status == Running
              && o.s.exitStatus == s.exitStatus && o.s.table[s.running] == s.table[s.running]
              && (Live(s.table, s.ready[0]) ==> o.ret == s.ready[0])
  {
    if |s.ready| == 0 then Halt(code)
    else
      YieldAnyTakesFront(s);
      YieldAnyOutcome(s);
      YieldAny(s)
  }

  /**
   thread_exit: the bookkeeping above, then the final yield. The process exits
   with `code` exactly when no other thread is ready or waiting to join.
   */
  function Exit(s: Sched, code: int): (o: Out)
    requires Wf(s)
    ensures o.Fault? <==> (exists j :: 0 <= j < MaxThreads && BadReap(s, j)) || JoinFreed(s)
    ensures o.Halt? ==> o.code == code
    ensures !o.Fault? ==>
              (o.Halt? <==> TidQueue.Remove(s.ready, s.running).1 == [] && Joiners(s) == [])
    ensures o.Ok? ==>
              && Wf(o.s)
              && o.s.exitStatus == s.exitStatus[s.running := code]
              && o.s.table[s.running] == Some(s.table[s.running].value.(status := Dead))
              && (o.ret == NONE || o.ret != s.running)
    ensures o.Ok? && o.ret == NONE ==> o.s.running == s.running && o.s.ready == []
    ensures o.Ok? && o.ret != NONE ==>
              var next := TidQueue.AddAll(TidQueue.Remove(s.ready, s.running).1, Joiners(s));
              && o.s.running == o.ret
              && o.ret in next
              && o.s.table[o.ret].Some? && o.s.table[o.ret].value.status == Running
              && (next[0] != s.running && Live(s.table, next[0]) ==> o.ret == next[0])
  {
    match ExitBookkeeping(s, code)
    case None => Fault
    case Some(s1) =>
      TidQueue.AddAllEmpty(TidQueue.Remove(s.ready, s.running).1, Joiners(s));
      assert |s1.ready| > 0 && s1.ready[0] != s.running && Live(s.table, s1.ready[0]) ==>
               Live(s1.table, s1.ready[0]);
      ExitYield(s1, code)
  }

  // ---------------------------------------------------------------------
  // thread_awaken and thread_kill
  // ---------------------------------------------------------------------

  predicate IsSleeping(s: Sched, tid: int)
    requires |s.table| == MaxThreads
  {
    InRange(tid) && s.table[tid].Some? && s.table[tid].value.status == Sleeping
  }

  /** A SLEEPING thread whose `cur_q` points at a wait queue that has been freed. */
  predicate SleepsOnFreed(s: Sched, tid: int)
    requires |s.table| == MaxThreads
  {
    IsSleeping(s, tid) && s.table[tid].value.curQ.WaitQueue? && s.table[tid].value.curQ.handle !in s.waits
  }

  /** The ready queue after `tid` is taken off the queue `from` points to and appended. */
  function ReadyAfterAwaken(ready: seq<int>, from: QueueRef, tid: int): seq<int> {
    TidQueue.Add(if from == ReadyQueue then TidQueue.Remove(ready, tid).1 else ready, tid)
  }

  /**
   thread_awaken: a valid SLEEPING thread becomes READY; it is removed from
   the queue its `cur_q` points to (a NULL `cur_q` removes nothing) and
   appended to the ready queue. Any other valid or invalid id changes
   nothing. `None` is a fault: ANY and SELF pass the validity check and index
   the table out of bounds, an empty slot 0 is dereferenced, or `cur_q` is a
   freed wait queue.
   */
  function Awaken(s: Sched, tid: int): (o: Option<Sched>)
    requires Wf(s)
    ensures Invalid(s, tid) ==> o == Some(s)
    ensures !Invalid(s, tid) && tid < 0 ==> o.None?
    ensures tid == 0 && s.table[0].None? ==> o.None?
    ensures InRange(tid) && s.table[tid].Some? && !IsSleeping(s, tid) ==> o == Some(s)
    ensures IsSleeping(s, tid) ==> (o.None? <==> SleepsOnFreed(s, tid))
    ensures IsSleeping(s, tid) && o.Some? ==>
              var t := s.table[tid].value;
              && Wf(o.value)
              && o.value == s.(table := s.table[tid := Some(t.(status := Ready))],
                               ready := ReadyAfterAwaken(s.ready, t.curQ, tid),
                               waits := if t.curQ.WaitQueue?
                                        then s.waits[t.curQ.handle := TidQueue.Remove(s.waits[t.curQ.handle], tid).1]
                                        else s.waits)
  {
    if Invalid(s, tid) then Some(s)
    else if tid < 0 || s.table[tid].None? then None
    else
      var t := s.table[tid].value;
      if t.status != Sleeping then Some(s)
      else
        var s1 := s.(table := s.table[tid := Some(t.(status := Ready))]);
        WfSetSlot(s, tid, Some(t.(status := Ready)));
        QueueOkRemove(s.ready, tid);
        QueueOkAdd(if t.curQ == ReadyQueue then TidQueue.Remove(s.ready, tid).1 else s.ready, tid);
        match t.curQ
        case NoQueue => Some(s1.(ready := ReadyAfterAwaken(s.ready, t.curQ, tid)))
        case ReadyQueue => Some(s1.(ready := ReadyAfterAwaken(s.ready, t.curQ, tid)))
        case WaitQueue(h) =>
          if h !in s.waits then None
          else
            QueueOkRemove(s.waits[h], tid);
            Some(s1.(ready := ReadyAfterAwaken(s.ready, t.curQ, tid),
                     waits := s.waits[h := TidQueue.Remove(s.waits[h], tid).1]))
  }

  /**
   Marks a valid thread other than the caller KILLED, waking it first when it
   sleeps, and rewrites its context to exit with `KillExitCode`.
   */
  function MarkKilled(s: Sched, tid: int): (o: Out)
    requires Wf(s) && InRange(tid) && tid != s.running && !Invalid(s, tid)
    ensures !o.Halt?
    ensures o.Fault? <==> s.table[tid].None? || SleepsOnFreed(s, tid)
    ensures o.Ok? ==>
              var t := s.table[tid].value;
              && Wf(o.s)
              && o.ret == tid
              && o.s.running == s.running && o.s.nextHandle == s.nextHandle
              && o.s.exitStatus == s.exitStatus
              && o.s.table == s.table[tid := Some(t.(status := Killed, killed := true))]
              && o.s.ready == (if t.status == Sleeping then ReadyAfterAwaken(s.ready, t.curQ, tid) else s.ready)
              && o.s.waits == if t.status == Sleeping && t.curQ.WaitQueue?
                              then s.waits[t.curQ.handle := TidQueue.Remove(s.waits[t.curQ.handle], tid).1]
                              else s.waits
  {
    if s.table[tid].None? then Fault
    else
      var t := s.table[tid].value;
      match (if t.status == Sleeping then Awaken(s, tid) else Some(s))
      case None => Fault
      case Some(s1) =>
        var k := Some(t.(status := Killed, killed := true));
        WfSetSlot(s1, tid, k);
        Ok(tid, s1.(table := s1.table[tid := k]))
  }

  /** Killing `tid` faults after a successful reaping pass. */
  ghost predicate KillFaults(s: Sched, tid: int)
    requires Wf(s)
  {
    && InRange(tid) && tid != s.running && !Invalid(s, tid)
    && (!Live(s.table, tid) ||
        (IsSleeping(s, tid) && s.table[tid].value.curQ.WaitQueue? &&
         (s.table[tid].value.curQ.handle !in s.waits || ReapedJoin(s, 0, s.table[tid].value.curQ.handle))))
  }

  /** Reaping keeps every live slot and changes the validity of no id. */
  lemma ReapKeepsLive(s: Sched, s1: Sched)
    requires Wf(s) && Wf(s1) && ReapedFrom(s, s1, 0)
    ensures forall j :: 0 <= j < MaxThreads && Live(s.table, j) ==> s1.table[j] == s.table[j]
    ensures forall id :: Invalid(s1, id) <==> Invalid(s, id)
    ensures forall j :: 0 <= j < MaxThreads ==> (Live(s1.table, j) <==> Live(s.table, j))
    ensures forall j :: IsSleeping(s, j) ==> IsSleeping(s1, j)
  {
  }

  /**
   thread_kill with the sentinel ids rejected: reaps, then returns INVALID for
   ANY, SELF, an invalid id or the caller itself; otherwise the target is woken
   if it sleeps, marked KILLED, and its id is returned. It keeps running until
   it is next scheduled (see `Resume`).
   */
  function Kill(s: Sched, tid: int): (o: Out)
    requires Wf(s)
    ensures !o.Halt?
    ensures o.Fault? <==> (exists j :: 0 <= j < MaxThreads && BadReap(s, j)) || KillFaults(s, tid)
    ensures o.Ok? ==> Wf(o.s) && o.s.running == s.running && o.s.exitStatus == s.exitStatus
    ensures o.Ok? ==> (o.ret == INVALID <==> tid < 0 || Invalid(s, tid) || tid == s.running)
    ensures o.Ok? && o.ret != INVALID ==>
              var t := s.table[tid].value;
              && o.ret == tid
              && o.s.table[tid] == Some(t.(status := Killed, killed := true))
              && o.s.ready == (if t.status == Sleeping then ReadyAfterAwaken(s.ready, t.curQ, tid) else s.ready)
              && (t.status == Sleeping && t.curQ.WaitQueue? ==>
                    t.curQ.handle in s.waits && t.curQ.handle in o.s.waits &&
                    o.s.waits[t.curQ.handle] == TidQueue.Remove(s.waits[t.curQ.handle], tid).1)
              && (forall j :: 0 <= j < MaxThreads && j != tid ==>
                    o.s.table[j] == if Reapable(s, j) then None else s.table[j])
  {
    match Reap(s)
    case None => Fault
    case Some(s1) =>
      ReapKeepsLive(s, s1);
      if tid < 0 || Invalid(s1, tid) || tid == s1.running then Ok(INVALID, s1)
      else
        KillAfterReap(s, s1, tid);
        MarkKilled(s1, tid)
  }

  /** After the reaping pass the target's slot is as before, and marking it faults exactly as `KillFaults` says. */
  lemma KillAfterReap(s: Sched, s1: Sched, tid: int)
    requires Wf(s) && Wf(s1) && ReapedFrom(s, s1, 0)
    requires InRange(tid) && tid != s.running && !Invalid(s, tid)
    ensures Live(s.table, tid) ==> s1.table[tid] == s.table[tid]
    ensures s1.table[tid].None? || SleepsOnFreed(s1, tid) <==> KillFaults(s, tid)
  {
    if IsSleeping(s, tid) && s.table[tid].value.curQ.WaitQueue? {
      var h := s.table[tid].value.curQ.handle;
      assert h in s1.waits <==> h in s.waits && !ReapedJoin(s, 0, h);
    }
  }

  /**
   thread_kill as the source writes it: ANY and SELF pass the validity check
   and are not the caller's id, so the state of THREADS[-1] or THREADS[-2] is
   read, outside the table.
   */
  function KillAsWritten(s: Sched, tid: int): (o: Out)
    requires Wf(s)
    ensures tid >= 0 ==> o == Kill(s, tid)
    ensures tid < 0 && !Invalid(s, tid) ==> o.Fault?
  {
    match Reap(s)
    case None => Fault
    case Some(s1) =>
      ReapKeepsLive(s, s1);
      if Invalid(s1, tid) || tid == s1.running then Ok(INVALID, s1)
      else if tid < 0 then Fault
      else MarkKilled(s1, tid)
  }

  /** The sentinels: the source faults where a rejected id is evidently meant. */
  lemma KillSentinelFaults(s: Sched)
    requires Wf(s) && forall j :: 0 <= j < MaxThreads ==> !BadReap(s, j)
    ensures KillAsWritten(s, ANY) == Fault && KillAsWritten(s, SELF) == Fault
    ensures Kill(s, ANY).Ok? && Kill(s, ANY).ret == INVALID
    ensures Kill(s, SELF).Ok? && Kill(s, SELF).ret == INVALID
  {
    assert !KillFaults(s, ANY) && !KillFaults(s, SELF);
  }

  /**
   The first step of the thread just switched to. A thread whose context
   thread_kill rewrote runs thread_exit with `KillExitCode`; any other thread
   returns from the call that suspended it, which leaves the state as it is.
   */
  function Resume(s: Sched): (o: Out)
    requires Wf(s)
    ensures !s.table[s.running].value.killed ==> o == Ok(s.running, s)
    ensures s.table[s.running].value.killed && !o.Fault? ==>
              (o.Halt? && o.code == KillExitCode) ||
              (o.Ok? && Wf(o.s) && o.s.exitStatus[s.running] == KillExitCode &&
               o.s.table[s.running] == Some(s.table[s.running].value.(status := Dead)))
  {
    if s.table[s.running].value.killed then Exit(s, KillExitCode) else Ok(s.running, s)
  }
}
