/**
 Short runs of the threads library from thread_init, each stating what the
 operations' contracts together promise about a whole sequence of calls.
 */
module Scenarios {
  import opened ThreadIds
  import opened Optional
  import TidQueue
  import opened Scheduler
  import opened Blocking

  /** Thread 0 runs, thread 1 is READY at the front of the ready queue, no other slot is used. */
  predicate AfterFirstCreate(s: Sched) {
    && Wf(s)
    && s.running == 0
    && s.table[0] == Some(Tcb(Running, NoQueue, None, false))
    && s.table[1] == Some(Tcb(Ready, ReadyQueue, None, false))
    && (forall k :: 1 < k < MaxThreads ==> s.table[k].None?)
    && s.ready == [1]
  }

  /** Thread 1 runs; thread 0 sleeps, alone, on thread 1's join queue. */
  predicate JoinerAsleep(s: Sched) {
    && Wf(s)
    && s.running == 1
    && s.table[0].Some? && s.table[0].value.status == Sleeping
    && s.table[1].Some? && s.table[1].value.status == Running
    && HasJoin(s.table, 1) && JoinOf(s.table, 1) in s.waits && s.waits[JoinOf(s.table, 1)] == [0]
    && (forall k :: 1 < k < MaxThreads ==> s.table[k].None?)
    && s.ready == []
  }

  /** A reaping pass over a table with no DEAD thread to free changes nothing. */
  lemma NothingToReap(s: Sched)
    requires Wf(s) && forall k :: 0 <= k < MaxThreads ==> !Reapable(s, k)
    ensures Reap(s) == Some(s)
  {
    assert forall k :: 0 <= k < MaxThreads ==> !BadReap(s, k);
    var r := Reap(s).value;
    NoReapKeepsTable(s, r);
    NoReapKeepsWaits(s, r);
  }

  lemma NoReapKeepsTable(s: Sched, r: Sched)
    requires Wf(s) && Wf(r) && ReapedFrom(s, r, 0)
    requires forall k :: 0 <= k < MaxThreads ==> !Reapable(s, k)
    ensures r.table == s.table
  {
    forall j | 0 <= j < MaxThreads
      ensures r.table[j] == s.table[j]
    {
      assert !Reapable(s, j);
    }
  }

  lemma NoReapKeepsWaits(s: Sched, r: Sched)
    requires Wf(s) && Wf(r) && ReapedFrom(s, r, 0)
    requires forall k :: 0 <= k < MaxThreads ==> !Reapable(s, k)
    ensures r.waits == s.waits
  {
    forall h | h in s.waits
      ensures h in r.waits
    {
      assert !ReapedJoin(s, 0, h);
    }
  }

  /** thread_init leaves nothing to reap. */
  lemma InitReapsNothing()
    ensures Reap(Init()) == Some(Init())
  {
    var s0 := Init();
    forall k | 0 <= k < MaxThreads
      ensures !Reapable(s0, k)
    {
    }
    NothingToReap(s0);
  }

  /** The state thread_init and one thread_create leave: thread 1 READY in the lowest free slot. */
  function OneCreated(): Sched {
    Init().(table := Init().table[1 := Some(Tcb(Ready, ReadyQueue, None, false))], ready := [1])
  }

  lemma CreateFromInit()
    ensures Create(Init(), false) == Ok(1, OneCreated())
  {
    var s0 := Init();
    InitReapsNothing();
    assert Create(s0, false) == Place(s0, false);
    assert FreeSlot(s0.table, 0) == 1 by {
      assert Live(s0.table, 0) && !Live(s0.table, 1);
    }
  }

  lemma OneCreatedShape()
    ensures AfterFirstCreate(OneCreated())
  {
    var s := OneCreated();
    forall k | 1 < k < MaxThreads
      ensures s.table[k].None?
    {
      assert s.table[k] == Init().table[k];
    }
  }

  lemma FirstCreate() returns (s: Sched)
    ensures Create(Init(), false) == Ok(1, s) && AfterFirstCreate(s)
  {
    CreateFromInit();
    OneCreatedShape();
    s := OneCreated();
  }

  lemma FirstJoin(s: Sched) returns (s': Sched)
    requires AfterFirstCreate(s)
    ensures Join(s, 1) == Ok(1, s') && JoinerAsleep(s') && s'.exitStatus == s.exitStatus
  {
    JoinKeepsOthers(s, 1);
    JoinTakesFront(s, 1);
    var j := Join(s, 1);
    assert !JoinRejected(s, 1) && !HasJoin(s.table, 1);
    assert s.ready[1..] == [];
    assert j.s.ready == [];
    s' := j.s;
  }

  lemma ExitWakesJoiner(s: Sched, code: int) returns (s': Sched)
    requires JoinerAsleep(s)
    ensures Exit(s, code) == Ok(0, s') && s'.running == 0 && s'.exitStatus == s.exitStatus[1 := code]
  {
    forall k | 0 <= k < MaxThreads ensures !BadReap(s, k) {
      if k > 1 {
        assert s.table[k].None?;
      }
    }
    assert Joiners(s) == [0];
    assert TidQueue.Remove(s.ready, 1).1 == [];
    assert TidQueue.AddAll([], [0]) == [0];
    assert Live(s.table, 0);
    s' := Exit(s, code).s;
  }

  /**
   Thread 0 creates thread 1 and waits for it; thread 1 exits with `code`.
   The exit wakes thread 0, which runs next and reads `code` exactly once:
   the entry is INVALID afterwards.
   */
  lemma JoinReceivesExitCode(code: int) returns (s1: Sched, s2: Sched, s3: Sched)
    ensures Create(Init(), false) == Ok(1, s1) && Wf(s1)
    ensures Join(s1, 1) == Ok(1, s2) && Wf(s2) && s2.running == 1
    ensures Exit(s2, code) == Ok(0, s3) && Wf(s3) && s3.running == 0
    ensures JoinFinish(s3, 1, true) == (Some(code), s3.(exitStatus := s3.exitStatus[1 := INVALID]))
  {
    s1 := FirstCreate();
    s2 := FirstJoin(s1);
    s3 := ExitWakesJoiner(s2, code);
    assert s3.exitStatus[1] == code;
  }
}
