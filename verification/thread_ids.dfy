/**
 Thread identifiers and the sentinel vocabulary of the threads library.

 A `Tid` is a plain integer: non-negative values name a slot of the thread
 table, negative values are the sentinels below. The values are those of the
 library's header (thread.h is not part of this model): `ANY` and `SELF` are the
 only negative values the validity check accepts, which is why it rejects every
 id below -2.
 */
module ThreadIds {

  /** THREAD_MAX_THREADS: size of the thread table and capacity of every queue. */
  const MaxThreads: int := 1024

  const ANY: int := -1
  const SELF: int := -2
  const INVALID: int := -3
  const NONE: int := -4
  const NOMORE: int := -5
  const NOMEMORY: int := -6

  /** Exit status a killed thread terminates with. */
  const KillExitCode: int := 9

  predicate InRange(id: int) {
    0 <= id < MaxThreads
  }
}
