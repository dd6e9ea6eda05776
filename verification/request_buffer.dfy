/**
 The bounded request buffer of webserver/server_thread.c: `conn_buf`, an
 array of `max_requests + 1` connection descriptors with a producer index
 `request_head` and a consumer index `request_tail`. A free slot holds -1.
 One slot always stays free, so that "full" and "empty" differ. The
 pthread mutex and condition variables around it are not modelled: a
 producer facing a full buffer, or a consumer facing an empty one, is
 reported as having to wait.
 */
module RequestBuffer {
  import opened Optional

  /** The descriptor array, `request_head` and `request_tail`. */
  datatype ReqBuf = ReqBuf(buf: seq<int>, head: int, tail: int)

  /** The value that marks a free slot. */
  const Free: int := -1

  function Cap(b: ReqBuf): int {
    |b.buf|
  }

  /** Indices in range and at least one slot. */
  predicate Shaped(b: ReqBuf) {
    |b.buf| >= 1 && 0 <= b.head < |b.buf| && 0 <= b.tail < |b.buf|
  }

  /** `i + d` around a ring of `c` slots, for `d` at most one lap. */
  function Advance(i: int, d: int, c: int): int {
    if i + d < c then i + d else i + d - c
  }

  /** The occupancy: the distance from `tail` forward to `head`. */
  function Occupancy(b: ReqBuf): (n: nat)
    requires Shaped(b)
    ensures n < Cap(b)
  {
    if b.head >= b.tail then b.head - b.tail else b.head - b.tail + Cap(b)
  }

  /** The slot `i` places after `tail`. */
  function SlotAt(b: ReqBuf, i: nat): (k: int)
    requires Shaped(b) && i < Cap(b)
    ensures 0 <= k < Cap(b)
  {
    Advance(b.tail, i, Cap(b))
  }

  /** The queued descriptors, oldest first. */
  function Contents(b: ReqBuf): (r: seq<int>)
    requires Shaped(b)
    ensures |r| == Occupancy(b)
  {
    seq(Occupancy(b), i requires 0 <= i < Occupancy(b) => b.buf[SlotAt(b, i)])
  }

  /** C's `%` on a value already in range. */
  lemma ModInRange(x: int, c: int)
    requires 0 <= x < c
    ensures x % c == x
  {
  }

  /** C's `%` on a value less than one lap past the range. */
  lemma ModOneLap(x: int, c: int)
    requires 0 < c <= x < 2 * c
    ensures x % c == x - c
  {
    ModInRange(x - c, c);
    assert (x - c) % c == x % c;
  }

  /** The occupancy is the source's `(head - tail + cap) % cap`. */
  lemma OccupancyIsCExpression(b: ReqBuf)
    requires Shaped(b)
    ensures Occupancy(b) == (b.head - b.tail + Cap(b)) % Cap(b)
  {
    if b.head >= b.tail {
      ModOneLap(b.head - b.tail + Cap(b), Cap(b));
    } else {
      ModInRange(b.head - b.tail + Cap(b), Cap(b));
    }
  }

  /** Advancing an index by one is the source's `(i + 1) % cap`. */
  lemma AdvanceIsCExpression(i: int, c: int)
    requires 0 <= i < c
    ensures Advance(i, 1, c) == (i + 1) % c
  {
    if i + 1 == c {
      ModOneLap(i + 1, c);
    } else {
      ModInRange(i + 1, c);
    }
  }

  /**
   The slots outside the window from `tail` to `head` are free. A slot
   inside it holds a queued descriptor, whatever its value.
   */
  predicate Valid(b: ReqBuf) {
    && Shaped(b)
    && forall i :: Occupancy(b) <= i < Cap(b) ==> b.buf[SlotAt(b, i)] == Free
  }

  /** Empty, as the consumer tests it. */
  predicate IsEmpty(b: ReqBuf) {
    b.head == b.tail
  }

  /** Full, as the producer tests it. */
  predicate IsFull(b: ReqBuf)
    requires Shaped(b)
  {
    Occupancy(b) == Cap(b) - 1
  }

  /**
   server_init's part: `max_requests + 1` free slots, both indices at 0. A
   negative `max_requests` leaves no usable buffer.
   */
  function Init(maxRequests: int): (r: Option<ReqBuf>)
    ensures r.None? <==> maxRequests < 0
    ensures r.Some? ==> Valid(r.value) && Cap(r.value) == maxRequests + 1 && Contents(r.value) == []
  {
    if maxRequests < 0 then None
    else
      var b := ReqBuf(seq(maxRequests + 1, _ => Free), 0, 0);
      assert forall i :: 0 <= i < Cap(b) ==> b.buf[SlotAt(b, i)] == Free;
      Some(b)
  }

  /** The consumer's test reads the contents: empty exactly when nothing is queued. */
  lemma EmptyIffNothingQueued(b: ReqBuf)
    requires Shaped(b)
    ensures IsEmpty(b) <==> Contents(b) == []
  {
  }

  /** At most `max_requests` descriptors are ever queued, and the producer's test says exactly when. */
  lemma FullIffAtCapacity(b: ReqBuf)
    requires Shaped(b)
    ensures |Contents(b)| <= Cap(b) - 1
    ensures IsFull(b) <==> |Contents(b)| == Cap(b) - 1
  {
  }

  datatype Produced = MustWait | Broken | Put(next: ReqBuf)

  /**
   server_request with worker threads: a full buffer makes the producer
   wait; the slot at `head` must be free (the source asserts it); the
   descriptor is written there and `head` advances modulo the capacity.
   */
  function Produce(b: ReqBuf, fd: int): (r: Produced)
    requires Shaped(b)
    ensures IsFull(b) <==> r == MustWait
    ensures r.Put? ==> r.next.buf == b.buf[b.head := fd] && r.next.tail == b.tail &&
                       r.next.head == Advance(b.head, 1, Cap(b))
    ensures r == Broken <==> !IsFull(b) && b.buf[b.head] != Free
  {
    if IsFull(b) then MustWait
    else if b.buf[b.head] != Free then Broken
    else Put(ReqBuf(b.buf[b.head := fd], Advance(b.head, 1, Cap(b)), b.tail))
  }

  /**
   On a valid buffer with room the producer's assert holds, and the
   descriptor joins the back of the queue; the buffer stays valid.
   */
  lemma ProduceAppends(b: ReqBuf, fd: int)
    requires Valid(b) && !IsFull(b)
    ensures Produce(b, fd).Put?
    ensures var b' := Produce(b, fd).next;
            Valid(b') && Contents(b') == Contents(b) + [fd] && Occupancy(b') == Occupancy(b) + 1
  {
    var c := Cap(b);
    var n := Occupancy(b);
    assert SlotAt(b, n) == b.head;
    assert b.buf[b.head] == Free;
    var b' := Produce(b, fd).next;
    assert Occupancy(b') == n + 1;
    assert forall i :: 0 <= i < c ==> SlotAt(b', i) == SlotAt(b, i);
    assert forall i :: 0 <= i < n ==> SlotAt(b, i) != b.head;
    assert Contents(b') == Contents(b) + [fd];
  }

  /**
   do_server_thread's part: an empty buffer makes the consumer wait;
   otherwise it takes the descriptor at `tail`, frees that slot and advances
   `tail` modulo the capacity.
   */
  function Consume(b: ReqBuf): (r: Option<(int, ReqBuf)>)
    requires Shaped(b)
    ensures r.None? <==> IsEmpty(b)
    ensures r.Some? ==> r.value.0 == b.buf[b.tail] && r.value.1.buf == b.buf[b.tail := Free] &&
                        r.value.1.head == b.head && r.value.1.tail == Advance(b.tail, 1, Cap(b))
  {
    if IsEmpty(b) then None
    else Some((b.buf[b.tail], ReqBuf(b.buf[b.tail := Free], b.head, Advance(b.tail, 1, Cap(b)))))
  }

  /** The consumer takes the oldest queued descriptor and the buffer stays valid. */
  lemma ConsumeTakesOldest(b: ReqBuf)
    requires Valid(b) && !IsEmpty(b)
    ensures Consume(b).Some?
    ensures var (fd, b') := Consume(b).value;
            && Valid(b')
            && fd == Contents(b)[0]
            && Contents(b') == Contents(b)[1..]
  {
    var c := Cap(b);
    var n := Occupancy(b);
    EmptyIffNothingQueued(b);
    var b' := Consume(b).value.1;
    assert Occupancy(b') == n - 1;
    assert forall i :: 0 <= i < c - 1 ==> SlotAt(b', i) == SlotAt(b, i + 1) && SlotAt(b, i + 1) != b.tail;
    assert SlotAt(b', c - 1) == b.tail;
    assert Contents(b') == Contents(b)[1..];
  }

  /** One consumer step, as the drain loop needs it. */
  lemma ConsumeStep(b: ReqBuf)
    requires Valid(b) && !IsEmpty(b)
    ensures Consume(b).Some?
    ensures var (fd, b') := Consume(b).value;
            && Valid(b') && Cap(b') == Cap(b)
            && Contents(b) == [fd] + Contents(b')
            && Occupancy(b') < Occupancy(b)
  {
    ConsumeTakesOldest(b);
  }

  /**
   Workers draining the buffer: consume until it is empty. The descriptors
   come out in the order they were queued and every slot ends up free.
   */
  method DrainAll(b: ReqBuf) returns (fds: seq<int>, rest: ReqBuf)
    requires Valid(b)
    ensures fds == Contents(b)
    ensures Valid(rest) && IsEmpty(rest) && Cap(rest) == Cap(b)
  {
    fds := [];
    rest := b;
    while !IsEmpty(rest)
      invariant Valid(rest) && Cap(rest) == Cap(b)
      invariant fds + Contents(rest) == Contents(b)
      decreases Occupancy(rest)
    {
      var (fd, next) := Consume(rest).value;
      ConsumeStep(rest);
      assert fds + Contents(rest) == (fds + [fd]) + Contents(next);
      fds := fds + [fd];
      rest := next;
    }
    EmptyIffNothingQueued(rest);
  }

  /**
   A producer queuing descriptors while there is room: it stops at the
   first one that would have to wait. The queued ones join the back of the
   buffer in order, and it stops early only on a full buffer.
   */
  method FillFrom(b: ReqBuf, fds: seq<int>) returns (done: nat, next: ReqBuf)
    requires Valid(b)
    ensures done <= |fds| && Valid(next) && Cap(next) == Cap(b)
    ensures Contents(next) == Contents(b) + fds[..done]
    ensures done < |fds| ==> IsFull(next)
  {
    done := 0;
    next := b;
    while done < |fds| && !IsFull(next)
      invariant done <= |fds| && Valid(next) && Cap(next) == Cap(b)
      invariant Contents(next) == Contents(b) + fds[..done]
    {
      ProduceAppends(next, fds[done]);
      assert fds[..done + 1] == fds[..done] + [fds[done]];
      next := Produce(next, fds[done]).next;
      done := done + 1;
    }
  }

  /** Queued descriptors come out first in, first out, whatever was queued before. */
  lemma Fifo(b: ReqBuf, fd1: int, fd2: int)
    requires Valid(b) && IsEmpty(b) && Cap(b) >= 3
    ensures var p1 := Produce(b, fd1);
            && p1.Put?
            && var p2 := Produce(p1.next, fd2);
               && p2.Put?
               && Consume(p2.next).Some? && Consume(p2.next).value.0 == fd1
               && Consume(Consume(p2.next).value.1).Some?
               && Consume(Consume(p2.next).value.1).value.0 == fd2
  {
    EmptyIffNothingQueued(b);
    ProduceAppends(b, fd1);
    var b1 := Produce(b, fd1).next;
    ProduceAppends(b1, fd2);
    var b2 := Produce(b1, fd2).next;
    assert Contents(b2) == [fd1, fd2];
    EmptyIffNothingQueued(b2);
    ConsumeTakesOldest(b2);
    var b3 := Consume(b2).value.1;
    EmptyIffNothingQueued(b3);
    ConsumeTakesOldest(b3);
  }

  /**
   With `max_requests` 0 the buffer has one slot, which must stay free, so
   every producer waits: with worker threads no request is ever queued.
   */
  lemma NoRequestsAlwaysWaits(fd: int)
    ensures Init(0).Some? && Produce(Init(0).value, fd) == MustWait
  {
  }
}
