/**
 The FIFO of thread ids used for the ready queue and for every wait queue,
 as an abstract sequence: the front of the queue is index 0.

 The library stores each queue in a fixed array of `MaxThreads` slots, so a
 queue never holds more than `MaxThreads` ids; adding to a full queue is
 silently ignored and adding never checks for duplicates. The ring-buffer
 representation is refined against this module in RingQueue.
 */
module TidQueue {
  import opened ThreadIds

  predicate Bounded(q: seq<int>) {
    |q| <= MaxThreads
  }

  /** q_pop: the front id and the rest, or NONE and the queue itself when empty. */
  function Pop(q: seq<int>): (int, seq<int>) {
    if |q| == 0 then (NONE, q) else (q[0], q[1..])
  }

  /** q_add: appends at the back unless the queue is full. */
  function Add(q: seq<int>, id: int): seq<int> {
    if |q| >= MaxThreads then q else q + [id]
  }

  /** Position of the first occurrence of `id`. */
  function IndexOf(q: seq<int>, id: int): (k: nat)
    requires id in q
    ensures k < |q| && q[k] == id
    ensures id !in q[..k]
  {
    if q[0] == id then 0
    else
      var k := IndexOf(q[1..], id);
      assert q[..k + 1] == [q[0]] + q[1..][..k];
      k + 1
  }

  /**
   q_remove: reports whether `id` was present; when it was, its first
   occurrence is deleted and every other id keeps its relative order.
   */
  function Remove(q: seq<int>, id: int): (r: (bool, seq<int>))
    ensures r.0 <==> id in q
    ensures !r.0 ==> r.1 == q
    ensures r.0 ==> r.1 == q[..IndexOf(q, id)] + q[IndexOf(q, id) + 1..]
  {
    if |q| == 0 then (false, q)
    else if q[0] == id then (true, q[1..])
    else
      var rest := Remove(q[1..], id);
      if rest.0 then
        var k := IndexOf(q[1..], id);
        DropBehindFront(q, k);
        assert IndexOf(q, id) == k + 1;
        (true, [q[0]] + rest.1)
      else (false, q)
  }

  /** Deleting position `k + 1` keeps the front and deletes position `k` of the rest. */
  lemma DropBehindFront(q: seq<int>, k: nat)
    requires k + 1 < |q|
    ensures q[..k + 1] + q[k + 2..] == [q[0]] + (q[1..][..k] + q[1..][k + 1..])
  {
    var l := q[..k + 1] + q[k + 2..];
    var r := [q[0]] + (q[1..][..k] + q[1..][k + 1..]);
    assert |l| == |r|;
    forall i | 0 <= i < |l|
      ensures l[i] == r[i]
    {
      if i > k {
        assert l[i] == q[i + 1] && r[i] == q[1..][i];
      }
    }
  }

  /** Appends the ids of `xs` one after the other, as repeated `Add`s do. */
  function AddAll(q: seq<int>, xs: seq<int>): seq<int>
    decreases |xs|
  {
    if |xs| == 0 then q else AddAll(Add(q, xs[0]), xs[1..])
  }

  /** The ids obtained by popping until the queue reports NONE-for-empty. */
  function Drain(q: seq<int>): seq<int>
    decreases |q|
  {
    if |q| == 0 then [] else var (x, rest) := Pop(q); [x] + Drain(rest)
  }

  /** With room for all of them, adding a list of ids appends exactly that list. */
  lemma {:induction false} AddAllAppends(q: seq<int>, xs: seq<int>)
    requires |q| + |xs| <= MaxThreads
    ensures AddAll(q, xs) == q + xs
    decreases |xs|
  {
    if |xs| > 0 {
      AddAllAppends(q + [xs[0]], xs[1..]);
      assert q + [xs[0]] + xs[1..] == q + xs;
    }
  }

  /** Popping a queue until it is empty yields its ids front to back. */
  lemma {:induction false} DrainInOrder(q: seq<int>)
    ensures Drain(q) == q
    decreases |q|
  {
    if |q| > 0 {
      DrainInOrder(q[1..]);
    }
  }

  /** FIFO: ids come out of `Pop` in the order `Add` put them in. */
  lemma Fifo(q: seq<int>, xs: seq<int>)
    requires |q| + |xs| <= MaxThreads
    ensures Drain(AddAll(q, xs)) == q + xs
  {
    AddAllAppends(q, xs);
    DrainInOrder(q + xs);
  }

  /** Adding at the back never changes which id is popped next. */
  lemma AddKeepsFront(q: seq<int>, id: int)
    requires 0 < |q| < MaxThreads
    ensures Pop(Add(q, id)).0 == Pop(q).0
    ensures Pop(Add(q, id)).1 == Add(Pop(q).1, id)
  {
    assert (q + [id])[1..] == q[1..] + [id];
  }

  /** Adding ids never shrinks a queue, so it ends empty only when both parts were. */
  lemma {:induction false} AddAllEmpty(q: seq<int>, xs: seq<int>)
    ensures AddAll(q, xs) == [] <==> q == [] && xs == []
    decreases |xs|
  {
    if |xs| > 0 {
      AddAllEmpty(Add(q, xs[0]), xs[1..]);
      assert Add(q, xs[0]) != [];
    }
  }
}
