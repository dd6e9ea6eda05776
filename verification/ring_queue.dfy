/**
 The circular-buffer queue of the threads library (`Queue` in
 marker/os-244/threads/thread.c): an array of `MaxThreads` slots, the index
 `head` of the front element, the index `tail` of the next free slot and the
 element count `size`. Every operation is refined against the abstract
 FIFO of TidQueue through `Elements`.

 `q_remove` is modelled twice: `RemoveAsWritten` follows the source line by
 line, including its two defects (the scan that never runs on a full queue,
 and the tail that wraps to -1); `Remove` is the corrected operation.
 */
module RingQueue {
  import opened ThreadIds
  import TidQueue

  datatype Ring = Ring(head: int, tail: int, size: int, slots: seq<int>)

  predicate Valid(r: Ring) {
    && |r.slots| == MaxThreads
    && 0 <= r.head < MaxThreads
    && 0 <= r.tail < MaxThreads
    && 0 <= r.size <= MaxThreads
    && r.tail == Wrap(r.head + r.size)
  }

  /** An index at most one lap past the array, brought back into it. */
  function Wrap(x: int): int {
    if x < MaxThreads then x else x - MaxThreads
  }

  /** Within one lap, wrapping is the source's `% THREAD_MAX_THREADS`. */
  lemma WrapIsMod(x: int)
    requires 0 <= x < 2 * MaxThreads
    ensures Wrap(x) == x % MaxThreads
  {
  }

  /** Array index of the element `p` places behind the front. */
  function Slot(r: Ring, p: int): int {
    Wrap(r.head + p)
  }

  /** The abstract queue a ring stands for, front first. */
  function Elements(r: Ring): (e: seq<int>)
    requires Valid(r)
    ensures |e| == r.size
  {
    seq(r.size, p requires 0 <= p < r.size => r.slots[Slot(r, p)])
  }

  /** Distinct offsets within one lap of the ring name distinct slots. */
  lemma SlotInjective(r: Ring, p: int, q: int)
    requires 0 <= r.head < MaxThreads
    requires 0 <= p < MaxThreads && 0 <= q < MaxThreads
    ensures Slot(r, p) == Slot(r, q) <==> p == q
  {
  }

  /** C's `%`, whose remainder takes the sign of the dividend. */
  function CRem(a: int, b: int): (r: int)
    requires b > 0
    ensures a >= 0 ==> r == a % b
    ensures -b < r < b
    ensures a < 0 ==> r <= 0
  {
    if a >= 0 then a % b else -((-a) % b)
  }

  /** q_init: an empty queue whose slots all hold NONE. */
  function Init(): (r: Ring)
    ensures Valid(r) && Elements(r) == [] && r.head == 0
  {
    Ring(0, 0, 0, seq(MaxThreads, _ => NONE))
  }

  /** q_pop: takes the front element, clears its slot and advances `head`; an empty queue yields NONE. */
  function Pop(r: Ring): (res: (int, Ring))
    requires Valid(r)
    ensures Valid(res.1)
    ensures r.size == 0 ==> res == (NONE, r)
    ensures r.size > 0 ==> res.1.size == r.size - 1 && res.1.head == Wrap(r.head + 1)
  {
    if r.size == 0 then (NONE, r)
    else
      WrapIsMod(r.head + 1);
      (r.slots[r.head], Ring((r.head + 1) % MaxThreads, r.tail, r.size - 1, r.slots[r.head := NONE]))
  }

  /** Popping the ring pops the abstract queue. */
  lemma PopRefines(r: Ring)
    requires Valid(r)
    ensures Pop(r).0 == TidQueue.Pop(Elements(r)).0
    ensures Elements(Pop(r).1) == TidQueue.Pop(Elements(r)).1
  {
    if r.size > 0 {
      var r' := Pop(r).1;
      forall p | 0 <= p < r'.size
        ensures Slot(r', p) == Slot(r, p + 1) && Slot(r, p + 1) != r.head
      {
        assert r'.head + p < 2 * MaxThreads;
      }
      assert Elements(r') == Elements(r)[1..];
    }
  }

  /** q_add: stores `id` at `tail` and advances it; a full queue is left alone. */
  function Add(r: Ring, id: int): (r': Ring)
    requires Valid(r)
    ensures Valid(r')
    ensures r.size == MaxThreads ==> r' == r
    ensures r.size < MaxThreads ==> r'.size == r.size + 1 && r'.head == r.head && r'.slots == r.slots[r.tail := id]
  {
    if r.size == MaxThreads then r
    else
      WrapIsMod(r.tail + 1);
      Ring(r.head, (r.tail + 1) % MaxThreads, r.size + 1, r.slots[r.tail := id])
  }

  /** Adding to the ring adds to the abstract queue. */
  lemma AddRefines(r: Ring, id: int)
    requires Valid(r)
    ensures Elements(Add(r, id)) == TidQueue.Add(Elements(r), id)
  {
    if r.size < MaxThreads {
      var r' := Add(r, id);
      assert forall p :: 0 <= p < r.size ==> Slot(r', p) == Slot(r, p) && Slot(r, p) != r.tail;
      assert Slot(r', r.size) == r.tail;
      assert Elements(r') == Elements(r) + [id];
    }
  }

  /** What `q_remove` as written leaves behind. */
  datatype Removal =
    | Removed(ring: Ring)
    | NotFound
      /** the source stores NONE at index -1, outside the array */
    | OutOfBounds

  /**
   q_remove exactly as the source has it. The scan runs from `head` until it
   meets `tail`, which on a full queue (`head == tail`) is immediately, so a
   full queue never finds anything; after shifting the later elements forward
   it sets `tail` to `(tail - 1) % MaxThreads` with C's remainder, which is -1
   when `tail` was 0, and then writes NONE to that index.
   */
  method RemoveAsWritten(r: Ring, id: int) returns (res: Removal)
    requires Valid(r)
    ensures r.size == MaxThreads ==> res == NotFound
    ensures id !in Elements(r) ==> res == NotFound
    ensures r.size < MaxThreads && id in Elements(r) && r.tail == 0 ==> res == OutOfBounds
    ensures r.size < MaxThreads && id in Elements(r) && r.tail != 0 ==>
              res.Removed? && Valid(res.ring) && Elements(res.ring) == TidQueue.Remove(Elements(r), id).1
  {
    if r.size == 0 {
      return NotFound;
    }
    var found, k := ScanAsWritten(r, id);
    if !found {
      return NotFound;
    }
    assert r.size < MaxThreads && id in Elements(r);
    var a := ShiftAsWritten(r, k);
    var t := CRem(r.tail - 1, MaxThreads);
    if t < 0 {
      return OutOfBounds;
    }
    WrapIsMod(r.tail - 1);
    LastSlot(r);
    var r' := Ring(r.head, t, r.size - 1, a[t := NONE]);
    ClosedGap(r, a, k, r');
    ghost var e := Elements(r);
    assert TidQueue.Remove(e, id).1 == e[..k] + e[k + 1..];
    return Removed(r');
  }

  /** The search loop of q_remove as written: from `head` until it meets `tail`. */
  method ScanAsWritten(r: Ring, id: int) returns (found: bool, k: int)
    requires Valid(r) && r.size > 0
    ensures r.size == MaxThreads ==> !found
    ensures r.size < MaxThreads ==> found == (id in Elements(r))
    ensures found ==> 0 <= k < r.size && k == TidQueue.IndexOf(Elements(r), id)
  {
    var i := r.head;
    k := 0;
    while i != r.tail
      invariant 0 <= k <= r.size
      invariant r.size == MaxThreads ==> k == 0
      invariant i == Slot(r, k)
      invariant id !in Elements(r)[..k]
      decreases r.size - k
    {
      SlotsAfterScan(r, k);
      if r.slots[i] == id {
        FirstAt(Elements(r), id, k);
        return true, k;
      }
      WrapIsMod(i + 1);
      i := (i + 1) % MaxThreads;
      assert Elements(r)[..k + 1] == Elements(r)[..k] + [Elements(r)[k]];
      k := k + 1;
    }
    SlotsAfterScan(r, k);
    if r.size < MaxThreads {
      assert Elements(r)[..k] == Elements(r);
    }
    return false, k;
  }

  /** The corrected search loop: it visits exactly `size` elements. */
  method Scan(r: Ring, id: int) returns (found: bool, k: int)
    requires Valid(r)
    ensures found == (id in Elements(r))
    ensures found ==> 0 <= k < r.size && k == TidQueue.IndexOf(Elements(r), id)
  {
    var i := r.head;
    k := 0;
    while k < r.size
      invariant 0 <= k <= r.size
      invariant i == Slot(r, k)
      invariant id !in Elements(r)[..k]
    {
      if r.slots[i] == id {
        FirstAt(Elements(r), id, k);
        return true, k;
      }
      WrapIsMod(i + 1);
      i := (i + 1) % MaxThreads;
      assert Elements(r)[..k + 1] == Elements(r)[..k] + [Elements(r)[k]];
      k := k + 1;
    }
    assert Elements(r)[..k] == Elements(r);
    return false, k;
  }

  /** The first position holding `id` is the one `IndexOf` names. */
  lemma FirstAt(e: seq<int>, id: int, k: int)
    requires 0 <= k < |e| && e[k] == id && id !in e[..k]
    ensures id in e && TidQueue.IndexOf(e, id) == k
  {
    var x := TidQueue.IndexOf(e, id);
    assert e[..x] == e[..k] || x < k || x > k;
  }

  /**
   The shift loop of q_remove as written: clears the found slot, then copies
   each later slot one place forward until `j` meets `tail`. The source only
   reaches it on a queue that is not full.
   */
  method ShiftAsWritten(r: Ring, k: int) returns (a: seq<int>)
    requires Valid(r) && 0 <= k < r.size < MaxThreads
    ensures |a| == MaxThreads
    ensures forall p :: 0 <= p < k ==> a[Slot(r, p)] == r.slots[Slot(r, p)]
    ensures forall p :: k <= p < r.size - 1 ==> a[Slot(r, p)] == r.slots[Slot(r, p + 1)]
  {
    var j := Slot(r, k);
    a := r.slots[j := NONE];
    ShiftStart(r, k);
    var m := k;
    while j != r.tail
      invariant k <= m <= r.size
      invariant j == Slot(r, m)
      invariant ShiftedTo(r, a, k, m)
      decreases r.size - m
    {
      SlotsAfterScan(r, m);
      WrapIsMod(j + 1);
      ShiftAdvance(r, a, k, m);
      a := a[j := a[(j + 1) % MaxThreads]];
      j := (j + 1) % MaxThreads;
      m := m + 1;
    }
    SlotsAfterScan(r, m);
  }

  /** The corrected shift loop: it moves exactly the elements behind offset `k`. */
  method Shift(r: Ring, k: int) returns (a: seq<int>)
    requires Valid(r) && 0 <= k < r.size
    ensures |a| == MaxThreads
    ensures forall p :: 0 <= p < k ==> a[Slot(r, p)] == r.slots[Slot(r, p)]
    ensures forall p :: k <= p < r.size - 1 ==> a[Slot(r, p)] == r.slots[Slot(r, p + 1)]
  {
    var j := Slot(r, k);
    a := r.slots[j := NONE];
    ShiftStart(r, k);
    var m := k;
    while m < r.size
      invariant k <= m <= r.size
      invariant j == Slot(r, m)
      invariant ShiftedTo(r, a, k, m)
    {
      WrapIsMod(j + 1);
      ShiftAdvance(r, a, k, m);
      a := a[j := a[(j + 1) % MaxThreads]];
      j := (j + 1) % MaxThreads;
      m := m + 1;
    }
  }

  /**
   The shift has handled offsets `k` up to `m`: the slots before `k` are
   untouched, each handled slot holds its successor's element, and the slots
   after `m` are untouched.
   */
  predicate ShiftedTo(r: Ring, a: seq<int>, k: int, m: int)
    requires Valid(r)
  {
    && 0 <= k <= m <= MaxThreads
    && |a| == MaxThreads
    && (forall p :: 0 <= p < k ==> a[Slot(r, p)] == r.slots[Slot(r, p)])
    && (forall p :: k <= p < m && p + 1 < r.size ==> a[Slot(r, p)] == r.slots[Slot(r, p + 1)])
    && (forall p :: m < p < MaxThreads ==> a[Slot(r, p)] == r.slots[Slot(r, p)])
  }

  /** Clearing the slot at offset `k` starts the shift. */
  lemma ShiftStart(r: Ring, k: int)
    requires Valid(r) && 0 <= k < r.size
    ensures ShiftedTo(r, r.slots[Slot(r, k) := NONE], k, k)
  {
    forall p | 0 <= p < MaxThreads && p != k
      ensures Slot(r, p) != Slot(r, k)
    {
      SlotInjective(r, p, k);
    }
  }

  /** Copying the successor of offset `m` into its slot handles offset `m`. */
  lemma ShiftAdvance(r: Ring, a: seq<int>, k: int, m: int)
    requires Valid(r) && 0 <= k <= m < r.size
    requires ShiftedTo(r, a, k, m)
    ensures Wrap(Slot(r, m) + 1) == Slot(r, m + 1)
    ensures ShiftedTo(r, a[Slot(r, m) := a[Wrap(Slot(r, m) + 1)]], k, m + 1)
  {
    var a' := a[Slot(r, m) := a[Wrap(Slot(r, m) + 1)]];
    forall p | 0 <= p < MaxThreads && p != m
      ensures a'[Slot(r, p)] == a[Slot(r, p)]
    {
      SlotInjective(r, p, m);
    }
  }

  /**
   q_remove as evidently intended: the scan counts `size` elements instead of
   stopping at `tail`, so a full queue is searched too, and the new tail is
   taken modulo the capacity without going negative.
   */
  method Remove(r: Ring, id: int) returns (found: bool, r': Ring)
    requires Valid(r)
    ensures Valid(r')
    ensures found == TidQueue.Remove(Elements(r), id).0
    ensures Elements(r') == TidQueue.Remove(Elements(r), id).1
  {
    var k;
    found, k := Scan(r, id);
    if !found {
      return false, r;
    }
    var a := Shift(r, k);
    var t := (r.tail - 1 + MaxThreads) % MaxThreads;
    LastSlot(r);
    r' := Ring(r.head, t, r.size - 1, a[t := NONE]);
    ClosedGap(r, a, k, r');
  }

  /** Outside a full ring the shift stops exactly at the last element. */
  lemma SlotsAfterScan(r: Ring, m: int)
    requires Valid(r) && 0 <= m <= r.size
    ensures Slot(r, m) == r.tail && r.size < MaxThreads ==> m == r.size
  {
    if r.size < MaxThreads {
      SlotInjective(r, m, r.size);
    }
  }

  /** The last element sits one slot before `tail`, wrapping from 0 to the end. */
  lemma LastSlot(r: Ring)
    requires Valid(r) && r.size > 0
    ensures Slot(r, r.size - 1) == (r.tail - 1 + MaxThreads) % MaxThreads
    ensures r.tail > 0 ==> Slot(r, r.size - 1) == r.tail - 1
  {
    WrapIsMod(r.tail - 1 + MaxThreads);
  }

  /** After the shift, the ring ending one slot earlier holds the queue without offset `k`. */
  lemma ClosedGap(r: Ring, a: seq<int>, k: int, r': Ring)
    requires Valid(r) && |a| == MaxThreads && 0 <= k < r.size
    requires forall p :: 0 <= p < k ==> a[Slot(r, p)] == r.slots[Slot(r, p)]
    requires forall p :: k <= p < r.size - 1 ==> a[Slot(r, p)] == r.slots[Slot(r, p + 1)]
    requires r'.head == r.head && r'.size == r.size - 1
    requires r'.tail == Slot(r, r.size - 1) && r'.slots == a[r'.tail := NONE]
    ensures Valid(r')
    ensures Elements(r') == Elements(r)[..k] + Elements(r)[k + 1..]
  {
    var e := Elements(r);
    forall p | 0 <= p < r'.size
      ensures Elements(r')[p] == (e[..k] + e[k + 1..])[p]
    {
      SlotInjective(r, p, r.size - 1);
    }
  }

  /** Applies `Add` to each id of `xs` in turn. */
  function AddEach(r: Ring, xs: seq<int>): (r': Ring)
    requires Valid(r)
    ensures Valid(r')
    decreases |xs|
  {
    if |xs| == 0 then r else AddEach(Add(r, xs[0]), xs[1..])
  }

  /** The ring follows the abstract queue through any series of additions. */
  lemma {:induction false} AddEachRefines(r: Ring, xs: seq<int>)
    requires Valid(r)
    ensures Elements(AddEach(r, xs)) == TidQueue.AddAll(Elements(r), xs)
    decreases |xs|
  {
    if |xs| > 0 {
      AddRefines(r, xs[0]);
      AddEachRefines(Add(r, xs[0]), xs[1..]);
    }
  }

  /** `n` rounds of adding an id and popping it straight away. */
  function Churn(r: Ring, n: nat): (r': Ring)
    requires Valid(r)
    ensures Valid(r')
    decreases n
  {
    if n == 0 then r else Churn(Pop(Add(r, 0)).1, n - 1)
  }

  /** Moving one slot on and then `n - 1` more is moving `n` slots on. */
  lemma StepThenRest(h: int, h1: int, n: int, x: int)
    requires 0 <= h < MaxThreads && n >= 1
    requires h1 == Wrap(h + 1) && x == (h1 + (n - 1)) % MaxThreads
    ensures x == (h + n) % MaxThreads
  {
    if h + 1 == MaxThreads {
      assert h + n == (n - 1) + MaxThreads;
    }
  }

  /** On an empty ring an add/pop round moves `head` one slot on and leaves it empty. */
  lemma ChurnOnce(r: Ring)
    requires Valid(r) && r.size == 0
    ensures var r1 := Pop(Add(r, 0)).1;
            r1.size == 0 && r1.head == Wrap(r.head + 1)
  {
  }

  /** On an empty ring every add/pop round moves `head` and `tail` one slot on. */
  lemma {:induction false} ChurnAdvances(r: Ring, n: nat)
    requires Valid(r) && r.size == 0
    ensures Churn(r, n).size == 0
    ensures Churn(r, n).head == (r.head + n) % MaxThreads
    decreases n
  {
    if n == 0 {
      WrapIsMod(r.head);
    } else {
      var r1 := Pop(Add(r, 0)).1;
      assert Churn(r, n) == Churn(r1, n - 1);
      ChurnOnce(r);
      ChurnAdvances(r1, n - 1);
      StepThenRest(r.head, r1.head, n, Churn(r1, n - 1).head);
    }
  }

  /**
   A queue holding one id whose `tail` has wrapped round to slot 0 is reached
   from an empty queue whose `head` is slot 0, as `Init` leaves it, by
   `MaxThreads - 1` add/pop rounds and one more add; removing that id is the
   case `RemoveAsWritten` sends out of bounds.
   */
  lemma TailWrapReachable(r: Ring)
    requires Valid(r) && r.size == 0 && r.head == 0
    ensures var w := Add(Churn(r, MaxThreads - 1), 7);
            Valid(w) && w.size == 1 && w.tail == 0 && Elements(w) == [7]
  {
    var c := Churn(r, MaxThreads - 1);
    ChurnAdvances(r, MaxThreads - 1);
    assert c.head == MaxThreads - 1 && c.size == 0 && c.tail == MaxThreads - 1;
    WrapIsMod(MaxThreads);
    AddRefines(c, 7);
  }

  /**
   Adding `MaxThreads` ids to an empty queue, such as the one `Init` makes,
   fills it; the full queue holds id 5, which `RemoveAsWritten` cannot find.
   */
  lemma FullQueueReachable(r: Ring)
    requires Valid(r) && r.size == 0
    ensures var w := AddEach(r, seq(MaxThreads, i => i));
            Valid(w) && w.size == MaxThreads && 5 in Elements(w)
  {
    var xs := seq(MaxThreads, i => i);
    AddEachRefines(r, xs);
    assert Elements(r) == [];
    TidQueue.AddAllAppends([], xs);
    assert [] + xs == xs;
    assert xs[5] == 5;
  }
}
