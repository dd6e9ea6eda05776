/**
 The largest-file-first (LFF) queue of webserver/server_thread.c: a singly
 linked list of (file name, size) nodes kept in non-increasing size order,
 with a `size` counter and a `tail` link. The list is its node sequence
 from the head; the counter is kept as an integer of its own because the
 source lets it drift from the node count, and the tail link is reduced to
 what it designates.
 */
module LffList {
  import opened Files
  import opened Optional

  /** What the `tail` link designates: NULL, the last node, or a node already freed. */
  datatype TailRef = TailNull | TailLast | TailDangling

  datatype Lff = Lff(nodes: seq<Entry>, count: int, tail: TailRef)

  /** Non-increasing sizes from head to tail. */
  predicate Sorted(es: seq<Entry>) {
    forall i, j :: 0 <= i < j < |es| ==> es[i].size >= es[j].size
  }

  /** The queue's bookkeeping agrees with its nodes and the nodes are in LFF order. */
  predicate ListOk(q: Lff) {
    && q.count == |q.nodes|
    && q.tail == (if |q.nodes| == 0 then TailNull else TailLast)
    && Sorted(q.nodes)
  }

  /** q_init: the empty queue. */
  function Empty(): (q: Lff)
    ensures ListOk(q) && |q.nodes| == 0
  {
    Lff([], 0, TailNull)
  }

  /**
   Where the insertion walk stops: the first node strictly smaller than
   `size`, or the end. Every node before it is at least as large.
   */
  function InsertPos(es: seq<Entry>, size: nat): (k: nat)
    ensures k <= |es|
    ensures forall i :: 0 <= i < k ==> es[i].size >= size
    ensures k < |es| ==> es[k].size < size
    decreases |es|
  {
    if |es| == 0 || es[0].size < size then 0 else 1 + InsertPos(es[1..], size)
  }

  /** `e` put at position `k` of `es`. */
  function Splice(es: seq<Entry>, k: nat, e: Entry): seq<Entry>
    requires k <= |es|
  {
    es[..k] + [e] + es[k..]
  }

  /**
   q_insert_sorted as written. An empty list gets the node as head and tail
   but the counter is not incremented. Otherwise the node goes before the
   first smaller node, or is appended through `tail`, which fails when `tail`
   is NULL or designates a freed node.
   */
  function InsertAsWritten(q: Lff, e: Entry): (o: Option<Lff>)
    ensures |q.nodes| == 0 ==> o == Some(Lff([e], q.count, TailLast))
    ensures |q.nodes| > 0 ==>
              (o.None? <==> InsertPos(q.nodes, e.size) == |q.nodes| && q.tail != TailLast)
    ensures |q.nodes| > 0 && o.Some? ==>
              o.value.count == q.count + 1 &&
              o.value.nodes == Splice(q.nodes, InsertPos(q.nodes, e.size), e)
  {
    if |q.nodes| == 0 then Some(Lff([e], q.count, TailLast))
    else
      var k := InsertPos(q.nodes, e.size);
      if k < |q.nodes| then Some(Lff(Splice(q.nodes, k, e), q.count + 1, q.tail))
      else if q.tail == TailLast then
        assert Splice(q.nodes, k, e) == q.nodes + [e];
        Some(Lff(q.nodes + [e], q.count + 1, TailLast))
      else None
  }

  /** q_insert_sorted with the counter incremented on every path. */
  function Insert(q: Lff, e: Entry): (o: Option<Lff>)
    ensures |q.nodes| > 0 ==> o == InsertAsWritten(q, e)
    ensures |q.nodes| == 0 ==> o == Some(Lff([e], q.count + 1, TailLast))
  {
    if |q.nodes| == 0 then Some(Lff([e], q.count + 1, TailLast))
    else InsertAsWritten(q, e)
  }

  /**
   On a well-kept queue the corrected insertion cannot fail, keeps the queue
   well kept and adds exactly `e`.
   */
  lemma InsertKeepsOrder(q: Lff, e: Entry)
    requires ListOk(q)
    ensures var o := Insert(q, e);
            && o.Some? && ListOk(o.value)
            && Names(o.value.nodes) == Names(q.nodes) + multiset{e.name}
            && Total(o.value.nodes) == Total(q.nodes) + e.size
  {
    var k := InsertPos(q.nodes, e.size);
    var ns := Splice(q.nodes, k, e);
    InsertSplices(q, e);
    SpliceAt(q.nodes, k, e);
    SpliceSorted(q.nodes, e);
    DeleteAt(ns, k);
  }

  /**
   `ns` is `es` with `e` at position `k`, after every node at least as large
   and before every smaller one.
   */
  predicate PlacedAt(ns: seq<Entry>, es: seq<Entry>, e: Entry, k: int) {
    && 0 <= k < |ns| && ns[k] == e
    && ns[..k] + ns[k + 1..] == es
    && (forall i :: 0 <= i < k ==> ns[i].size >= e.size)
    && (forall i :: k < i < |ns| ==> ns[i].size < e.size)
  }

  /**
   The corrected insertion puts `e` after every node at least as large and
   before every smaller one, leaving the other nodes in their order.
   */
  lemma InsertPlacesEntry(q: Lff, e: Entry)
    requires ListOk(q)
    ensures Insert(q, e).Some? && exists k :: PlacedAt(Insert(q, e).value.nodes, q.nodes, e, k)
  {
    var k := InsertPos(q.nodes, e.size);
    var ns := Splice(q.nodes, k, e);
    InsertSplices(q, e);
    SplicePlaces(q.nodes, e);
    assert PlacedAt(ns, q.nodes, e, k);
  }

  /** The splice at the insertion position places `e` there. */
  lemma SplicePlaces(es: seq<Entry>, e: Entry)
    requires Sorted(es)
    ensures PlacedAt(Splice(es, InsertPos(es, e.size), e), es, e, InsertPos(es, e.size))
  {
    var k := InsertPos(es, e.size);
    var ns := Splice(es, k, e);
    SpliceAt(es, k, e);
    SpliceSorted(es, e);
    forall i | 0 <= i < k
      ensures ns[i].size >= e.size
    {
      assert ns[i] == es[i];
    }
  }

  /** On a well-kept queue the corrected insertion is the splice at the insertion position. */
  lemma InsertSplices(q: Lff, e: Entry)
    requires ListOk(q)
    ensures Insert(q, e) == Some(Lff(Splice(q.nodes, InsertPos(q.nodes, e.size), e), q.count + 1, TailLast))
  {
    if |q.nodes| == 0 {
      assert Splice(q.nodes, 0, e) == [e];
    }
  }

  /** The positions of a splice: before `k` the old entries, then `e`, then the old entries shifted by one. */
  lemma SpliceAt(es: seq<Entry>, k: nat, e: Entry)
    requires k <= |es|
    ensures var ns := Splice(es, k, e);
            && |ns| == |es| + 1 && ns[k] == e
            && (forall i :: 0 <= i < k ==> ns[i] == es[i])
            && (forall i :: k < i < |ns| ==> ns[i] == es[i - 1])
            && ns[..k] + ns[k + 1..] == es
  {
    var ns := Splice(es, k, e);
    assert ns[..k] == es[..k] && ns[k + 1..] == es[k..];
  }

  /** Splicing at the insertion position keeps LFF order and splits the sizes around `e`. */
  lemma SpliceSorted(es: seq<Entry>, e: Entry)
    requires Sorted(es)
    ensures var k := InsertPos(es, e.size);
            var ns := Splice(es, k, e);
            && Sorted(ns)
            && (forall i :: k < i < |ns| ==> ns[i].size < e.size)
  {
    var k := InsertPos(es, e.size);
    var ns := Splice(es, k, e);
    forall i | k < i < |ns|
      ensures ns[i].size < e.size
    {
      SplicePair(es, e, k, i);
    }
    forall i, j | 0 <= i < j < |ns|
      ensures ns[i].size >= ns[j].size
    {
      SplicePair(es, e, i, j);
    }
  }

  /** One pair of positions of the splice, in order. */
  lemma SplicePair(es: seq<Entry>, e: Entry, i: nat, j: nat)
    requires Sorted(es)
    requires i < j <= |es|
    ensures var ns := Splice(es, InsertPos(es, e.size), e);
            && ns[i].size >= ns[j].size
            && (i == InsertPos(es, e.size) ==> ns[j].size < e.size)
  {
    var k := InsertPos(es, e.size);
    SpliceAt(es, k, e);
    if j < k {
    } else if j == k {
    } else if i < k {
      assert es[i].size >= es[j - 1].size;
    } else if i == k {
      assert es[k].size >= es[j - 1].size;
    } else {
      assert es[i - 1].size >= es[j - 1].size;
    }
  }

  /**
   q_remove: unlinks the first node named `n`. Removing the head empties the
   tail only when nothing is left; removing the last node makes its
   predecessor the tail. The counter is decremented; without such a node the
   queue is unchanged.
   */
  function Remove(q: Lff, n: Name): (r: Lff)
    ensures n !in Names(q.nodes) ==> r == q
    ensures var k := FindName(q.nodes, n);
            k < |q.nodes| ==> r.nodes == q.nodes[..k] + q.nodes[k + 1..] && r.count == q.count - 1
  {
    FoundIffPresent(q.nodes, n);
    var k := FindName(q.nodes, n);
    if k == |q.nodes| then q
    else
      var rest := q.nodes[..k] + q.nodes[k + 1..];
      var tail :=
        if k == 0 then (if |rest| == 0 then TailNull else q.tail)
        else if k == |q.nodes| - 1 then TailLast
        else q.tail;
      Lff(rest, q.count - 1, tail)
  }

  /** Deleting one position keeps LFF order. */
  lemma SortedDelete(es: seq<Entry>, k: nat)
    requires Sorted(es) && k < |es|
    ensures Sorted(es[..k] + es[k + 1..])
  {
    var rest := es[..k] + es[k + 1..];
    forall i, j | 0 <= i < j < |rest|
      ensures rest[i].size >= rest[j].size
    {
      assert rest[i] == es[if i < k then i else i + 1];
      assert rest[j] == es[if j < k then j else j + 1];
    }
  }

  /** Taking back what was added. */
  lemma TakeBack(whole: multiset<Name>, part: multiset<Name>, n: Name)
    requires whole == part + multiset{n}
    ensures part == whole - multiset{n}
  {
  }

  /**
   Removing a name that is present drops exactly one copy of it, and a
   well-kept queue stays well kept: the tail repair is right.
   */
  lemma RemoveOk(q: Lff, n: Name)
    requires n in Names(q.nodes)
    ensures Names(Remove(q, n).nodes) == Names(q.nodes) - multiset{n}
    ensures Remove(q, n).count == q.count - 1
    ensures ListOk(q) ==> ListOk(Remove(q, n))
  {
    FoundIffPresent(q.nodes, n);
    var k := FindName(q.nodes, n);
    var r := Remove(q, n);
    DeleteAt(q.nodes, k);
    TakeBack(Names(q.nodes), Names(r.nodes), n);
    if ListOk(q) {
      SortedDelete(q.nodes, k);
      assert |r.nodes| == |q.nodes| - 1;
    }
  }

  /** Removing the name just inserted undoes the insertion, when the name was new. */
  lemma InsertThenRemove(q: Lff, e: Entry)
    requires ListOk(q) && e.name !in Names(q.nodes)
    ensures Remove(Insert(q, e).value, e.name) == q
  {
    var k := InsertPos(q.nodes, e.size);
    var ns := Splice(q.nodes, k, e);
    InsertSplices(q, e);
    FindsInserted(q.nodes, e);
    SpliceAt(q.nodes, k, e);
    var r := Remove(Lff(ns, q.count + 1, TailLast), e.name);
    assert r.nodes == q.nodes && r.count == q.count;
  }

  /** A new name is found where it was spliced in. */
  lemma FindsInserted(es: seq<Entry>, e: Entry)
    requires e.name !in Names(es)
    ensures FindName(Splice(es, InsertPos(es, e.size), e), e.name) == InsertPos(es, e.size)
  {
    var k := InsertPos(es, e.size);
    var ns := Splice(es, k, e);
    SpliceAt(es, k, e);
    InNames(es, e.name);
    forall i | 0 <= i < k
      ensures ns[i].name != e.name
    {
      assert ns[i] == es[i];
    }
    FindNameFirst(ns, e.name, k);
  }

  /** The walk stops at the first position carrying the name. */
  lemma FindNameFirst(es: seq<Entry>, n: Name, k: nat)
    requires k < |es| && es[k].name == n
    requires forall i :: 0 <= i < k ==> es[i].name != n
    ensures FindName(es, n) == k
  {
  }

  /**
   The first steps of cache_evict's loop: unlink the head and decrement the
   counter; a counter that reaches 0 empties `tail`. If the head was the only
   node and `tail` designated it, `tail` is left designating freed memory.
   An empty list is a NULL dereference.
   */
  function Pop(q: Lff): (o: Option<(Entry, Lff)>)
    ensures o.None? <==> |q.nodes| == 0
    ensures o.Some? ==> o.value.0 == q.nodes[0] && o.value.1.nodes == q.nodes[1..] &&
                        o.value.1.count == q.count - 1
    ensures o.Some? && o.value.1.count == 0 ==> o.value.1.tail == TailNull
  {
    if |q.nodes| == 0 then None
    else
      var count := q.count - 1;
      var tail :=
        if count == 0 then TailNull
        else if |q.nodes| == 1 && q.tail == TailLast then TailDangling
        else q.tail;
      Some((q.nodes[0], Lff(q.nodes[1..], count, tail)))
  }

  /** On a well-kept queue a pop yields a largest file and leaves the queue well kept. */
  lemma PopLargest(q: Lff)
    requires ListOk(q) && |q.nodes| > 0
    ensures var o := Pop(q);
            && o.Some? && ListOk(o.value.1)
            && (forall i :: 0 <= i < |q.nodes| ==> o.value.0.size >= q.nodes[i].size)
            && Names(q.nodes) == multiset{o.value.0.name} + Names(o.value.1.nodes)
            && Total(q.nodes) == o.value.0.size + Total(o.value.1.nodes)
  {
    var rest := q.nodes[1..];
    assert forall i, j :: 0 <= i < j < |rest| ==> rest[i] == q.nodes[i + 1] && rest[j] == q.nodes[j + 1];
  }

  /**
   The counter drift of the as-written insertion loses the tail: insert
   files of 7000 and 100 bytes into an empty queue, pop one (as eviction
   does), insert 6000 bytes and then 50 bytes. The queue holds two nodes but
   its counter reached 0 on the pop, which emptied `tail`, so the last
   insertion appends through NULL.
   */
  lemma CountDriftLosesTail(a: Name, c: Name, g: Name, h: Name)
    ensures var q1 := InsertAsWritten(Empty(), Entry(a, 7000));
            && q1.Some? && q1.value.count == 0
            && var q2 := InsertAsWritten(q1.value, Entry(c, 100));
               && q2.Some? && q2.value.count == 1 && |q2.value.nodes| == 2
               && var p := Pop(q2.value);
                  && p.Some? && p.value.1.tail == TailNull && |p.value.1.nodes| == 1
                  && var q3 := InsertAsWritten(p.value.1, Entry(g, 6000));
                     && q3.Some? && |q3.value.nodes| == 2 && q3.value.tail == TailNull
                     && InsertAsWritten(q3.value, Entry(h, 50)).None?
  {
    var q1 := InsertAsWritten(Empty(), Entry(a, 7000)).value;
    assert InsertPos(q1.nodes, 100) == 1;
    var q2 := InsertAsWritten(q1, Entry(c, 100)).value;
    var p := Pop(q2).value.1;
    assert p.nodes == [Entry(c, 100)];
    assert InsertPos(p.nodes, 6000) == 0;
    var q3 := InsertAsWritten(p, Entry(g, 6000)).value;
    assert q3.nodes == [Entry(g, 6000), Entry(c, 100)];
    assert InsertPos(q3.nodes, 50) == 2;
  }
}
