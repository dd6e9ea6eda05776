/**
 What the file cache promises while it agrees with its LFF queue: lookups
 find exactly the cached files, eviction frees at least what it is asked
 for, largest files first, and the corrected insertion keeps the two
 structures in agreement and makes the new file visible. The last lemmas
 exhibit the inputs on which the insertion as written fails.
 */
module CacheLaws {
  import opened Files
  import opened Optional
  import LffList
  import opened FileCache

  lemma CancelStored(f2: multiset<Name>, f: multiset<Name>, b: multiset<Name>, x: Name)
    requires f2 + b == f + (multiset{x} + b)
    ensures f2 == f + multiset{x}
  {
    Cancel(f2, f + multiset{x}, b);
  }

  /** A chain's names are names of the table. */
  lemma ChainInTable(bs: seq<seq<Entry>>, k: nat, n: Name)
    requires k < |bs| && n in Names(bs[k])
    ensures n in Names(Flatten(bs))
  {
    FlattenSplit(bs, k);
    NamesConcat(Flatten(bs[..k]) + bs[k], Flatten(bs[k + 1..]));
    NamesConcat(Flatten(bs[..k]), bs[k]);
  }

  lemma {:induction false} InFlatten(bs: seq<seq<Entry>>, n: Name) returns (k: nat, i: nat)
    requires n in Names(Flatten(bs))
    ensures k < |bs| && i < |bs[k]| && bs[k][i].name == n
    decreases |bs|
  {
    NamesConcat(bs[0], Flatten(bs[1..]));
    if n in Names(bs[0]) {
      InNames(bs[0], n);
      k := 0;
      i :| 0 <= i < |bs[0]| && bs[0][i].name == n;
    } else {
      var k', i' := InFlatten(bs[1..], n);
      k, i := k' + 1, i';
    }
  }

  /** In a coherent cache a cached name is found in the chain it hashes to. */
  lemma ChainOf(c: Cache, q: LffList.Lff, n: Name) returns (k: nat)
    requires Coherent(c, q) && n in Names(Flatten(c.buckets))
    ensures HashFunc(n, c.arraySize) == Some(k) && k < |c.buckets|
    ensures n in Names(c.buckets[k])
  {
    var i;
    k, i := InFlatten(c.buckets, n);
    InNames(c.buckets[k], n);
  }

  /**
   In a coherent cache a non-empty name is looked up without fault, and hits
   exactly when the file is cached, returning an entry of that name.
   */
  lemma LookupIffCached(c: Cache, q: LffList.Lff, n: Name)
    requires Coherent(c, q) && c.arraySize > 0 && |n| > 0
    ensures CacheLookup(c, n) != LookupFault
    ensures CacheLookup(c, n).Hit? <==> n in Names(Flatten(c.buckets))
  {
    var k :| HashFunc(n, c.arraySize) == Some(k);
    if n in Names(Flatten(c.buckets)) {
      var k' := ChainOf(c, q, n);
    } else if n in Names(c.buckets[k]) {
      ChainInTable(c.buckets, k, n);
    }
  }

  lemma FirstNamed(es: seq<Entry>)
    ensures |es| > 0 ==> es[0].name in Names(es)
  {
  }

  lemma UnlinkedPlaced(bs: seq<seq<Entry>>, size: int, k: nat, i: nat)
    requires k < |bs| && i < |bs[k]| && Placed(bs, size)
    ensures Placed(bs[k := bs[k][..i] + bs[k][i + 1..]], size)
  {
    var b := bs[k];
    var b' := b[..i] + b[i + 1..];
    assert forall j :: 0 <= j < |b'| ==> b'[j] == b[if j < i then j else j + 1];
  }

  /** On a coherent cache the popped file is cached in its chain, and the round unlinks its first entry. */
  lemma RoundShape(c: Cache, q: LffList.Lff) returns (k: nat, i: nat)
    requires Coherent(c, q) && |q.nodes| > 0
    ensures k < |c.buckets| && i < |c.buckets[k]| && c.buckets[k][i].name == q.nodes[0].name
    ensures EvictRound(c, q) ==
              Unlinked(c.buckets[k][i].size,
                       c.(buckets := c.buckets[k := c.buckets[k][..i] + c.buckets[k][i + 1..]],
                          current := c.current - c.buckets[k][i].size),
                       LffList.Pop(q).value.1)
  {
    var node := q.nodes[0];
    LffList.PopLargest(q);
    assert node.name in Names(q.nodes);
    k := ChainOf(c, q, node.name);
    var b := c.buckets[k];
    FoundIffPresent(b, node.name);
    i := FindName(b, node.name);
    RoundUnlinks(c, q, k, i);
  }

  /** A round whose popped name hashes to chain `k` and is found at position `i` there unlinks that entry. */
  lemma RoundUnlinks(c: Cache, q: LffList.Lff, k: nat, i: nat)
    requires |q.nodes| > 0 && HashFunc(q.nodes[0].name, c.arraySize) == Some(k) && k < |c.buckets|
    requires i == FindName(c.buckets[k], q.nodes[0].name) && i < |c.buckets[k]|
    ensures EvictRound(c, q) ==
              Unlinked(c.buckets[k][i].size,
                       c.(buckets := c.buckets[k := c.buckets[k][..i] + c.buckets[k][i + 1..]],
                          current := c.current - c.buckets[k][i].size),
                       LffList.Pop(q).value.1)
  {
    var q1 := LffList.Pop(q).value.1;
    assert LffList.Pop(q) == Some((q.nodes[0], q1));
  }

  /**
   One round of eviction on a coherent cache: the popped file is cached, in
   its chain, so the round unlinks it and leaves the cache coherent with the
   rest of the queue.
   */
  lemma RoundOk(c: Cache, q: LffList.Lff)
    requires Coherent(c, q) && |q.nodes| > 0
    ensures var r := EvictRound(c, q);
            && r.Unlinked?
            && r.size <= c.current
            && Coherent(r.cache, r.rest)
  {
    var k, i := RoundShape(c, q);
    LffList.PopLargest(q);
    UnlinkedNames(c.buckets, k, i);
    UnlinkedPlaced(c.buckets, c.arraySize, k, i);
    var r := EvictRound(c, q);
    Cancel(Names(Flatten(r.cache.buckets)), Names(r.rest.nodes), multiset{q.nodes[0].name});
  }

  /**
   The eviction loop on a coherent cache, asked for no more than is cached,
   never runs dry and never trips its asserts: it frees at least `n` bytes,
   the freed and the remaining bytes add up to what was there, the cache
   stays coherent, and the files that went are a prefix of the queue, the
   largest ones.
   */
  lemma {:induction false} EvictFromOk(c: Cache, q: LffList.Lff, n: int, evicted: int)
    returns (freed: int, c': Cache, q': LffList.Lff)
    requires Coherent(c, q) && 0 <= evicted && n <= evicted + c.current <= c.maxSize
    ensures EvictFrom(c, q, n, evicted) == Some((freed, c', q'))
    ensures Coherent(c', q') && freed + c'.current == evicted + c.current
    decreases |q.nodes|
  {
    if evicted >= n {
      freed, c', q' := evicted, c, q;
    } else {
      FirstNamed(Flatten(c.buckets));
      var r := RoundStep(c, q, n, evicted);
      freed, c', q' := EvictFromOk(r.cache, r.rest, n, evicted + r.size);
      SameOutcome(EvictFrom(c, q, n, evicted), EvictFrom(r.cache, r.rest, n, evicted + r.size), Some((freed, c', q')));
    }
  }

  lemma SameOutcome<T>(a: T, b: T, x: T)
    requires a == b && b == x
    ensures a == x
  {
  }

  /** `x` is what is left of `a` after dropping a prefix. */
  predicate Suffix(x: seq<Entry>, a: seq<Entry>) {
    |x| <= |a| && x == a[|a| - |x|..]
  }

  lemma SuffixOfRest(a: seq<Entry>, x: seq<Entry>)
    requires |a| > 0 && Suffix(x, a[1..])
    ensures Suffix(x, a)
  {
  }

  /** The files the loop evicts are a prefix of the queue: what is left is a suffix of it. */
  lemma {:induction false} EvictFromSuffix(c: Cache, q: LffList.Lff, n: int, evicted: int)
    ensures var o := EvictFrom(c, q, n, evicted);
            o.Some? ==> Suffix(o.value.2.nodes, q.nodes)
    decreases |q.nodes|
  {
    if evicted < n {
      var r := EvictRound(c, q);
      if r.Skipped? {
        EvictFromSkips(c, q, n, evicted);
        EvictFromSuffix(c, r.rest, n, evicted);
        var o := EvictFrom(c, r.rest, n, evicted);
        if o.Some? {
          SuffixOfRest(q.nodes, o.value.2.nodes);
        }
      } else if r.Unlinked? && r.cache.current >= 0 && evicted + r.size <= c.maxSize {
        EvictFromUnlinks(c, q, n, evicted);
        EvictFromSuffix(r.cache, r.rest, n, evicted + r.size);
        var o := EvictFrom(r.cache, r.rest, n, evicted + r.size);
        if o.Some? {
          SuffixOfRest(q.nodes, o.value.2.nodes);
        }
      }
    }
  }

  /** A round the loop takes on a coherent cache hands the rest of the loop a coherent cache, one file shorter. */
  lemma RoundStep(c: Cache, q: LffList.Lff, n: int, evicted: int) returns (r: Round)
    requires Coherent(c, q) && 0 <= evicted < n <= evicted + c.current <= c.maxSize
    requires |q.nodes| > 0
    ensures r.Unlinked? && r == EvictRound(c, q) && Coherent(r.cache, r.rest)
    ensures 0 <= evicted + r.size && n <= evicted + r.size + r.cache.current <= r.cache.maxSize
    ensures r.cache.current + r.size == c.current && r.rest.nodes == q.nodes[1..]
    ensures EvictFrom(c, q, n, evicted) == EvictFrom(r.cache, r.rest, n, evicted + r.size)
  {
    RoundOk(c, q);
    LffList.PopLargest(q);
    r := EvictRound(c, q);
    EvictFromUnlinks(c, q, n, evicted);
  }

  /**
   Storing a file that fits in a coherent cache with chains, and queueing it
   with the corrected insertion, keeps the cache coherent and makes the file
   the first hit of its name.
   */
  lemma StoreKeepsCoherent(c: Cache, q: LffList.Lff, e: Entry)
    requires Coherent(c, q) && c.arraySize > 0 && c.current + e.size <= c.maxSize
    ensures Store(c, e).Some? && LffList.Insert(q, e).Some?
    ensures var c2 := Store(c, e).value;
            && Coherent(c2, LffList.Insert(q, e).value)
            && Names(Flatten(c2.buckets)) == Names(Flatten(c.buckets)) + multiset{e.name}
            && (|e.name| > 0 ==> CacheLookup(c2, e.name) == Hit(e))
  {
    var k :| HashFunc(e.name, c.arraySize) == Some(k);
    var b := c.buckets[k];
    var b' := [e] + b;
    var bs' := c.buckets[k := b'];
    var c2 := c.(buckets := bs', current := c.current + e.size);
    assert Store(c, e) == Some(c2);
    StoredNames(c.buckets, k, e);
    LffList.InsertKeepsOrder(q, e);
    StoredPlaced(c.buckets, c.arraySize, k, e);
    if |e.name| > 0 {
      StoredFirst(c2, k, e);
    }
  }

  lemma StoredNames(bs: seq<seq<Entry>>, k: nat, e: Entry)
    requires k < |bs|
    ensures Names(Flatten(bs[k := [e] + bs[k]])) == Names(Flatten(bs)) + multiset{e.name}
    ensures Total(Flatten(bs[k := [e] + bs[k]])) == Total(Flatten(bs)) + e.size
  {
    var b' := [e] + bs[k];
    assert b'[1..] == bs[k];
    assert Names(b') == multiset{e.name} + Names(bs[k]);
    FlattenUpdate(bs, k, b');
    CancelStored(Names(Flatten(bs[k := b'])), Names(Flatten(bs)), Names(bs[k]), e.name);
  }

  lemma StoredPlaced(bs: seq<seq<Entry>>, size: int, k: nat, e: Entry)
    requires k < |bs| && Placed(bs, size) && HashFunc(e.name, size) == Some(k)
    ensures Placed(bs[k := [e] + bs[k]], size)
  {
    var b' := [e] + bs[k];
    assert forall j :: 1 <= j < |b'| ==> b'[j] == bs[k][j - 1];
  }

  lemma StoredFirst(c: Cache, k: nat, e: Entry)
    requires k < |c.buckets| && |c.buckets[k]| > 0 && c.buckets[k][0] == e && |e.name| > 0
    requires HashFunc(e.name, c.arraySize) == Some(k)
    ensures CacheLookup(c, e.name) == Hit(e)
  {
    assert FindName(c.buckets[k], e.name) == 0;
  }

  /**
   The corrected cache_insert on a coherent cache never fails and keeps the
   cache coherent. When the table has chains and the file is smaller than
   the budget, the file is cached afterwards and looking its name up hits it.
   */
  lemma InsertKeepsCoherent(c: Cache, q: LffList.Lff, e: Entry)
    requires Coherent(c, q)
    ensures var o := CacheInsert(c, q, e);
            && o.Some? && Coherent(o.value.0, o.value.1)
            && (c.arraySize > 0 && e.size < c.maxSize ==>
                  && e.name in Names(Flatten(o.value.0.buckets))
                  && (|e.name| > 0 ==> CacheLookup(o.value.0, e.name) == Hit(e)))
  {
    if c.arraySize > 0 && e.size < c.maxSize {
      var c1, q1 := c, q;
      if c.current + e.size > c.maxSize {
        var n := c.current + e.size - c.maxSize;
        var freed;
        freed, c1, q1 := EvictFromOk(c, q, n, 0);
      }
      assert CacheInsert(c, q, e) ==
             match Store(c1, e)
             case None => None
             case Some(c2) =>
               match LffList.Insert(q1, e)
               case None => None
               case Some(q2) => Some((c2, q2));
      StoreKeepsCoherent(c1, q1, e);
    }
  }

  /**
   cache_insert as written keeps the byte count within the budget: a file
   that is stored either fitted, or was preceded by an eviction of at
   least its own size.
   */
  lemma InsertAsWrittenWithinBudget(c: Cache, q: LffList.Lff, e: Entry)
    requires 0 <= c.current <= c.maxSize
    ensures var o := CacheInsertAsWritten(c, q, e);
            o.Some? ==> 0 <= o.value.0.current <= c.maxSize && o.value.0.maxSize == c.maxSize
  {
  }

  /** Insertion as written and corrected agree on a coherent cache when the file fits outright. */
  lemma InsertAgreesWhenRoom(c: Cache, q: LffList.Lff, e: Entry)
    requires Coherent(c, q) && c.arraySize > 0 && |q.nodes| > 0 && c.current + e.size <= c.maxSize
    ensures CacheInsertAsWritten(c, q, e) == CacheInsert(c, q, e)
  {
  }

  // ---------------------------------------------------------------------
  // Inputs on which cache_insert as written fails
  // ---------------------------------------------------------------------

  /**
   A budget under 12 KiB gives a table without chains, and cache_insert
   hashes with size 0 before anything checks the table: inserting a 100 byte
   file into a 10000 byte cache divides by zero. The corrected insertion
   leaves such a cache alone.
   */
  lemma SmallCacheDividesByZero(n: Name)
    ensures CacheInit(10000).arraySize == 0
    ensures CacheInsertAsWritten(CacheInit(10000), LffList.Empty(), Entry(n, 100)).None?
    ensures CacheInsert(CacheInit(10000), LffList.Empty(), Entry(n, 100)) ==
              Some((CacheInit(10000), LffList.Empty()))
  {
  }

  /** A one-chain cache holding one 10000 byte file `a`, built with the corrected insertion. */
  lemma OneFileCache(a: Name) returns (c: Cache, q: LffList.Lff)
    ensures CacheInsert(CacheInit(AverageFileSize), LffList.Empty(), Entry(a, 10000)) == Some((c, q))
    ensures Coherent(c, q) && c.current == 10000 && c.maxSize == AverageFileSize
    ensures c.arraySize == 1 && c.buckets == [[Entry(a, 10000)]]
    ensures q.nodes == [Entry(a, 10000)] && q.count == 1
  {
    var c0 := CacheInit(AverageFileSize);
    InitCoherent(AverageFileSize);
    HashOne(a);
    InsertKeepsCoherent(c0, LffList.Empty(), Entry(a, 10000));
    var o := CacheInsert(c0, LffList.Empty(), Entry(a, 10000)).value;
    c, q := o.0, o.1;
    assert Flatten(c.buckets) == c.buckets[0];
    assert Names(c.buckets[0]) == multiset{a};
  }

  /** Asking that cache for 12000 bytes pops its only file and then an empty queue. */
  lemma OneFileEvictRunsDry(a: Name, c: Cache, q: LffList.Lff)
    requires c.current == 10000 && c.maxSize == AverageFileSize
    requires c.arraySize == 1 && c.buckets == [[Entry(a, 10000)]]
    requires q.nodes == [Entry(a, 10000)] && q.count == 1
    ensures Evict(c, q, 12000).None?
  {
    HashOne(a);
    var p := LffList.Pop(q).value.1;
    assert p.nodes == [];
    assert FindName(c.buckets[0], a) == 0;
    var r := EvictRound(c, q);
    assert r.Unlinked? && r.rest == p && r.size == 10000 && r.cache.current == 0;
    EvictFromUnlinks(c, q, 12000, 0);
    assert EvictRound(r.cache, p) == Dry;
  }

  /**
   cache_insert asks cache_evict for the new file's size rather than for the
   overflow. In a 12288 byte cache holding a 10000 byte file, inserting a
   12000 byte file asks for 12000 bytes: the only file is popped, 10000
   bytes are freed and the loop pops an empty queue. Asking for the overflow
   succeeds.
   */
  lemma EvictForFileSizeRunsDry(a: Name, b: Name)
    ensures var (c, q) := CacheInsert(CacheInit(AverageFileSize), LffList.Empty(), Entry(a, 10000)).value;
            && Evict(c, q, 12000).None?
            && CacheInsertAsWritten(c, q, Entry(b, 12000)).None?
            && CacheInsert(c, q, Entry(b, 12000)).Some?
  {
    var c, q := OneFileCache(a);
    OneFileEvictRunsDry(a, c, q);
    InsertKeepsCoherent(c, q, Entry(b, 12000));
  }

  /** After inserting a 7000 byte file as written into an empty 12288 byte cache: the counter stays 0. */
  lemma DriftStart(a: Name) returns (k0: Cache, q0: LffList.Lff)
    ensures CacheInsertAsWritten(CacheInit(AverageFileSize), LffList.Empty(), Entry(a, 7000)) == Some((k0, q0))
    ensures k0.buckets == [[Entry(a, 7000)]] && k0.current == 7000
    ensures k0.arraySize == 1 && k0.maxSize == AverageFileSize
    ensures q0 == LffList.Lff([Entry(a, 7000)], 0, LffList.TailLast)
  {
    HashOne(a);
    var c0 := CacheInit(AverageFileSize);
    assert c0.buckets == [[]] && c0.arraySize == 1;
    assert [Entry(a, 7000)] + [] == [Entry(a, 7000)];
    k0 := c0.(buckets := [[Entry(a, 7000)]], current := 7000);
    assert HashFunc(a, c0.arraySize) == Some(0);
    assert c0.buckets[0 := [Entry(a, 7000)] + c0.buckets[0]] == [[Entry(a, 7000)]];
    assert Store(c0, Entry(a, 7000)) == Some(k0);
    q0 := LffList.Lff([Entry(a, 7000)], 0, LffList.TailLast);
  }

  /** Then a 100 byte file: appended behind it, and counted. */
  lemma DriftStepOne(a: Name, c: Name, k0: Cache, q0: LffList.Lff) returns (k1: Cache, q1: LffList.Lff)
    requires k0.buckets == [[Entry(a, 7000)]] && k0.current == 7000
    requires k0.arraySize == 1 && k0.maxSize == AverageFileSize
    requires q0 == LffList.Lff([Entry(a, 7000)], 0, LffList.TailLast)
    ensures CacheInsertAsWritten(k0, q0, Entry(c, 100)) == Some((k1, q1))
    ensures k1.buckets == [[Entry(c, 100), Entry(a, 7000)]] && k1.current == 7100
    ensures k1.arraySize == 1 && k1.maxSize == AverageFileSize
    ensures q1 == LffList.Lff([Entry(a, 7000), Entry(c, 100)], 1, LffList.TailLast)
  {
    HashOne(c);
    assert LffList.InsertPos(q0.nodes, 100) == 1;
    assert [Entry(c, 100)] + [Entry(a, 7000)] == [Entry(c, 100), Entry(a, 7000)];
    k1 := k0.(buckets := [[Entry(c, 100), Entry(a, 7000)]], current := 7100);
    assert HashFunc(c, k0.arraySize) == Some(0);
    assert k0.buckets[0 := [Entry(c, 100)] + k0.buckets[0]] == k1.buckets;
    assert Store(k0, Entry(c, 100)) == Some(k1);
    q1 := LffList.Lff([Entry(a, 7000), Entry(c, 100)], 1, LffList.TailLast);
    assert q0.nodes + [Entry(c, 100)] == q1.nodes;
    assert LffList.InsertAsWritten(q0, Entry(c, 100)) == Some(q1);
  }

  /** Then a 6000 byte file: eviction pops the 7000 byte file, and the counter reaches 0. */
  lemma DriftStepTwo(a: Name, c: Name, g: Name, k1: Cache, q1: LffList.Lff) returns (k2: Cache, q2: LffList.Lff)
    requires a != c
    requires k1.buckets == [[Entry(c, 100), Entry(a, 7000)]] && k1.current == 7100
    requires k1.arraySize == 1 && k1.maxSize == AverageFileSize
    requires q1 == LffList.Lff([Entry(a, 7000), Entry(c, 100)], 1, LffList.TailLast)
    ensures CacheInsertAsWritten(k1, q1, Entry(g, 6000)) == Some((k2, q2))
    ensures k2.arraySize == 1 && k2.maxSize == AverageFileSize && k2.current == 6100 && |k2.buckets| == 1
    ensures q2 == LffList.Lff([Entry(g, 6000), Entry(c, 100)], 1, LffList.TailNull)
  {
    HashOne(a);
    HashOne(g);
    var p := LffList.Pop(q1).value.1;
    assert p == LffList.Lff([Entry(c, 100)], 0, LffList.TailNull);
    assert FindName(k1.buckets[0], a) == 1;
    var kc := k1.(buckets := [[Entry(c, 100)]], current := 100);
    assert [Entry(c, 100), Entry(a, 7000)][..1] + [Entry(c, 100), Entry(a, 7000)][2..] == [Entry(c, 100)];
    assert EvictRound(k1, q1) == Unlinked(7000, kc, p);
    EvictFromUnlinks(k1, q1, 6000, 0);
    assert EvictFrom(kc, p, 6000, 7000) == Some((7000, kc, p));
    assert Evict(k1, q1, 6000) == Some((7000, kc, p));
    assert LffList.InsertPos(p.nodes, 6000) == 0;
    var o := CacheInsertAsWritten(k1, q1, Entry(g, 6000)).value;
    k2, q2 := o.0, o.1;
  }

  /**
   q_insert_sorted does not count the node it puts into an empty queue.
   Inserting files of 7000, 100, 6000 and 50 bytes, in that order and as
   written, into an empty 12288 byte cache: the third insertion evicts the
   7000 byte file, which brings the counter to 0 and empties `tail` while
   the 100 byte file is still queued; the fourth appends through the NULL
   tail.
   */
  lemma CountDriftCrashesInsert(a: Name, c: Name, g: Name, h: Name)
    requires a != c
    ensures var o1 := CacheInsertAsWritten(CacheInit(AverageFileSize), LffList.Empty(), Entry(a, 7000));
            && o1.Some?
            && var o2 := CacheInsertAsWritten(o1.value.0, o1.value.1, Entry(c, 100));
               && o2.Some?
               && var o3 := CacheInsertAsWritten(o2.value.0, o2.value.1, Entry(g, 6000));
                  && o3.Some?
                  && CacheInsertAsWritten(o3.value.0, o3.value.1, Entry(h, 50)).None?
  {
    var k0, q0 := DriftStart(a);
    var k1, q1 := DriftStepOne(a, c, k0, q0);
    var k2, q2 := DriftStepTwo(a, c, g, k1, q1);
    DriftStepThree(c, g, h, k2, q2);
  }

  /** Then a 50 byte file: it fits, but q_insert_sorted appends it through the NULL tail. */
  lemma DriftStepThree(c: Name, g: Name, h: Name, k2: Cache, q2: LffList.Lff)
    requires k2.arraySize == 1 && k2.maxSize == AverageFileSize && k2.current == 6100 && |k2.buckets| == 1
    requires q2 == LffList.Lff([Entry(g, 6000), Entry(c, 100)], 1, LffList.TailNull)
    ensures CacheInsertAsWritten(k2, q2, Entry(h, 50)).None?
  {
    HashOne(h);
    assert LffList.InsertPos(q2.nodes, 50) == 2;
  }
}
