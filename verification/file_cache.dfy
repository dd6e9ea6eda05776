/**
 The web server's file cache (webserver/server_thread.c): a chained hash
 table of (file name, size) entries indexed by djb2, bounded by a byte
 budget, evicting in largest-file-first order through the LFF queue of
 `LffList`. Each bucket is the sequence of its chain from the head. File
 contents are not modelled: an entry is its name and size.
 */
module FileCache {
  import opened Files
  import opened Optional
  import LffList

  /** 2^64: `unsigned long` arithmetic is modulo this. */
  const Word: int := 0x1_0000_0000_0000_0000

  /** The cache's estimate of an average file, 12 KiB, which sizes the hash table. */
  const AverageFileSize: int := 4096 * 3

  /** The value of a `char` byte on a platform where `char` is signed. */
  function SignedChar(c: NameChar): int {
    if c >= 128 then c as int - 256 else c as int
  }

  /** djb2: start at 5381, then `hash * 33 + c` per byte, all modulo 2^64. */
  function Djb2(w: Name): (h: nat)
    ensures h < Word
    decreases |w|
  {
    if |w| == 0 then 5381 else (Djb2(w[..|w| - 1]) * 33 + SignedChar(w[|w| - 1])) % Word
  }

  /** The same polynomial in unbounded integers: 5381 * 33^n plus each byte times a power of 33. */
  function Poly(w: Name): int
    decreases |w|
  {
    if |w| == 0 then 5381 else Poly(w[..|w| - 1]) * 33 + SignedChar(w[|w| - 1])
  }

  lemma ModStep(a: int, c: int)
    ensures ((a % Word) * 33 + c) % Word == (a * 33 + c) % Word
  {
    var q := a / Word;
    assert a == Word * q + a % Word;
    assert a * 33 + c == (a % Word) * 33 + c + Word * (33 * q);
    ShiftMod((a % Word) * 33 + c, 33 * q);
  }

  lemma ShiftMod(x: int, m: int)
    ensures (x + Word * m) % Word == x % Word
  {
    var r := x % Word;
    var d := x / Word;
    assert x == Word * d + r;
    assert x + Word * m == Word * (d + m) + r;
  }

  /** The 64-bit hash is the unbounded polynomial reduced modulo 2^64. */
  lemma {:induction false} Djb2IsPoly(w: Name)
    ensures Djb2(w) == Poly(w) % Word
    decreases |w|
  {
    if |w| > 0 {
      var p := w[..|w| - 1];
      Djb2IsPoly(p);
      ModStep(Poly(p), SignedChar(w[|w| - 1]));
    }
  }

  /** Conversion of an `unsigned long` to `int`: the low 32 bits in two's complement. */
  function ToInt(u: nat): (r: int)
    ensures -0x8000_0000 <= r < 0x8000_0000
    ensures u < 0x8000_0000 ==> r == u
  {
    var low := u % 0x1_0000_0000;
    if low < 0x8000_0000 then low else low - 0x1_0000_0000
  }

  /**
   hash_func: the djb2 hash modulo `size`, where `size` is converted to
   `unsigned long`. A size that converts to 0 is a division by zero.
   */
  function HashFunc(w: Name, size: int): (r: Option<int>)
    ensures r.None? <==> size % Word == 0
    ensures 0 < size < 0x8000_0000 ==> r.Some? && 0 <= r.value < size
  {
    var divisor := size % Word;
    if divisor == 0 then None else Some(ToInt(Djb2(w) % divisor))
  }

  /** hash_func's loop, byte by byte, computes the same bucket as the recursive definition. */
  method HashLoop(w: Name, size: int) returns (r: Option<int>)
    ensures r == HashFunc(w, size)
  {
    var h := 5381;
    var i := 0;
    while i < |w|
      invariant 0 <= i <= |w|
      invariant h == Djb2(w[..i])
    {
      assert w[..i + 1][..i] == w[..i];
      h := (h * 33 + SignedChar(w[i])) % Word;
      i := i + 1;
    }
    assert w[..i] == w;
    var divisor := size % Word;
    if divisor == 0 {
      r := None;
    } else {
      r := Some(ToInt(h % divisor));
    }
  }

  /** With a single bucket every name hashes to bucket 0. */
  lemma HashOne(w: Name)
    ensures HashFunc(w, 1) == Some(0)
  {
  }

  /**
   linear_search: the first entry of a chain named `n`, if any.
   */
  function LinearSearch(chain: seq<Entry>, n: Name): (r: Option<Entry>)
    ensures r.None? <==> n !in Names(chain)
    ensures r.Some? ==> exists i :: 0 <= i < |chain| && chain[i] == r.value && r.value.name == n &&
                          forall j :: 0 <= j < i ==> chain[j].name != n
  {
    FoundIffPresent(chain, n);
    var k := FindName(chain, n);
    if k < |chain| then Some(chain[k]) else None
  }

  // ---------------------------------------------------------------------
  // The table
  // ---------------------------------------------------------------------

  /** The chains of the table, `arraySize`, the byte budget and the bytes accounted for. */
  datatype Cache = Cache(buckets: seq<seq<Entry>>, arraySize: int, maxSize: int, current: int)

  /** All cached entries, bucket after bucket. */
  function Flatten(bs: seq<seq<Entry>>): seq<Entry>
    decreases |bs|
  {
    if |bs| == 0 then [] else bs[0] + Flatten(bs[1..])
  }

  /** C's `/` on `int`, which truncates toward zero. */
  function CDiv(a: int, b: int): (r: int)
    requires b > 0
    ensures a >= 0 ==> r == a / b
    ensures a < 0 ==> r == -((-a) / b)
  {
    if a >= 0 then a / b else -((-a) / b)
  }

  /** Number of chains a table of `arraySize` really has: `calloc` of a non-positive count gives none. */
  function Width(arraySize: int): nat {
    if arraySize > 0 then arraySize else 0
  }

  /**
   cache_init: one chain per 12 KiB of budget, all empty, nothing accounted.
   A budget under 12 KiB gives a table without chains.
   */
  function CacheInit(maxSize: int): (c: Cache)
    ensures c.current == 0 && Flatten(c.buckets) == [] && c.maxSize == maxSize
    ensures c.arraySize > 0 <==> maxSize >= AverageFileSize
    ensures |c.buckets| == Width(c.arraySize)
  {
    var n := CDiv(maxSize, AverageFileSize);
    var bs := seq(Width(n), _ => []);
    EmptyChains(bs);
    Cache(bs, n, maxSize, 0)
  }

  lemma {:induction false} EmptyChains(bs: seq<seq<Entry>>)
    requires forall k :: 0 <= k < |bs| ==> bs[k] == []
    ensures Flatten(bs) == []
    decreases |bs|
  {
    if |bs| > 0 {
      EmptyChains(bs[1..]);
    }
  }

  /** Every entry sits in the chain its name hashes to. */
  predicate Placed(bs: seq<seq<Entry>>, size: int) {
    forall k, i :: 0 <= k < |bs| && 0 <= i < |bs[k]| ==> HashFunc(bs[k][i].name, size) == Some(k)
  }

  /**
   The cache and the LFF queue agree: the table has its chains, every entry
   is in its chain, the queue is well kept and names exactly the cached
   files, the byte count is the sum of the cached sizes, within the budget.
   */
  predicate Coherent(c: Cache, q: LffList.Lff) {
    && |c.buckets| == Width(c.arraySize)
    && c.arraySize < 0x8000_0000
    && Placed(c.buckets, c.arraySize)
    && LffList.ListOk(q)
    && Names(q.nodes) == Names(Flatten(c.buckets))
    && c.current == Total(Flatten(c.buckets))
    && (c.current == 0 || c.current <= c.maxSize)
  }

  /** A freshly initialised cache and queue agree, for any budget an `int` can hold. */
  lemma InitCoherent(maxSize: int)
    requires maxSize < 0x8000_0000
    ensures Coherent(CacheInit(maxSize), LffList.Empty())
  {
  }

  datatype Lookup = Hit(entry: Entry) | Miss | LookupFault

  /**
   cache_lookup: an empty name misses; otherwise the name's chain is
   searched. A zero-sized table divides by zero; an index outside the table
   is an invalid read.
   */
  function CacheLookup(c: Cache, n: Name): (r: Lookup)
    ensures |n| == 0 ==> r == Miss
    ensures r.Hit? ==> r.entry.name == n
    ensures |n| > 0 && c.arraySize == 0 ==> r == LookupFault
  {
    if |n| == 0 then Miss
    else match HashFunc(n, c.arraySize)
      case None => LookupFault
      case Some(k) =>
        if k < 0 || k >= |c.buckets| then LookupFault
        else match LinearSearch(c.buckets[k], n)
          case None => Miss
          case Some(e) => Hit(e)
  }

  // ---------------------------------------------------------------------
  // Eviction
  // ---------------------------------------------------------------------

  /**
   What one round of cache_evict's loop does to the cache: the queue ran
   dry (a NULL dereference), the table could not be indexed, the popped
   name was not cached, or its first cache entry was unlinked.
   */
  datatype Round =
    | Dry
    | BadIndex
    | Skipped(rest: LffList.Lff)
    | Unlinked(size: nat, cache: Cache, rest: LffList.Lff)

  /**
   One round of cache_evict's loop: pop the largest file from the queue and
   unlink the first cache entry of that name from its chain, taking its size
   off the byte count.
   */
  function EvictRound(c: Cache, q: LffList.Lff): (r: Round)
    ensures r.Dry? <==> |q.nodes| == 0
    ensures r.Skipped? || r.Unlinked? ==> r.rest.nodes == q.nodes[1..]
    ensures r.Unlinked? ==>
              && r.cache.current == c.current - r.size
              && r.cache.arraySize == c.arraySize && r.cache.maxSize == c.maxSize
              && Names(Flatten(r.cache.buckets)) + multiset{q.nodes[0].name} == Names(Flatten(c.buckets))
  {
    match LffList.Pop(q)
    case None => Dry
    case Some((node, q1)) =>
      match HashFunc(node.name, c.arraySize)
      case None => BadIndex
      case Some(k) =>
        if k < 0 || k >= |c.buckets| then BadIndex
        else
          var b := c.buckets[k];
          var i := FindName(b, node.name);
          if i == |b| then Skipped(q1)
          else
            var bs := c.buckets[k := b[..i] + b[i + 1..]];
            UnlinkedNames(c.buckets, k, i);
            Unlinked(b[i].size, c.(buckets := bs, current := c.current - b[i].size), q1)
  }

  /**
   cache_evict's loop from `evicted` bytes freed: rounds until `n` bytes are
   gone. The asserts after each unlink fail when the byte count goes
   negative or more than the budget has been freed.
   */
  function EvictFrom(c: Cache, q: LffList.Lff, n: int, evicted: int): (o: Option<(int, Cache, LffList.Lff)>)
    ensures o.Some? ==> o.value.0 >= n && o.value.0 >= evicted
    ensures o.Some? ==> o.value.1.arraySize == c.arraySize && o.value.1.maxSize == c.maxSize
    ensures o.Some? ==> o.value.0 - evicted == c.current - o.value.1.current
    ensures o.Some? && c.current >= 0 ==> o.value.1.current >= 0
    ensures evicted >= n ==> o == Some((evicted, c, q))
    decreases |q.nodes|, 1
  {
    if evicted >= n then Some((evicted, c, q))
    else AfterRound(c, q, EvictRound(c, q), n, evicted)
  }

  /** The rest of the loop after round `r` of it: an empty queue or a bad index ends it, as do the asserts. */
  function AfterRound(c: Cache, q: LffList.Lff, r: Round, n: int, evicted: int): (o: Option<(int, Cache, LffList.Lff)>)
    requires r.Skipped? || r.Unlinked? ==> |r.rest.nodes| < |q.nodes|
    requires r.Unlinked? ==> r.cache.current == c.current - r.size
    requires r.Unlinked? ==> r.cache.arraySize == c.arraySize && r.cache.maxSize == c.maxSize
    ensures o.Some? ==> o.value.0 >= n && o.value.0 >= evicted
    ensures o.Some? ==> o.value.1.arraySize == c.arraySize && o.value.1.maxSize == c.maxSize
    ensures o.Some? ==> o.value.0 - evicted == c.current - o.value.1.current
    ensures o.Some? && c.current >= 0 ==> o.value.1.current >= 0
    decreases |q.nodes|, 0
  {
    match r
    case Dry => None
    case BadIndex => None
    case Skipped(q1) => EvictFrom(c, q1, n, evicted)
    case Unlinked(size, c1, q1) =>
      if c1.current < 0 || evicted + size > c.maxSize then None
      else EvictFrom(c1, q1, n, evicted + size)
  }

  /** A round that unlinks a file within the asserts hands the loop on to the next round. */
  lemma EvictFromUnlinks(c: Cache, q: LffList.Lff, n: int, evicted: int)
    requires evicted < n && EvictRound(c, q).Unlinked?
    requires EvictRound(c, q).cache.current >= 0 && evicted + EvictRound(c, q).size <= c.maxSize
    ensures var r := EvictRound(c, q);
            EvictFrom(c, q, n, evicted) == EvictFrom(r.cache, r.rest, n, evicted + r.size)
  {
  }

  /** A round that finds no cache entry for the popped file goes on with the same cache. */
  lemma EvictFromSkips(c: Cache, q: LffList.Lff, n: int, evicted: int)
    requires evicted < n && EvictRound(c, q).Skipped?
    ensures EvictFrom(c, q, n, evicted) == EvictFrom(c, EvictRound(c, q).rest, n, evicted)
  {
  }

  /** Deleting one entry of a chain deletes its name and bytes from the table. */
  lemma UnlinkedNames(bs: seq<seq<Entry>>, k: nat, i: nat)
    requires k < |bs| && i < |bs[k]|
    ensures var bs' := bs[k := bs[k][..i] + bs[k][i + 1..]];
            && Names(Flatten(bs')) + multiset{bs[k][i].name} == Names(Flatten(bs))
            && Total(Flatten(bs')) + bs[k][i].size == Total(Flatten(bs))
  {
    var b := bs[k];
    var b' := b[..i] + b[i + 1..];
    DeleteAt(b, i);
    FlattenUpdate(bs, k, b');
    Cancel(Names(Flatten(bs[k := b'])) + multiset{b[i].name}, Names(Flatten(bs)), Names(b'));
  }

  lemma {:induction false} FlattenSplit(bs: seq<seq<Entry>>, k: nat)
    requires k < |bs|
    ensures Flatten(bs) == Flatten(bs[..k]) + bs[k] + Flatten(bs[k + 1..])
    decreases k
  {
    if k == 0 {
      assert bs[..0] == [];
    } else {
      FlattenSplit(bs[1..], k - 1);
      assert bs[1..][..k - 1] == bs[1..k];
      assert bs[1..][k - 1] == bs[k];
      assert bs[1..][k..] == bs[k + 1..];
      assert bs[..k][1..] == bs[1..k];
      assert bs[..k][0] == bs[0];
    }
  }

  /** Multiset sum cancels. */
  lemma Cancel(a: multiset<Name>, b: multiset<Name>, c: multiset<Name>)
    requires a + c == b + c
    ensures a == b
  {
    forall x
      ensures a[x] == b[x]
    {
      assert (a + c)[x] == (b + c)[x];
    }
  }

  /** Replacing one chain swaps its names and bytes in the whole table. */
  lemma FlattenUpdate(bs: seq<seq<Entry>>, k: nat, x: seq<Entry>)
    requires k < |bs|
    ensures Names(Flatten(bs[k := x])) + Names(bs[k]) == Names(Flatten(bs)) + Names(x)
    ensures Total(Flatten(bs[k := x])) + Total(bs[k]) == Total(Flatten(bs)) + Total(x)
  {
    var bs' := bs[k := x];
    assert bs'[..k] == bs[..k] && bs'[k + 1..] == bs[k + 1..] && bs'[k] == x;
    FlattenSplit(bs, k);
    FlattenSplit(bs', k);
    var pre, post := Flatten(bs[..k]), Flatten(bs[k + 1..]);
    NamesConcat(pre + bs[k], post);
    NamesConcat(pre, bs[k]);
    NamesConcat(pre + x, post);
    NamesConcat(pre, x);
    TotalConcat(pre + bs[k], post);
    TotalConcat(pre, bs[k]);
    TotalConcat(pre + x, post);
    TotalConcat(pre, x);
  }

  /** cache_evict: asking for more than the whole budget evicts nothing and returns 0. */
  function Evict(c: Cache, q: LffList.Lff, n: int): (o: Option<(int, Cache, LffList.Lff)>)
    ensures c.maxSize < n ==> o == Some((0, c, q))
    ensures c.maxSize >= n && o.Some? ==> o.value.0 >= n && o.value.0 >= 0
    ensures o.Some? ==> o.value.1.current == c.current - o.value.0
    ensures o.Some? && c.current >= 0 ==> o.value.1.current >= 0
    ensures o.Some? ==> o.value.1.arraySize == c.arraySize && o.value.1.maxSize == c.maxSize
  {
    if c.maxSize < n then Some((0, c, q)) else EvictFrom(c, q, n, 0)
  }

  // ---------------------------------------------------------------------
  // Insertion
  // ---------------------------------------------------------------------

  /** The table half of cache_insert: prepend the entry to its chain and account for its size. */
  function Store(c: Cache, e: Entry): (o: Option<Cache>)
    ensures o.Some? ==> o.value.current == c.current + e.size &&
                        o.value.arraySize == c.arraySize && o.value.maxSize == c.maxSize
    ensures 0 < c.arraySize < 0x8000_0000 && |c.buckets| == c.arraySize ==> o.Some?
    ensures o.Some? ==> exists k :: 0 <= k < |c.buckets| && HashFunc(e.name, c.arraySize) == Some(k) &&
                                    o.value.buckets == c.buckets[k := [e] + c.buckets[k]]
    ensures o.None? <==> match HashFunc(e.name, c.arraySize)
                         case None => true
                         case Some(k) => k < 0 || k >= |c.buckets|
  {
    match HashFunc(e.name, c.arraySize)
    case None => None
    case Some(k) =>
      if k < 0 || k >= |c.buckets| then None
      else Some(c.(buckets := c.buckets[k := [e] + c.buckets[k]], current := c.current + e.size))
  }

  /**
   cache_insert as written: a file at least as large as the budget is not
   cached; if it does not fit, cache_evict is asked for the file's own size;
   then the entry is stored and inserted into the LFF queue with
   q_insert_sorted as written.
   */
  function CacheInsertAsWritten(c: Cache, q: LffList.Lff, e: Entry): (o: Option<(Cache, LffList.Lff)>)
    ensures e.size >= c.maxSize ==> o == Some((c, q))
    ensures e.size < c.maxSize && c.current + e.size > c.maxSize && o.Some? ==>
              Evict(c, q, e.size).Some?
    ensures e.size < c.maxSize && o.Some? ==>
              var room := if c.current + e.size > c.maxSize then Evict(c, q, e.size) else Some((0, c, q));
              && room.Some?
              && var (freed, c1, q1) := room.value;
                 && o.value.0.current == c.current - freed + e.size
                 && o.value.0.arraySize == c.arraySize && o.value.0.maxSize == c.maxSize
                 && (exists k :: 0 <= k < |c1.buckets| && HashFunc(e.name, c.arraySize) == Some(k) &&
                                 o.value.0.buckets == c1.buckets[k := [e] + c1.buckets[k]])
                 && (|q1.nodes| == 0 ==> o.value.1 == LffList.Lff([e], q1.count, LffList.TailLast))
                 && (|q1.nodes| > 0 ==>
                       o.value.1.count == q1.count + 1 &&
                       o.value.1.nodes == LffList.Splice(q1.nodes, LffList.InsertPos(q1.nodes, e.size), e))
  {
    if e.size >= c.maxSize then Some((c, q))
    else
      var room := if c.current + e.size > c.maxSize then Evict(c, q, e.size) else Some((0, c, q));
      match room
      case None => None
      case Some((_, c1, q1)) =>
        match Store(c1, e)
        case None => None
        case Some(c2) =>
          match LffList.InsertAsWritten(q1, e)
          case None => None
          case Some(q2) => Some((c2, q2))
  }

  /**
   cache_insert corrected: a table without chains caches nothing, and
   eviction frees only the bytes by which the new file overflows the budget;
   the queue insertion counts every node.
   */
  function CacheInsert(c: Cache, q: LffList.Lff, e: Entry): (o: Option<(Cache, LffList.Lff)>)
    ensures c.arraySize <= 0 || e.size >= c.maxSize ==> o == Some((c, q))
    ensures o.Some? ==> o.value.0.arraySize == c.arraySize && o.value.0.maxSize == c.maxSize
    ensures 0 < c.arraySize && e.size < c.maxSize && o.Some? ==>
              var over := c.current + e.size - c.maxSize;
              var room := if over > 0 then Evict(c, q, over) else Some((0, c, q));
              && room.Some?
              && var (freed, c1, q1) := room.value;
                 && (0 < over <= c.maxSize ==> freed >= over)
                 && o.value.0.current == c.current - freed + e.size
                 && (exists k :: 0 <= k < |c1.buckets| && HashFunc(e.name, c.arraySize) == Some(k) &&
                                 o.value.0.buckets == c1.buckets[k := [e] + c1.buckets[k]])
                 && o.value.1.count == q1.count + 1
                 && o.value.1.nodes == LffList.Splice(q1.nodes, LffList.InsertPos(q1.nodes, e.size), e)
  {
    if c.arraySize <= 0 || e.size >= c.maxSize then Some((c, q))
    else
      var room :=
        if c.current + e.size > c.maxSize then Evict(c, q, c.current + e.size - c.maxSize)
        else Some((0, c, q));
      match room
      case None => None
      case Some((_, c1, q1)) =>
        match Store(c1, e)
        case None => None
        case Some(c2) =>
          match LffList.Insert(q1, e)
          case None => None
          case Some(q2) => Some((c2, q2))
  }
}
