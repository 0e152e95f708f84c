/** Properties of the sharded existence cache (uploader/cmap.go) that relate
    several operations: flag accumulation across `Set`, idempotence, the
    order-independence of `Merge`, the exactness and resumability of
    `Expire`, and the test vectors of uploader/cmap_test.go. */
module ShardedCacheProps {
  import opened Packed
  import opened ShardedCache

  // ---------------------------------------------------------------------
  // Count and placement

  /** A fresh cache satisfies the placement invariant and holds nothing. */
  lemma NewCMapEmpty<K(!new)>(xxh: K -> bv64)
    ensures Placed(NewCMap<K>(), xxh)
    ensures AllKeys(NewCMap<K>()) == {}
  {
  }

  /** A fresh cache credits no key to any table. */
  lemma EmptyCacheKnowsNothing<K(!new)>(xxh: K -> bv64, id: bv8, key: K)
    ensures !Exists(NewCMap(), xxh, key, id)
  {
    var m: CMap<K> := NewCMap();
    assert m.shards[ShardIndex(xxh, key)] == map[];
    assert Get(m, xxh, key).value == 0;
  }

  /** Under the placement invariant no key is counted twice, so `Count`
      (the sum of shard sizes) is the number of distinct keys. */
  lemma CountIsDistinctKeys<K(!new)>(m: CMap<K>, xxh: K -> bv64)
    requires Placed(m, xxh)
    ensures SumSizes(m.shards) == |AllKeys(m)|
  {
    SumIsKeysBelow(m, xxh, ShardCount);
    assert m.shards[..ShardCount] == m.shards;
    assert KeysBelow(m, ShardCount) == AllKeys(m);
  }

  ghost function KeysBelow<K(!new)>(m: CMap<K>, n: nat): set<K>
    requires n <= |m.shards|
  {
    set i, k | 0 <= i < n && k in m.shards[i] :: k
  }

  lemma {:induction false} SumIsKeysBelow<K(!new)>(m: CMap<K>, xxh: K -> bv64, n: nat)
    requires Placed(m, xxh) && n <= ShardCount
    ensures SumSizes(m.shards[..n]) == |KeysBelow(m, n)|
  {
    if n > 0 {
      SumIsKeysBelow(m, xxh, n - 1);
      assert m.shards[..n][..n - 1] == m.shards[..n - 1];
      assert SumSizes(m.shards[..n]) == SumSizes(m.shards[..n - 1]) + |m.shards[n - 1]|;
      KeysBelowGrow(m, xxh, n);
    }
  }

  /** The keys below shard `n` are those below `n - 1` and, disjoint from
      them, the keys of shard `n - 1`. */
  lemma KeysBelowGrow<K(!new)>(m: CMap<K>, xxh: K -> bv64, n: nat)
    requires Placed(m, xxh) && 0 < n <= ShardCount
    ensures |KeysBelow(m, n)| == |KeysBelow(m, n - 1)| + |m.shards[n - 1]|
  {
    var below := KeysBelow(m, n - 1);
    var here := m.shards[n - 1].Keys;
    assert KeysBelow(m, n) == below + here;
    assert below !! here by {
      forall k | k in below
        ensures k !in here
      {
        var i :| 0 <= i < n - 1 && k in m.shards[i];
        assert ShardIndex(xxh, k) == i;
      }
    }
  }

  /** After `Clear` the cache counts zero entries and holds no key. */
  lemma ClearEmpties<K(!new)>(m: CMap<K>, xxh: K -> bv64)
    requires WellFormed(m)
    ensures Placed(Clear(m).0, xxh)
    ensures AllKeys(Clear(m).0) == {}
  {
  }

  // ---------------------------------------------------------------------
  // Set and Exists

  /** After `Set(k, id, ts)` with an in-range id, `Exists(k, id)` holds. */
  lemma SetThenExists<K(!new)>(m: CMap<K>, xxh: K -> bv64, key: K, id: bv8, ts: bv32)
    requires WellFormed(m) && id < 32
    ensures Exists(Set(m, xxh, key, id, ts), xxh, key, id)
  {
    UpdateSetsFlag(Get(m, xxh, key).value, id, ts);
  }

  /** A table with id 224 is credited with every key whose last `Set`,
      by any table with an id below 224, carried an odd stamp: it then
      skips records it never wrote. */
  lemma WrappedIdCreditedByOthers<K(!new)>(m: CMap<K>, xxh: K -> bv64, key: K, id: bv8, ts: bv32)
    requires WellFormed(m) && id < 224 && ts & 1 == 1
    ensures Exists(Set(m, xxh, key, id, ts), xxh, key, 224)
  {
    WrappedIdReadsStampBit(Get(m, xxh, key).value, id, ts);
  }

  /** The concrete case: table 0 writes a key at second 123 into a fresh
      cache, and table 224, unknown to it before, now finds the key. */
  lemma WrappedIdExample(xxh: string -> bv64)
    ensures !Exists(NewCMap(), xxh, "k", 224)
    ensures Exists(Set(NewCMap(), xxh, "k", 0, 123), xxh, "k", 224)
  {
    EmptyCacheKnowsNothing(xxh, 224, "k");
    WrappedIdCreditedByOthers(NewCMap(), xxh, "k", 0, 123);
  }

  /** `Set` never clears a flag: whatever existed for any key and any
      in-range id still exists afterwards. */
  lemma SetKeepsFlags<K(!new)>(m: CMap<K>, xxh: K -> bv64, key: K, id: bv8, ts: bv32, other: K, j: bv8)
    requires WellFormed(m) && j < 32 && Exists(m, xxh, other, j)
    ensures Exists(Set(m, xxh, key, id, ts), xxh, other, j)
  {
    if other == key {
      UpdateKeepsFlags(Get(m, xxh, key).value, id, ts, j);
    }
  }

  /** `Set` for one in-range id does not make the key known for another. */
  lemma SetAddsOnlyItsFlag<K(!new)>(m: CMap<K>, xxh: K -> bv64, key: K, id: bv8, ts: bv32, j: bv8)
    requires WellFormed(m) && id < 32 && j < 32 && j != id && !Exists(m, xxh, key, j)
    ensures !Exists(Set(m, xxh, key, id, ts), xxh, key, j)
  {
    UpdateAddsOnlyItsFlag(Get(m, xxh, key).value, id, ts, j);
  }

  /** Two tables setting the same key: each table's flag is present and
      the later stamp is the entry's stamp. */
  lemma TwoTablesShareEntry<K(!new)>(m: CMap<K>, xxh: K -> bv64, key: K, i: bv8, j: bv8, t1: bv32, t2: bv32)
    requires WellFormed(m) && i < 32 && j < 32
    ensures var r := Set(Set(m, xxh, key, i, t1), xxh, key, j, t2);
      Exists(r, xxh, key, i) && Exists(r, xxh, key, j) && Stamp(Get(r, xxh, key).value) == t2
  {
    var m1 := Set(m, xxh, key, i, t1);
    SetThenExists(m, xxh, key, i, t1);
    SetKeepsFlags(m1, xxh, key, j, t2, key, i);
    SetThenExists(m1, xxh, key, j, t2);
    StampOfUpdate(Get(m1, xxh, key).value, j, t2);
  }

  /** Ids 32..223 are never known, so a table with such an id gets no
      credit from the cache. */
  lemma HighIdNeverExists<K(!new)>(m: CMap<K>, xxh: K -> bv64, key: K, id: bv8)
    requires WellFormed(m) && 32 <= id < 224
    ensures !Exists(m, xxh, key, id)
  {
    HighIdNeverKnown(Get(m, xxh, key).value, id);
  }

  /** Setting a key twice with the same arguments equals setting it once. */
  lemma SetIdempotent<K(!new)>(m: CMap<K>, xxh: K -> bv64, key: K, id: bv8, ts: bv32)
    requires WellFormed(m)
    ensures Set(Set(m, xxh, key, id, ts), xxh, key, id, ts) == Set(m, xxh, key, id, ts)
  {
    UpdateIdempotent(Get(m, xxh, key).value, id, ts);
    var once := Set(m, xxh, key, id, ts);
    var twice := Set(once, xxh, key, id, ts);
    var s := ShardIndex(xxh, key);
    assert twice.shards[s] == once.shards[s];
    assert twice.shards == once.shards;
  }

  /** The sequence of uploader/cmap_test.go:9-28 on a fresh cache, for any
      shard hash. */
  lemma CMapTestVectors(xxh: string -> bv64)
    ensures var m1 := Set(NewCMap(), xxh, "foobar", 0, 123);
      var m2 := Set(m1, xxh, "foobar", 1, 123);
      var m3 := Set(m2, xxh, "foobar", 2, 124);
      && Get(m1, xxh, "foobar") == Lookup(true, 0x1_0000_007b)
      && Get(m2, xxh, "foobar") == Lookup(true, 0x3_0000_007b)
      && Get(m3, xxh, "foobar") == Lookup(true, 0x7_0000_007c)
      && Exists(m3, xxh, "foobar", 0) && Exists(m3, xxh, "foobar", 1) && Exists(m3, xxh, "foobar", 2)
      && !Exists(m3, xxh, "foobar", 3) && !Exists(m3, xxh, "baz", 0)
  {
    TestVectors();
  }

  // ---------------------------------------------------------------------
  // Merge

  /** The Go loop over `keys` gives the same cache whatever order the map
      iteration picks, and that cache is `Merge`. */
  lemma {:induction false} MergeInOrderIsMerge<K(!new)>(m: CMap<K>, xxh: K -> bv64, id: bv8, order: seq<K>, ts: bv32)
    requires WellFormed(m)
    ensures MergeInOrder(m, xxh, id, order, ts) == Merge(m, xxh, id, (set k | k in order), ts)
    decreases |order|
  {
    if |order| == 0 {
      assert (set k | k in order) == {};
      MergeNothing(m, xxh, id, ts);
    } else {
      var key := order[0];
      var rest := set k | k in order[1..];
      MergeInOrderIsMerge(Set(m, xxh, key, id, ts), xxh, id, order[1..], ts);
      MergeAfterSet(m, xxh, key, id, rest, ts);
      KeysOfCons(order);
    }
  }

  /** The keys of a non-empty order are its head and the keys of its tail. */
  lemma KeysOfCons<K>(order: seq<K>)
    requires |order| > 0
    ensures (set k | k in order) == (set k | k in order[1..]) + {order[0]}
  {
  }

  /** Two iteration orders over the same key set give the same cache. */
  lemma MergeOrderIndependent<K(!new)>(m: CMap<K>, xxh: K -> bv64, id: bv8, o1: seq<K>, o2: seq<K>, ts: bv32)
    requires WellFormed(m)
    requires (set k | k in o1) == (set k | k in o2)
    ensures MergeInOrder(m, xxh, id, o1, ts) == MergeInOrder(m, xxh, id, o2, ts)
  {
    MergeInOrderIsMerge(m, xxh, id, o1, ts);
    MergeInOrderIsMerge(m, xxh, id, o2, ts);
  }

  /** Merging the empty batch changes nothing. */
  lemma MergeNothing<K(!new)>(m: CMap<K>, xxh: K -> bv64, id: bv8, ts: bv32)
    requires WellFormed(m)
    ensures Merge(m, xxh, id, {}, ts) == m
  {
    var r := Merge(m, xxh, id, {}, ts);
    forall i | 0 <= i < ShardCount
      ensures r.shards[i] == m.shards[i]
    {
      assert KeysOfShard(xxh, {}, i) == {};
    }
    assert r.shards == m.shards;
  }

  /** After `Merge` every key of the batch is known to the merging table,
      for an in-range id (cmap.go:96-100 with cmap.go:62-71). */
  lemma MergeMakesKnown<K(!new)>(m: CMap<K>, xxh: K -> bv64, id: bv8, keys: set<K>, ts: bv32, key: K)
    requires WellFormed(m) && id < 32 && key in keys
    ensures Exists(Merge(m, xxh, id, keys, ts), xxh, key, id)
  {
    UpdateSetsFlag(Get(m, xxh, key).value, id, ts);
  }

  /** `Merge` never forgets what any in-range table already knew. */
  lemma MergeKeepsKnown<K(!new)>(m: CMap<K>, xxh: K -> bv64, id: bv8, keys: set<K>, ts: bv32, key: K, j: bv8)
    requires WellFormed(m) && j < 32 && Exists(m, xxh, key, j)
    ensures Exists(Merge(m, xxh, id, keys, ts), xxh, key, j)
  {
    if key in keys {
      UpdateKeepsFlags(Get(m, xxh, key).value, id, ts, j);
    }
  }

  /** Setting one key and then merging a batch is merging the batch with
      that key added. */
  lemma MergeAfterSet<K(!new)>(m: CMap<K>, xxh: K -> bv64, key: K, id: bv8, keys: set<K>, ts: bv32)
    requires WellFormed(m)
    ensures Merge(Set(m, xxh, key, id, ts), xxh, id, keys, ts) == Merge(m, xxh, id, keys + {key}, ts)
  {
    var left := Merge(Set(m, xxh, key, id, ts), xxh, id, keys, ts);
    var right := Merge(m, xxh, id, keys + {key}, ts);
    forall i | 0 <= i < ShardCount
      ensures left.shards[i] == right.shards[i]
    {
      MergeAfterSetShard(m, xxh, key, id, keys, ts, i);
    }
    assert left.shards == right.shards;
  }

  lemma MergeAfterSetShard<K(!new)>(m: CMap<K>, xxh: K -> bv64, key: K, id: bv8, keys: set<K>, ts: bv32, i: nat)
    requires WellFormed(m) && i < ShardCount
    ensures Merge(Set(m, xxh, key, id, ts), xxh, id, keys, ts).shards[i]
      == Merge(m, xxh, id, keys + {key}, ts).shards[i]
  {
    var m1 := Set(m, xxh, key, id, ts);
    MergeShardAt(m1, xxh, id, keys, ts, i);
    MergeShardAt(m, xxh, id, keys + {key}, ts, i);
    SetShardAt(m, xxh, key, id, ts, i);
    KeysOfShardAdd(xxh, keys, key, i);
    if i == ShardIndex(xxh, key) {
      MergeShardAfterUpdate(m.shards[i], KeysOfShard(xxh, keys, i), key, id, ts);
    }
  }

  /** Adding a key to a batch adds it to its own shard's part only. */
  lemma KeysOfShardAdd<K(!new)>(xxh: K -> bv64, keys: set<K>, key: K, i: nat)
    ensures KeysOfShard(xxh, keys + {key}, i)
      == if i == ShardIndex(xxh, key) then KeysOfShard(xxh, keys, i) + {key} else KeysOfShard(xxh, keys, i)
  {
  }

  /** Shard `i` after a merge is that shard merged with its own keys. */
  lemma MergeShardAt<K(!new)>(m: CMap<K>, xxh: K -> bv64, id: bv8, keys: set<K>, ts: bv32, i: nat)
    requires WellFormed(m) && i < ShardCount
    ensures Merge(m, xxh, id, keys, ts).shards[i] == MergeShard(m.shards[i], KeysOfShard(xxh, keys, i), id, ts)
  {
  }

  /** Shard `i` after a `Set`: rewritten in the key's own shard only. */
  lemma SetShardAt<K(!new)>(m: CMap<K>, xxh: K -> bv64, key: K, id: bv8, ts: bv32, i: nat)
    requires WellFormed(m) && i < ShardCount
    ensures var shard := m.shards[i];
      var old0 := if key in shard then shard[key] else 0;
      Set(m, xxh, key, id, ts).shards[i]
        == if i == ShardIndex(xxh, key) then shard[key := Update(old0, id, ts)] else shard
  {
  }

  lemma MergeShardAfterUpdate<K(!new)>(shard: map<K, bv64>, here: set<K>, key: K, id: bv8, ts: bv32)
    ensures var old0 := if key in shard then shard[key] else 0;
      MergeShard(shard[key := Update(old0, id, ts)], here, id, ts) == MergeShard(shard, here + {key}, id, ts)
  {
    var old0 := if key in shard then shard[key] else 0;
    UpdateIdempotent(old0, id, ts);
    var left := MergeShard(shard[key := Update(old0, id, ts)], here, id, ts);
    var right := MergeShard(shard, here + {key}, id, ts);
    assert left.Keys == right.Keys;
    forall k | k in left
      ensures left[k] == right[k]
    {
    }
  }

  // ---------------------------------------------------------------------
  // Expire

  /** Seen through `Get`, `Expire` removes exactly the stale entries of the
      shards it visits; every other entry keeps its value and flags. */
  lemma ExpireExact<K(!new)>(m: CMap<K>, xxh: K -> bv64, ttl: bv32, now: bv32, stopAt: nat, key: K)
    requires WellFormed(m)
    ensures var before := Get(m, xxh, key);
      var removed := before.ok && ShardIndex(xxh, key) < stopAt
        && Stale(before.value, WrappingDeadline(now, ttl));
      Get(Expire(m, ttl, now, stopAt).0, xxh, key) == if removed then Lookup(false, 0) else before
  {
  }

  /** Expire only removes entries, so it keeps the placement invariant. */
  lemma ExpirePlaced<K(!new)>(m: CMap<K>, xxh: K -> bv64, ttl: bv32, now: bv32, stopAt: nat)
    requires Placed(m, xxh)
    ensures Placed(Expire(m, ttl, now, stopAt).0, xxh)
    ensures AllKeys(Expire(m, ttl, now, stopAt).0) <= AllKeys(m)
  {
    var r := Expire(m, ttl, now, stopAt).0;
    forall i, k | 0 <= i < ShardCount && k in r.shards[i]
      ensures k in m.shards[i]
    {
    }
    forall k | k in AllKeys(r)
      ensures k in AllKeys(m)
    {
      var i :| 0 <= i < ShardCount && k in r.shards[i];
      assert k in m.shards[i];
    }
  }

  /** Scanning a shard twice against one deadline removes nothing more. */
  lemma EvictIdempotent<K(!new)>(shard: map<K, bv64>, deadline: int)
    ensures Evict(Evict(shard, deadline), deadline) == Evict(shard, deadline)
  {
  }

  /** A pass cancelled before shard `stopAt`, followed by a pass with the
      same clock that gets at least as far (`ShardCount` when it runs to
      the end), leaves the cache that single second pass would, and the
      two counts add up to that pass's count. */
  lemma ExpireResumes<K(!new)>(m: CMap<K>, ttl: bv32, now: bv32, stopAt: nat, stop2: nat)
    requires WellFormed(m) && stopAt <= stop2
    ensures Expire(Expire(m, ttl, now, stopAt).0, ttl, now, stop2).0 == Expire(m, ttl, now, stop2).0
    ensures Expire(m, ttl, now, stopAt).1 + Expire(Expire(m, ttl, now, stopAt).0, ttl, now, stop2).1
      == Expire(m, ttl, now, stop2).1
  {
    var first := Expire(m, ttl, now, stopAt);
    var second := Expire(first.0, ttl, now, stop2);
    var full := Expire(m, ttl, now, stop2);
    ExpireResumesCache(m, ttl, now, stopAt, stop2);
    CountsAdd(SumSizes(m.shards), first.1, SumSizes(first.0.shards), second.1, SumSizes(second.0.shards), full.1);
  }

  /** The bookkeeping of two passes against one: removed plus kept is the
      size before, each time. */
  lemma CountsAdd(before: int, r1: int, mid: int, r2: int, after: int, r: int)
    requires r1 + mid == before && r2 + after == mid && r + after == before
    ensures r1 + r2 == r
  {
  }

  lemma ExpireResumesCache<K(!new)>(m: CMap<K>, ttl: bv32, now: bv32, stopAt: nat, stop2: nat)
    requires WellFormed(m) && stopAt <= stop2
    ensures Expire(Expire(m, ttl, now, stopAt).0, ttl, now, stop2).0 == Expire(m, ttl, now, stop2).0
  {
    var d := WrappingDeadline(now, ttl);
    var first := Expire(m, ttl, now, stopAt).0;
    var second := Expire(first, ttl, now, stop2).0;
    var full := Expire(m, ttl, now, stop2).0;
    forall j | 0 <= j < ShardCount
      ensures second.shards[j] == full.shards[j]
    {
      ExpireShardAt(m, ttl, now, stop2, j, d);
      ExpireShardAt(first, ttl, now, stop2, j, d);
      ExpireShardAt(m, ttl, now, stopAt, j, d);
      if j < stop2 {
        EvictAgain(m.shards[j], first.shards[j], d);
      }
    }
    SameShards(second, full);
  }

  lemma SameShards<K(!new)>(a: CMap<K>, b: CMap<K>)
    requires WellFormed(a) && WellFormed(b)
    requires forall j :: 0 <= j < ShardCount ==> a.shards[j] == b.shards[j]
    ensures a == b
  {
    assert a.shards == b.shards;
  }

  /** Evicting a shard that was either evicted already or left alone
      gives the same shard as one eviction. */
  lemma EvictAgain<K(!new)>(shard: map<K, bv64>, first: map<K, bv64>, d: int)
    requires first == shard || first == Evict(shard, d)
    ensures Evict(first, d) == Evict(shard, d)
  {
    if first != shard {
      EvictIdempotent(shard, d);
    }
  }

  /** Shard `j` after an expiry pass that stops at `stopAt`. */
  lemma ExpireShardAt<K(!new)>(m: CMap<K>, ttl: bv32, now: bv32, stopAt: nat, j: nat, d: int)
    requires WellFormed(m) && j < ShardCount && d == WrappingDeadline(now, ttl)
    ensures j < stopAt ==> Expire(m, ttl, now, stopAt).0.shards[j] == Evict(m.shards[j], d)
    ensures stopAt <= j ==> Expire(m, ttl, now, stopAt).0.shards[j] == m.shards[j]
  {
  }

  /** The source as written: one minute after process start, with the
      one-hour time-to-live the process uses, an entry written 30 seconds
      ago is removed, because `60 - 3600` wraps round to a deadline near
      2^32. */
  lemma ExpireWrapsEarly(xxh: string -> bv64)
    ensures var m := Set(NewCMap(), xxh, "a.b", 0, 30);
      Get(m, xxh, "a.b").ok && !Get(Expire(m, 3600, 60, ShardCount).0, xxh, "a.b").ok
  {
    var m := Set(NewCMap(), xxh, "a.b", 0, 30);
    assert Stamp(Get(m, xxh, "a.b").value) == 30 by {
      TestVectorStamp();
    }
    ExpireExact(m, xxh, 3600, 60, ShardCount, "a.b");
  }

  lemma TestVectorStamp()
    ensures Stamp(Update(0, 0, 30)) == 30
  {
  }

  /** The corrected eviction removes exactly the visited entries written
      more than `ttl` seconds before `now`. */
  lemma ExpireSaturatingExact<K(!new)>(m: CMap<K>, xxh: K -> bv64, ttl: bv32, now: bv32, stopAt: nat, key: K)
    requires WellFormed(m)
    ensures var before := Get(m, xxh, key);
      var removed := before.ok && ShardIndex(xxh, key) < stopAt
        && now as int - Stamp(before.value) as int > ttl as int;
      Get(ExpireSaturating(m, ttl, now, stopAt).0, xxh, key) == if removed then Lookup(false, 0) else before
  {
  }

  /** Once `ttl` seconds have passed the source's eviction and the
      corrected one agree. */
  lemma ExpireAgreesAfterTtl<K(!new)>(m: CMap<K>, ttl: bv32, now: bv32, stopAt: nat)
    requires WellFormed(m) && ttl as int <= now as int
    ensures Expire(m, ttl, now, stopAt) == ExpireSaturating(m, ttl, now, stopAt)
  {
  }
}
