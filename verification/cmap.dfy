/** The sharded existence cache `CMap` of uploader/cmap.go: 128 shards, each
    a map from key to packed value (see module Packed). Locks are not
    modelled; every operation is a pure function from the old shards to the
    new ones. The key type is generic: the uploader stores SHA-1 digests and
    raw path prefixes in it (module Tree). The xxhash used to pick a shard is
    not available, so every operation receives it as the parameter `xxh`. */
module ShardedCache {
  import opened Packed

  const ShardCount: nat := 128

  /** A cache value: one map per shard (cmap.go:16-22). */
  datatype CMap<K> = CMap(shards: seq<map<K, bv64>>)

  /** The result of `CMap.Get`: presence and Go's zero value when absent. */
  datatype Lookup = Lookup(ok: bool, value: bv64)

  /** Every cache built by `NewCMap` has exactly `shardCount` shards; the
      source indexes shards `0..127` without checking. */
  predicate WellFormed<K(!new)>(m: CMap<K>)
  {
    |m.shards| == ShardCount
  }

  /** The shard that owns `key` (cmap.go:58): xxhash modulo 128. */
  function ShardIndex<K(!new)>(xxh: K -> bv64, key: K): (i: nat)
    ensures i < ShardCount
  {
    (xxh(key) % 128) as nat
  }

  /** Representation invariant: every key lives in the shard it hashes to. */
  ghost predicate Placed<K(!new)>(m: CMap<K>, xxh: K -> bv64)
  {
    && WellFormed(m)
    && forall i, k :: 0 <= i < ShardCount && k in m.shards[i] ==> ShardIndex(xxh, k) == i
  }

  /** Every key held by some shard. */
  ghost function AllKeys<K(!new)>(m: CMap<K>): set<K>
  {
    set i, k | 0 <= i < |m.shards| && k in m.shards[i] :: k
  }

  /** The number of entries over the shards, in shard order. */
  function SumSizes<K(!new)>(s: seq<map<K, bv64>>): nat
  {
    if |s| == 0 then 0 else SumSizes(s[..|s| - 1]) + |s[|s| - 1]|
  }

  /** `NewCMap` (cmap.go:25-31): 128 empty shards. */
  function NewCMap<K(!new)>(): (m: CMap<K>)
    ensures WellFormed(m)
    ensures forall i :: 0 <= i < ShardCount ==> m.shards[i] == map[]
  {
    CMap(seq(ShardCount, _ => map[]))
  }

  /** `Count` (cmap.go:34-43): the shard sizes added up in shard order. */
  method Count<K(!new)>(m: CMap<K>) returns (n: nat)
    requires WellFormed(m)
    ensures n == SumSizes(m.shards)
  {
    n := 0;
    for i := 0 to ShardCount
      invariant n == SumSizes(m.shards[..i])
    {
      assert m.shards[..i + 1][..i] == m.shards[..i];
      n := n + |m.shards[i]|;
    }
    assert m.shards[..ShardCount] == m.shards;
  }

  /** `Clear` (cmap.go:45-54): every shard replaced by an empty map. The
      source's counter is never incremented, so the result is always 0. */
  function Clear<K(!new)>(m: CMap<K>): (res: (CMap<K>, int))
    requires WellFormed(m)
    ensures WellFormed(res.0)
    ensures forall i :: 0 <= i < ShardCount ==> res.0.shards[i] == map[]
    ensures SumSizes(res.0.shards) == 0
    ensures res.1 == 0
  {
    var cleared := NewCMap();
    EmptyShardsSumZero(cleared.shards);
    (cleared, 0)
  }

  /** `GetShard` (cmap.go:57-59). Under the placement invariant the shard
      it returns holds the key whenever any shard does. */
  function GetShard<K(!new)>(m: CMap<K>, xxh: K -> bv64, key: K): (shard: map<K, bv64>)
    requires WellFormed(m)
    ensures Placed(m, xxh) ==> (key in shard <==> key in AllKeys(m))
  {
    m.shards[ShardIndex(xxh, key)]
  }

  /** `Get` (cmap.go:74-82): presence and value, 0 when absent. */
  function Get<K(!new)>(m: CMap<K>, xxh: K -> bv64, key: K): (r: Lookup)
    requires WellFormed(m)
    ensures Placed(m, xxh) ==> (r.ok <==> key in AllKeys(m))
    ensures Placed(m, xxh) && r.ok ==> exists i :: 0 <= i < ShardCount && key in m.shards[i] && m.shards[i][key] == r.value
    ensures !r.ok ==> r.value == 0
  {
    var shard := GetShard(m, xxh, key);
    if key in shard then Lookup(true, shard[key]) else Lookup(false, 0)
  }

  /** `Exists` (cmap.go:62-71): the flag test on the value, where an absent
      key reads as 0 and so is known for no id at all. */
  function Exists<K(!new)>(m: CMap<K>, xxh: K -> bv64, key: K, id: bv8): (b: bool)
    requires WellFormed(m)
    ensures b ==> Get(m, xxh, key).ok
  {
    Known(Get(m, xxh, key).value, id)
  }

  /** `Set` (cmap.go:85-94): only the entry for `key` in its own shard
      changes, and it becomes the repacked old value (0 when absent). */
  function Set<K(!new)>(m: CMap<K>, xxh: K -> bv64, key: K, id: bv8, ts: bv32): (r: CMap<K>)
    requires WellFormed(m)
    ensures WellFormed(r)
    ensures Get(r, xxh, key) == Lookup(true, Update(Get(m, xxh, key).value, id, ts))
    ensures forall k :: k != key ==> Get(r, xxh, k) == Get(m, xxh, k)
    ensures forall i :: 0 <= i < ShardCount && i != ShardIndex(xxh, key) ==> r.shards[i] == m.shards[i]
    ensures Placed(m, xxh) ==> Placed(r, xxh)
  {
    var s := ShardIndex(xxh, key);
    CMap(m.shards[s := m.shards[s][key := Update(Get(m, xxh, key).value, id, ts)]])
  }

  /** The keys of `keys` that shard `i` owns. */
  function KeysOfShard<K(!new)>(xxh: K -> bv64, keys: set<K>, i: nat): set<K>
  {
    set k | k in keys && ShardIndex(xxh, k) == i
  }

  /** One shard after all of its keys in a batch are set. */
  function MergeShard<K(!new)>(shard: map<K, bv64>, here: set<K>, id: bv8, ts: bv32): map<K, bv64>
  {
    map k | k in shard.Keys + here ::
      if k in here then Update(if k in shard then shard[k] else 0, id, ts) else shard[k]
  }

  /** `Merge` (cmap.go:96-100), stated for the whole key set at once: every
      key of the batch gets this table's flag and the batch's stamp. The Go
      loop visits the keys in map order; `MergeInOrder` is that loop. */
  function Merge<K(!new)>(m: CMap<K>, xxh: K -> bv64, id: bv8, keys: set<K>, ts: bv32): (r: CMap<K>)
    requires WellFormed(m)
    ensures WellFormed(r)
    ensures forall k :: k in keys ==> Get(r, xxh, k) == Lookup(true, Update(Get(m, xxh, k).value, id, ts))
    ensures forall k :: k !in keys ==> Get(r, xxh, k) == Get(m, xxh, k)
    ensures Placed(m, xxh) ==> Placed(r, xxh)
  {
    var r := CMap(seq(ShardCount, i requires 0 <= i < ShardCount =>
      MergeShard(m.shards[i], KeysOfShard(xxh, keys, i), id, ts)));
    MergedShards(m, xxh, id, keys, ts, r);
    r
  }

  /** What a cache whose every shard is merged says about each key. */
  lemma MergedShards<K(!new)>(m: CMap<K>, xxh: K -> bv64, id: bv8, keys: set<K>, ts: bv32, r: CMap<K>)
    requires WellFormed(m) && WellFormed(r)
    requires forall i :: 0 <= i < ShardCount ==> r.shards[i] == MergeShard(m.shards[i], KeysOfShard(xxh, keys, i), id, ts)
    ensures forall k :: k in keys ==> Get(r, xxh, k) == Lookup(true, Update(Get(m, xxh, k).value, id, ts))
    ensures forall k :: k !in keys ==> Get(r, xxh, k) == Get(m, xxh, k)
    ensures Placed(m, xxh) ==> Placed(r, xxh)
  {
  }

  /** The loop of cmap.go:97-99 for one particular iteration order. */
  function MergeInOrder<K(!new)>(m: CMap<K>, xxh: K -> bv64, id: bv8, order: seq<K>, ts: bv32): (r: CMap<K>)
    requires WellFormed(m)
    ensures WellFormed(r)
    decreases |order|
  {
    if |order| == 0 then m
    else MergeInOrder(Set(m, xxh, order[0], id, ts), xxh, id, order[1..], ts)
  }

  /** The comparison of cmap.go:116-117: the stamp, read as a `uint32`,
      is below the deadline. */
  predicate Stale(v: bv64, deadline: int)
  {
    Stamp(v) as int < deadline
  }

  /** The entries of a shard that survive the scan of cmap.go:115-121:
      those that are not stale, values untouched. */
  function Evict<K(!new)>(shard: map<K, bv64>, deadline: int): (kept: map<K, bv64>)
    ensures forall k :: k in kept <==> k in shard && !Stale(shard[k], deadline)
    ensures forall k :: k in kept ==> kept[k] == shard[k]
    ensures |kept| <= |shard|
  {
    var kept := map k | k in shard && !Stale(shard[k], deadline) :: shard[k];
    SubsetSize(kept.Keys, shard.Keys);
    kept
  }

  /** The shard loop of cmap.go:105-123 from shard `i` on. `stopAt` is the
      first shard before which the context is seen cancelled (128 or more
      when it never is); the result pairs the new cache with the number of
      entries removed. */
  function ExpireFrom<K(!new)>(m: CMap<K>, deadline: int, stopAt: nat, i: nat): (res: (CMap<K>, nat))
    requires WellFormed(m) && i <= ShardCount
    ensures WellFormed(res.0)
    ensures forall j :: 0 <= j < ShardCount ==>
      res.0.shards[j] == if i <= j < stopAt then Evict(m.shards[j], deadline) else m.shards[j]
    ensures res.1 + SumSizes(res.0.shards) == SumSizes(m.shards)
    decreases ShardCount - i
  {
    if i == ShardCount || stopAt <= i then (m, 0)
    else
      var kept := Evict(m.shards[i], deadline);
      var next := ExpireFrom(CMap(m.shards[i := kept]), deadline, stopAt, i + 1);
      SumSizesUpdate(m.shards, i, kept);
      (next.0, next.1 + (|m.shards[i]| - |kept|))
  }

  /** A whole pass, from shard 0: the shards before `stopAt` are evicted. */
  lemma ExpireFromStart<K(!new)>(m: CMap<K>, deadline: int, stopAt: nat)
    requires WellFormed(m)
    ensures forall j :: 0 <= j < ShardCount ==>
      ExpireFrom(m, deadline, stopAt, 0).0.shards[j] == if j < stopAt then Evict(m.shards[j], deadline) else m.shards[j]
  {
  }

  const TimeWrap: int := 0x1_0000_0000

  /** The deadline of cmap.go:103: `timeRel() - ttl` in `uint32`
      arithmetic, which wraps round when `now < ttl`. */
  function WrappingDeadline(now: bv32, ttl: bv32): (d: int)
    ensures 0 <= d < TimeWrap
    ensures ttl as int <= now as int ==> d + ttl as int == now as int
    ensures now as int < ttl as int ==> d + ttl as int == now as int + TimeWrap
  {
    var diff := now as int - ttl as int;
    if diff < 0 then diff + TimeWrap else diff
  }

  /** `Expire` (cmap.go:102-126) as written, with `now` standing for
      `timeRel()`. */
  function Expire<K(!new)>(m: CMap<K>, ttl: bv32, now: bv32, stopAt: nat): (res: (CMap<K>, nat))
    requires WellFormed(m)
    ensures WellFormed(res.0)
    ensures forall j :: 0 <= j < ShardCount ==>
      res.0.shards[j] == if j < stopAt then Evict(m.shards[j], WrappingDeadline(now, ttl)) else m.shards[j]
    ensures res.1 + SumSizes(res.0.shards) == SumSizes(m.shards)
  {
    ExpireFromStart(m, WrappingDeadline(now, ttl), stopAt);
    ExpireFrom(m, WrappingDeadline(now, ttl), stopAt, 0)
  }

  /** The deadline the eviction evidently intends: nothing is older than
      `ttl` before `ttl` seconds have passed since process start. */
  function SaturatingDeadline(now: bv32, ttl: bv32): (d: int)
    ensures 0 <= d < TimeWrap
    ensures ttl as int <= now as int ==> d + ttl as int == now as int
    ensures now as int < ttl as int ==> d == 0
  {
    if ttl as int <= now as int then now as int - ttl as int else 0
  }

  /** `Expire` with the deadline corrected to saturate at 0. */
  function ExpireSaturating<K(!new)>(m: CMap<K>, ttl: bv32, now: bv32, stopAt: nat): (res: (CMap<K>, nat))
    requires WellFormed(m)
    ensures WellFormed(res.0)
    ensures forall j :: 0 <= j < ShardCount ==>
      res.0.shards[j] == if j < stopAt then Evict(m.shards[j], SaturatingDeadline(now, ttl)) else m.shards[j]
    ensures res.1 + SumSizes(res.0.shards) == SumSizes(m.shards)
  {
    ExpireFromStart(m, SaturatingDeadline(now, ttl), stopAt);
    ExpireFrom(m, SaturatingDeadline(now, ttl), stopAt, 0)
  }

  // ---------------------------------------------------------------------
  // Helper facts about sizes

  lemma SubsetSize<K(!new)>(a: set<K>, b: set<K>)
    requires a <= b
    ensures |a| <= |b|
  {
    assert b == a + (b - a);
  }

  lemma {:induction false} EmptyShardsSumZero<K(!new)>(s: seq<map<K, bv64>>)
    requires forall i :: 0 <= i < |s| ==> s[i] == map[]
    ensures SumSizes(s) == 0
  {
    if |s| > 0 {
      EmptyShardsSumZero(s[..|s| - 1]);
    }
  }

  /** Replacing one shard changes the total by the difference in sizes. */
  lemma {:induction false} SumSizesUpdate<K(!new)>(s: seq<map<K, bv64>>, i: nat, x: map<K, bv64>)
    requires i < |s|
    ensures SumSizes(s[i := x]) + |s[i]| == SumSizes(s) + |x|
  {
    var n := |s| - 1;
    if i == n {
      assert s[i := x][..n] == s[..n];
    } else {
      assert s[i := x][..n] == s[..n][i := x];
      SumSizesUpdate(s[..n], i, x);
    }
  }
}
