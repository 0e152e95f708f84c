# Uploader cache and tree decomposition of carbon-clickhouse

This project models the caching core of the carbon-clickhouse uploaders in
Dafny and proves its properties. It covers three parts.

**The sharded existence cache `CMap`** (`uploader/cmap.go`). Modules
`Packed`, `ShardedCache` and `ShardedCacheProps`.

- 128 shards, each a map from key to a packed `uint64`.
- The low 32 bits hold the time of the last write, relative to process start.
- Bit `32+id` records that the table with id `id` knows the key.
- `Set`, `Exists`, `Get`, `Merge`, `Clear` and the cancellable `Expire`
  scan are pure functions on a sequence of 128 maps with `bv64` values.
  `Count` is a loop whose result is stated against `SumSizes`, the sum of
  the shard sizes.
- Go's `uint8` addition `32+id` and its `uint64` shift are modelled exactly:
  - ids 32..223 produce no flag at all;
  - ids 224..255 wrap round into the timestamp bits.
- The shard hash (xxhash) is a parameter `xxh`.

**The tree decomposition `Tree.parseFile`** (`uploader/tree.go`). Module `Tree`.

- A batch of dotted metric paths becomes rows `(level, path, version)`: each
  new leaf, followed by those of its ancestors `a.b.`, `a.` that the batch has
  not yet emitted.
- A working set holds the keys the batch has emitted. A leaf is keyed by its
  SHA-1 digest and an ancestor by its own bytes, modelled as
  `Key = Leaf(Sha1(path)) | Prefix(path)`.
- The parser is modelled as methods that write row by row into a sink that
  may fail at a given row.
- Their contracts are stated against the pure functions:
  - `Walk` is the ancestor loop;
  - `Visit` is one record;
  - `Decompose` is the whole batch.

**The cached uploader's upload step** (`uploader/cached.go`). Module `Cached`.

- Which error an upload reports, and when the batch's keys are merged into
  the shared cache.
- How tables get their ids from the global `uint8` counter.
- The consume-and-reset `Stat` of the expired counter.

## Modelling decisions and disagreements

- **`existsCache`.** `uploader/tree.go:71` calls `u.existsCache.Exists(key)`
  with one argument. That field is commented out in `uploader/cached.go:34`
  and `uploader/cached.go:43`. It is modelled as the global cache consulted
  for the table's own id, `Exists(cache, key, id)`, which is the only cache
  the uploader has (`uploader/cached.go:16`).
- **`pathLevel`.** `pathLevel` is defined elsewhere in the package and its
  text is not modelled. It is taken to be the number of `.`-separated segments (dots plus one).
  - With that definition the ancestor loop never meets
    `LastIndexByte == -1`, for any path (`Tree.WalkStep`).
  - So no precondition on empty or trailing segments is needed, and none is
    imposed.
  - A path that ends in `.` is its own innermost ancestor, the one at level
    `DotCount` that the walk emits first. `a.` is emitted at level 2 and
    again at level 1; `a.b.` is emitted at level 3, again at level 2, and
    then `a.` at level 1 (`Tree.TrailingDotExample`,
    `Tree.AncestorIsProperPrefix`).
- **Ids 224..255.** It is tempting to say that every id of 32 or more
  yields no flag, but the code does otherwise. Ids 32..223 yield none, and
  ids 224..255 wrap into the timestamp (`Packed.FlagBitLayout`,
  `Packed.WrappedIdCorruptsStamp`). The code is followed. One consequence
  is listed under "## Findings": table 224 is credited with keys that other
  tables wrote (`ShardedCacheProps.WrappedIdCreditedByOthers`).
- **`Stat`.** The expired counter is meant to be consumed and reset to zero
  on each read. The code subtracts the value it loaded, so an addition made
  between the load and the subtraction would survive to the next read
  (`Cached.Stat`, `Cached.StatTwice`). In the code as it stands nothing
  ever adds to a table's counter: the only expiry worker is the one
  started at `uploader/cached.go:21`, whose counter is `nil`, so the
  addition at `uploader/cmap.go:138-140` never runs, and the per-table
  worker that would pass the counter is commented out at
  `uploader/cached.go:66-70`. So `Stat` always reports 0 today, which is
  the model's case `added = 0`. The general `added` covers the worker if
  it is enabled again.
- **The `select` of `uploader/cached.go:106-111`.** When both cases are
  ready, Go picks either one. The choice is a parameter `Select`.
- **SHA-1.** The digest is a constructor `Sha1(path)`. This makes it
  injective, which is all the decomposition relies on.
- **The loop in `Merge`.** Go's loop runs in map iteration order.
  `ShardedCache.MergeInOrder` is that loop for any order. It equals the
  order-free `ShardedCache.Merge` (`ShardedCacheProps.MergeInOrderIsMerge`).

## Model

| member | source | states |
|---|---|---|
| Packed.Stamp | uploader/cmap.go:116 | the stamp read back is the low 32 bits of the packed value |
| Packed.Compose | uploader/cmap.go:89-91 | a value built from a flag half and a stamp half reads back exactly those halves |
| Packed.Decomposition | uploader/cmap.go:89-91 | every packed value is its flag half above its stamp half |
| Packed.FlagBitLayout | uploader/cmap.go:70 | `1<<(32+id)` lands in the flag half for ids below 32, is zero for 32..223 and lands in the stamp half for 224..255 |
| Packed.Update | uploader/cmap.go:88-91 | for an in-range id the flags gain bit `id` and the stamp becomes `ts`; for 32..223 the flags stay and the stamp becomes `ts`; for 224..255 the flags stay and the stamp is `ts` with an extra bit |
| Packed.KnownReadsFlag | uploader/cmap.go:70 | for an id below 32, `Exists`' test is exactly "flag bit `id` is set" |
| Packed.HighIdNeverKnown | uploader/cmap.go:70 | no value is known for an id in 32..223 |
| Packed.UpdateSetsFlag | uploader/cmap.go:89-91 | after an update for an in-range id, that id is known |
| Packed.UpdateKeepsFlags | uploader/cmap.go:89-91 | an update never clears an in-range flag |
| Packed.UpdateAddsOnlyItsFlag | uploader/cmap.go:89-91 | an update for one in-range id sets no other in-range flag |
| Packed.UpdateIdempotent | uploader/cmap.go:89-91 | updating twice with the same id and stamp equals updating once |
| Packed.FlagBitsDisjoint | uploader/cmap.go:90 | the flags of two in-range ids overlap exactly when the ids are equal, and none touches the stamp |
| Packed.MaskThroughRepack | uploader/cmap.go:89-91 | a mask on the flag half sees the old flags and the OR-ed bit, never the new stamp |
| Packed.RepackIdempotent | uploader/cmap.go:89-91 | repacking a repacked value with the same bit and stamp changes nothing |
| Packed.StampOfUpdate | uploader/cmap.go:89-91 | for ids below 224 the stamp read back is the stamp written |
| Packed.UpdateLastStampWins | uploader/cmap.go:89-91 | re-stamping keeps the flags and the later stamp wins |
| Packed.WrappedIdCorruptsStamp | uploader/cmap.go:90 | id 224 sets no flag, alters the stamp and then reads as known |
| Packed.WrappedIdReadsStampBit | uploader/cmap.go:70 | the flag of id 224 is the lowest stamp bit, so an update by any id below 224 with an odd stamp makes id 224 known |
| Packed.BoundedUpdateCreditsOnlyItself | uploader/cmap.go:89-91 | with ids bounded to the 32 flag bits, for every id the stamp is kept, an update credits its own table exactly when the id is below 32, and never another table |
| Packed.TestVectors | uploader/cmap_test.go:13-27 | the three packed values of the test and its five flag checks |
| ShardedCache.ShardIndex | uploader/cmap.go:58 | the shard of a key is always one of the 128 |
| ShardedCache.NewCMap | uploader/cmap.go:25-31 | a new cache has 128 shards, all empty |
| ShardedCache.Count | uploader/cmap.go:34-43 | the loop returns the sum of the shard sizes |
| ShardedCache.Clear | uploader/cmap.go:45-54 | every shard becomes empty, the total size is 0 and the returned count is always 0 |
| ShardedCache.GetShard | uploader/cmap.go:57-59 | under the placement invariant the selected shard holds the key exactly when some shard does |
| ShardedCache.Get | uploader/cmap.go:74-82 | under the placement invariant presence means the key is in the cache and the value returned is the one the cache holds for it; an absent key reads as value 0 |
| ShardedCache.Exists | uploader/cmap.go:62-71 | a key is known for an id only if it is present at all |
| ShardedCache.Set | uploader/cmap.go:85-94 | the key's entry becomes the updated old value (0 when absent); every other key and every other shard is unchanged; placement is kept |
| ShardedCache.Merge | uploader/cmap.go:96-100 | every key of the batch becomes its updated old value, every other key is unchanged, placement is kept |
| ShardedCache.Evict | uploader/cmap.go:115-121 | a shard keeps exactly its entries whose stamp is not below the deadline, values untouched |
| ShardedCache.ExpireFrom | uploader/cmap.go:105-123 | from shard `i` on, shards before the cancellation point are evicted and the rest untouched; removed plus kept equals the size before |
| ShardedCache.WrappingDeadline | uploader/cmap.go:103 | `now - ttl` when `ttl <= now`, otherwise `now - ttl + 2^32` |
| ShardedCache.Expire | uploader/cmap.go:102-126 | shards before the cancellation point lose their stale entries, shards from it on are untouched, and the returned count is the number of entries removed |
| ShardedCache.SaturatingDeadline | uploader/cmap.go:103 | corrected deadline: `now - ttl` when `ttl <= now`, otherwise 0 |
| ShardedCache.ExpireSaturating | uploader/cmap.go:102-126 | corrected `Expire`: the same scan with the saturating deadline |
| ShardedCacheProps.NewCMapEmpty | uploader/cmap.go:25-31 | a fresh cache is placed and holds no key |
| ShardedCacheProps.EmptyCacheKnowsNothing | uploader/cmap.go:62-71 | a fresh cache credits no key to any table |
| ShardedCacheProps.CountIsDistinctKeys | uploader/cmap.go:34-43 | under the placement invariant `Count` is the number of distinct keys |
| ShardedCacheProps.SumIsKeysBelow | uploader/cmap.go:36-41 | after `n` shards the running count is the number of keys in those shards |
| ShardedCacheProps.ClearEmpties | uploader/cmap.go:45-54 | after `Clear` the cache is placed and holds no key |
| ShardedCacheProps.SetThenExists | uploader/cmap.go:85-94 | after `Set(k, id, ts)` with `id < 32`, `Exists(k, id)` holds |
| ShardedCacheProps.WrappedIdCreditedByOthers | uploader/cmap.go:62-71 | after a `Set` by any id below 224 with an odd stamp, table 224 finds the key |
| ShardedCacheProps.WrappedIdExample | uploader/cmap.go:62-71 | table 0 writes a key at second 123 into a fresh cache; table 224, which did not find it before, finds it now |
| ShardedCacheProps.SetKeepsFlags | uploader/cmap.go:88-92 | `Set` never makes any key unknown to any in-range table |
| ShardedCacheProps.SetAddsOnlyItsFlag | uploader/cmap.go:88-92 | `Set` for one in-range id does not make the key known to another |
| ShardedCacheProps.TwoTablesShareEntry | uploader/cmap.go:85-94 | two tables setting one key both know it and the later stamp is kept |
| ShardedCacheProps.HighIdNeverExists | uploader/cmap.go:62-71 | a table with an id in 32..223 is never credited with any key |
| ShardedCacheProps.SetIdempotent | uploader/cmap.go:85-94 | setting a key twice with the same arguments equals setting it once |
| ShardedCacheProps.CMapTestVectors | uploader/cmap_test.go:9-28 | the test's sequence of `Set`, `Get` and `Exists` results, for every shard hash |
| ShardedCacheProps.MergeInOrderIsMerge | uploader/cmap.go:96-100 | the Go loop, modelled as `ShardedCache.MergeInOrder`, in any iteration order equals `Merge` of the order's key set; this is the row for the loop |
| ShardedCacheProps.MergeOrderIndependent | uploader/cmap.go:97-99 | two iteration orders of one key set give the same cache |
| ShardedCacheProps.MergeNothing | uploader/cmap.go:96-100 | merging an empty batch leaves the cache unchanged |
| ShardedCacheProps.MergeMakesKnown | uploader/cmap.go:96-100 | after `Merge` every key of the batch is known to the merging in-range table |
| ShardedCacheProps.MergeKeepsKnown | uploader/cmap.go:96-100 | `Merge` never forgets what an in-range table knew |
| ShardedCacheProps.MergeAfterSet | uploader/cmap.go:97-99 | one `Set` followed by a merge equals merging with that key added |
| ShardedCacheProps.ExpireExact | uploader/cmap.go:113-121 | a key disappears exactly when it was present in a visited shard with a stamp below the wrapped deadline; otherwise its lookup is unchanged |
| ShardedCacheProps.ExpirePlaced | uploader/cmap.go:115-121 | expiry keeps the placement invariant and only removes keys |
| ShardedCacheProps.EvictIdempotent | uploader/cmap.go:115-121 | evicting a shard twice with one deadline equals evicting once |
| ShardedCacheProps.ExpireResumes | uploader/cmap.go:105-111 | a pass cancelled at one shard, then a pass with the same clock that gets at least as far, ends with the same cache as that second pass run alone; the two counts add up to its count |
| ShardedCacheProps.ExpireWrapsEarly | uploader/cmap.go:103 | as written: 60 s after start with a 3600 s time-to-live, an entry stamped 30 is removed |
| ShardedCacheProps.ExpireSaturatingExact | uploader/cmap.go:102-126 | corrected: a visited key is removed exactly when it was written more than `ttl` seconds before `now` |
| ShardedCacheProps.ExpireAgreesAfterTtl | uploader/cmap.go:103 | once `ttl` seconds have passed, the code's and the corrected eviction agree |
| Tree.LastIndexByte | uploader/tree.go:89 | the result is -1 or an index below the end holding the byte |
| Tree.LastIndexByteIsLast | uploader/tree.go:89 | no later index holds the byte, and -1 means no index does |
| Tree.CutAtLastDot | uploader/tree.go:89-100 | on a path with a dot, the cut index is never -1; keeping the dot keeps the dot count and dropping it removes one |
| Tree.AncestorAtIsPrefix | uploader/tree.go:89-100 | the ancestor at level `k` is the prefix of the path that ends in a dot and holds exactly `k` dots |
| Tree.AncestorOfAncestor | uploader/tree.go:89-100 | an ancestor's own ancestor at level `j` is the path's ancestor at level `j`, and the ancestor at level `k` has `k` dots |
| Tree.Walk | uploader/tree.go:86-101 | the ancestor loop emits at most one row per level |
| Tree.WalkStep | uploader/tree.go:89-94 | each step's prefix is the ancestor at the current level, and `LastIndexByte` never returns -1 |
| Tree.WalkRows | uploader/tree.go:86-101 | row `i` of the walk is the ancestor at level `l - i` with that level, so levels fall strictly |
| Tree.WalkRowAt | uploader/tree.go:86-101 | the same for one row, by induction on the level |
| Tree.WalkVersions | uploader/tree.go:50 | every ancestor row carries the batch's version |
| Tree.WalkStops | uploader/tree.go:90-92 | a walk that ends above level 1 ended at an ancestor the working set already held |
| Tree.WalkKeys | uploader/tree.go:94 | the working set gains exactly the emitted ancestors |
| Tree.WalkFresh | uploader/tree.go:90-94 | every emitted ancestor was new, so the set grows by one key per row |
| Tree.WalkCovers | uploader/tree.go:86-101 | from a working set that holds every ancestor of each ancestor in it, the set after the walk holds every ancestor of the record at the starting level and below, including those above the point where the walk stopped |
| Tree.WalkStaysClosed | uploader/tree.go:86-101 | such a working set keeps that property through the walk |
| Tree.Visit | uploader/tree.go:63-101 | one record only grows the working set, by one key per emitted row, and all its rows carry the version |
| Tree.VisitSkips | uploader/tree.go:63-77 | a tagged record, or one whose leaf the cache credits to this table or the batch has, emits nothing and leaves the set alone, and only those do |
| Tree.VisitLeafFirst | uploader/tree.go:79-84 | a new record's first row is itself at its level; the set gains its leaf and exactly the emitted ancestors |
| Tree.VisitAncestors | uploader/tree.go:86-101 | the rows after the leaf are its ancestors, innermost first, each at its own level |
| Tree.VisitStops | uploader/tree.go:88-92 | the walk ends above level 1 only at an ancestor the batch already had |
| Tree.Decompose | uploader/tree.go:56-102 | the whole batch: one key per row, every row with the version |
| Tree.VisitKeepsHierarchy | uploader/tree.go:57-102 | one record keeps the working set holding every ancestor of each ancestor and of each leaf in it |
| Tree.DecomposeKeepsHierarchy | uploader/tree.go:86-101 | the batch's set holds every ancestor of each ancestor in it, and all ancestors of every record whose leaf it holds, which is why the walk may stop at the first ancestor already present |
| Tree.AncestorIsProperPrefix | uploader/tree.go:89-100 | an ancestor is a proper prefix unless the path ends in a dot and the ancestor is the innermost one (level `DotCount`, the first one walked) |
| Tree.TrailingDotExample | uploader/tree.go:80-94 | `a.` has level 2 and is its own ancestor at level 1; `a.b.` has level 3, is its own ancestor at level 2, and has `a.` at level 1 |
| Tree.AbcAncestors | uploader/tree.go:86-101 | `a.b.c` has two dots and ancestors `a.b.` and `a.` |
| Tree.AbcVisit | uploader/tree.go:63-101 | a new `a.b.c` yields three rows at levels 3, 2, 1 and three new keys |
| Tree.AbcRows | uploader/tree.go:79-101 | the three rows of a new `a.b.c` |
| Tree.OneRecordExample | uploader/tree.go:56-102 | the batch `a.b.c` on an empty cache |
| Tree.AbdVisit | uploader/tree.go:88-92 | after `a.b.` is known, `a.b.d` adds only its own row |
| Tree.SharedAncestorsExample | uploader/tree.go:88-92 | the batch `a.b.c, a.b.d` yields four rows, not six |
| Tree.DecomposePrefix | uploader/tree.go:56-102 | rows are only appended: the rows of the first records start the rows of the batch |
| Tree.DecomposeCoversLeaves | uploader/tree.go:71-79 | every untagged record's leaf is credited by the cache or in the returned set |
| Tree.DecomposeConsultsOnlyLeaves | uploader/tree.go:71 | the cache is consulted only for leaves: caches that agree on the batch's leaves decompose it alike |
| Tree.KnownBatchEmitsNothing | uploader/tree.go:63-73 | a batch whose untagged leaves are all credited writes no row and collects no key |
| Tree.WalkWriting | uploader/tree.go:86-101 | writing the ancestor loop either writes all its rows and returns its set, or stops exactly at the refused row |
| Tree.VisitWriting | uploader/tree.go:63-101 | the same for one record |
| Tree.WriteRecords | uploader/tree.go:56-102 | the record loop writes the whole batch and returns its set, or stops exactly at the refused row |
| Tree.ParseFile | uploader/tree.go:29-105 | an unreadable file returns its error and writes nothing; a refused row returns the write error after exactly the rows before it; otherwise all rows are written and the batch's set is returned |
| Cached.NewCached | uploader/cached.go:45-46 | a table takes the counter as its id and the counter moves on by one, 255 wrapping to 0 |
| Cached.AllocateIdAt | uploader/cached.go:45-46 | the `i`-th table created gets the starting counter plus `i`, modulo 256 |
| Cached.AllocateDistinct | uploader/cached.go:45-46 | up to 256 tables created in a row get pairwise distinct ids |
| Cached.AllocateWraps | uploader/cached.go:45-46 | tables created 256 apart share an id |
| Cached.HighIdIgnoresCache | uploader/tree.go:71-73 | a table with an id in 32..223 decomposes every batch as if the cache were empty |
| Cached.Stat | uploader/cached.go:55-57 | the report is the loaded value, and whatever was added after the load stays in the counter |
| Cached.StatTwice | uploader/cached.go:55-57 | two reports account, modulo 2^32, for every addition up to the second load |
| Cached.Upload | uploader/cached.go:79-125 | cancellation reports "upload aborted"; a parse error beats a flush error, which beats the insert error; the cache is merged with the batch at the start time exactly when no error is reported, and is untouched otherwise |
| Cached.CommitCoversRecords | uploader/cached.go:121-122 | after a commit every untagged record of the file is known to an in-range table |
| Cached.UploadFile | uploader/cached.go:79-125 | a failed upload leaves the cache unchanged; a successful one wrote every row of the batch and, for an in-range id, leaves a cache on which the same file writes no row |

## Left out

- Locking: the `sync.RWMutex` of every shard. The operations are modelled as atomic functions on the whole cache.
- `ExpireWorker` (`uploader/cmap.go:128-143`) and the `init` goroutine that starts it: a timer loop. `Expire` models one pass. The worker started there passes a `nil` counter and adds to no table's counter.
- Cached.Stat: `added` generalises a counter the current source never increments (see `Stat` above); `added = 0` is the source's behaviour. The worker's `uint32(cnt)` conversion of the pass count is not modelled; `added` is any `uint32`.
- The pipe, `bufio` writer and insert goroutine of `upload`. Only their outcomes are modelled: the parser's result, the flush error and the reported insert error.
- `insertRowBinary`, the RowBinary reader and the `WriteUint32`/`WriteBytes` encoders. Rows are tuples, and a records file is a sequence of paths or a read error.
- Tree.ParseFile: a write fails for a whole row, never after part of a row has been written.
- Tree.Row: the level is unbounded. The `uint32(level)` conversion at `uploader/tree.go:44` would only matter for paths with more than 2^32 segments.
- xxhash and SHA-1. The shard hash is a parameter; SHA-1 is an injective constructor.
- `unsafeString`: zero-copy aliasing, with no effect on values.
- Clocks: `timeRel()` and `time.Now()` become the parameters `now`, `startTime` and `version`.
- Cache keys: leaf digests and ancestor bytes are distinct constructors. A 20-byte ancestor string equal to some digest, which the source would confuse, is not modelled.
- Logging, `DebugCacheDumper`, `Start`, `Reset` and the constructors' query strings.
- `Merge` keys: the Go loop ranges over every key of the batch map, whatever its value, and the parser only stores `true`; the model takes the batch as a set of keys.

## Findings

| source | as written | input that shows it | evidently intended | confidence | as-written member | corrected member |
|---|---|---|---|---|---|---|
| uploader/cmap.go:103 | the deadline `timeRel() - ttl` is a `uint32` subtraction that wraps round while fewer than `ttl` seconds have passed since start, so the deadline is near 2^32 and every entry is stale | 60 s after start, `ttl` 3600, an entry stamped 30 s: removed | entries are removed only when written more than `ttl` seconds ago, so nothing is removed during the first `ttl` seconds | not executed | ShardedCacheProps.ExpireWrapsEarly | ShardedCacheProps.ExpireSaturatingExact |
| uploader/cmap.go:70 | the flag shift `32+id` is a `uint8` sum, so for ids 224..255 it wraps into the stamp bits; id 224's flag is stamp bit 0 | table 0 writes key `k` at second 123 into a fresh cache; table 224 then finds `k` and skips its rows | a table is credited only with keys it wrote itself; ids past the 32 flag bits get no flag | not executed | ShardedCacheProps.WrappedIdExample | Packed.BoundedUpdateCreditsOnlyItself |
