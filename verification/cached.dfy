/** The upload step shared by the cached uploaders (uploader/cached.go):
    which error an upload reports, when the batch's keys are committed to
    the shared cache, how tables obtain their ids, and how the count of
    expired entries is reported. The streaming between the parser and the
    network insert is not modelled; only its outcomes are, as parameters. */
module Cached {
  import opened Wrappers
  import opened ShardedCache
  import opened ShardedCacheProps
  import opened Tree

  // ---------------------------------------------------------------------
  // Table ids

  /** `newCached` (cached.go:45-46): the table takes the global counter as
      its id and the counter moves on, wrapping round in `uint8`. */
  function NewCached(counter: bv8): (res: (bv8, bv8))
    ensures res.0 == counter
    ensures counter < 255 ==> res.1 as int == counter as int + 1
    ensures counter == 255 ==> res.1 == 0
  {
    (counter, counter + 1)
  }

  /** The ids handed to `n` tables created one after another. */
  function Allocate(counter: bv8, n: nat): (ids: seq<bv8>)
    ensures |ids| == n
    decreases n
  {
    if n == 0 then []
    else var (id, next) := NewCached(counter); [id] + Allocate(next, n - 1)
  }

  /** The `i`-th table created gets the starting counter plus `i`, modulo
      256. */
  lemma {:induction false} AllocateIdAt(counter: bv8, n: nat, i: nat)
    requires i < n
    ensures Allocate(counter, n)[i] as int == (counter as int + i) % 256
    decreases i
  {
    if i > 0 {
      var next := NewCached(counter).1;
      AllocateIdAt(next, n - 1, i - 1);
      assert Allocate(counter, n)[i] == Allocate(next, n - 1)[i - 1];
      NextId(counter, next);
      ModShift(counter as int, i);
    }
  }

  /** The counter after one table, as an integer modulo 256. */
  lemma NextId(counter: bv8, next: bv8)
    requires next == NewCached(counter).1
    ensures next as int == (counter as int + 1) % 256
  {
    if counter < 255 {
      assert next as int == counter as int + 1;
    } else {
      assert next == 0;
    }
  }

  /** Adding one before or after reducing modulo 256 agrees. */
  lemma ModShift(c: int, i: int)
    requires 0 <= c && 0 < i
    ensures ((c + 1) % 256 + (i - 1)) % 256 == (c + i) % 256
  {
  }

  /** Up to 256 tables get pairwise distinct ids. */
  lemma AllocateDistinct(counter: bv8, n: nat)
    requires n <= 256
    ensures forall i, j :: 0 <= i < j < n ==> Allocate(counter, n)[i] != Allocate(counter, n)[j]
  {
    forall i, j | 0 <= i < j < n
      ensures Allocate(counter, n)[i] != Allocate(counter, n)[j]
    {
      AllocateIdAt(counter, n, i);
      AllocateIdAt(counter, n, j);
      ModDistinct(counter as int, i, j);
    }
  }

  /** Two offsets less than 256 apart land on different residues. */
  lemma ModDistinct(c: int, i: int, j: int)
    requires 0 <= c && 0 <= i < j && j - i < 256
    ensures (c + i) % 256 != (c + j) % 256
  {
  }

  /** Tables created 256 apart share an id: the counter wraps, so the
      257th table reuses the first one's flag bit. */
  lemma AllocateWraps(counter: bv8, n: nat, i: nat)
    requires i + 256 < n
    ensures Allocate(counter, n)[i + 256] == Allocate(counter, n)[i]
  {
    var ids := Allocate(counter, n);
    AllocateIdAt(counter, n, i);
    AllocateIdAt(counter, n, i + 256);
    ModPeriod(counter as int + i);
    SameId(ids[i + 256], ids[i]);
  }

  lemma SameId(a: bv8, b: bv8)
    requires a as int == b as int
    ensures a == b
  {
  }

  lemma ModPeriod(x: int)
    ensures (x + 256) % 256 == x % 256
  {
  }

  /** From the 33rd table on, ids 32..223 have no flag bit, so the cache
      never lets such a table skip a record: it decomposes every batch as
      if the cache were empty. */
  lemma HighIdIgnoresCache(cache: CMap<Key>, xxh: Key -> bv64, id: bv8, version: bv32, names: seq<Path>)
    requires WellFormed(cache) && 32 <= id < 224
    ensures Decompose(cache, xxh, id, version, names) == Decompose(NewCMap(), xxh, id, version, names)
  {
    forall i | 0 <= i < |names|
      ensures Exists(cache, xxh, Leaf(Sha1(names[i])), id) == Exists(NewCMap(), xxh, Leaf(Sha1(names[i])), id)
    {
      HighIdNeverExists(cache, xxh, Leaf(Sha1(names[i])), id);
      EmptyCacheKnowsNothing(xxh, id, Leaf(Sha1(names[i])));
    }
    DecomposeConsultsOnlyLeaves(cache, NewCMap(), xxh, id, version, names);
  }

  // ---------------------------------------------------------------------
  // The expired counter

  /** A `uint32` counter value; `Wrap32` is Go's wrap-around on it. */
  type Counter = x: int | 0 <= x < 0x1_0000_0000

  function Wrap32(x: int): (c: Counter)
  {
    x % 0x1_0000_0000
  }

  /** `Stat`'s consume-and-reset of the expired counter (cached.go:55-57):
      it reports the value it loaded, `seen`, and then atomically adds
      `-seen`, so whatever the expiry side added in between, `added`,
      stays in the counter for the next report. Returns the report and
      the counter afterwards. */
  function Stat(seen: Counter, added: Counter): (res: (Counter, Counter))
    ensures res.0 == seen
    ensures res.1 == added
  {
    var counter := Wrap32(seen + added);
    (seen, Wrap32(counter - seen))
  }

  /** Two reports in a row, with `a1` added before the first load, `a2`
      between the first load and its subtraction, and `a3` after: the
      two reports together account for every addition up to the second
      load, and the counter ends holding only `a3`. */
  lemma StatTwice(start: Counter, a1: Counter, a2: Counter, a3: Counter)
    ensures Wrap32(Stat(Wrap32(start + a1), a2).0 + Stat(Stat(Wrap32(start + a1), a2).1, a3).0)
      == Wrap32(start + a1 + a2)
    ensures Stat(Stat(Wrap32(start + a1), a2).1, a3).1 == a3
  {
    WrapAdd(start + a1, a2);
  }

  /** Wrapping an intermediate sum does not change the wrapped total. */
  lemma WrapAdd(x: int, y: int)
    ensures Wrap32(Wrap32(x) + y) == Wrap32(x + y)
  {
  }

  // ---------------------------------------------------------------------
  // The upload outcome

  /** How the `select` of cached.go:106-111 resolved: the inserting side
      reported its error (nil or not), or the context was cancelled. When
      both are ready Go picks either; the caller supplies the choice. */
  datatype Select = Reported(uploadErr: Option<Error>) | Cancelled

  /** `cached.upload` (cached.go:79-125) after parsing: the error it
      returns and the shared cache afterwards. `parsed` is the parser's
      result, `flushErr` the writer's flush error (only consulted when the
      parse succeeded, cached.go:99-101), `startTime` the relative time
      read before parsing (cached.go:82). */
  function Upload(cache: CMap<Key>, xxh: Key -> bv64, id: bv8, startTime: bv32,
                  parsed: Result<set<Key>, Error>, flushErr: Option<Error>, sel: Select): (res: (Option<Error>, CMap<Key>))
    requires WellFormed(cache)
    ensures WellFormed(res.1)
    ensures sel.Cancelled? ==> res.0 == Some(Aborted)
    ensures sel.Reported? && parsed.Failure? ==> res.0 == Some(parsed.error)
    ensures sel.Reported? && parsed.Success? && flushErr.Some? ==> res.0 == flushErr
    ensures sel.Reported? && parsed.Success? && flushErr.None? ==> res.0 == sel.uploadErr
    ensures res.0.None? <==> sel == Reported(None) && parsed.Success? && flushErr.None?
    ensures res.0.Some? ==> res.1 == cache
    ensures res.0.None? ==> res.1 == Merge(cache, xxh, id, parsed.value, startTime)
  {
    var err := if parsed.Failure? then Some(parsed.error) else flushErr;
    match sel
    case Cancelled => (Some(Aborted), cache)
    case Reported(uploadErr) =>
      if err.Some? then (err, cache)
      else if uploadErr.Some? then (uploadErr, cache)
      else (None, Merge(cache, xxh, id, parsed.value, startTime))
  }

  /** A committed batch covers every untagged record of the file: each
      leaf is known to the table afterwards, whether it was known before
      or was part of the batch (cached.go:121-122 with tree.go:71-79). */
  lemma CommitCoversRecords(cache: CMap<Key>, xxh: Key -> bv64, id: bv8, ts: bv32, version: bv32, names: seq<Path>)
    requires WellFormed(cache) && id < 32
    ensures forall i :: 0 <= i < |names| && '?' !in names[i] ==>
      Exists(Merge(cache, xxh, id, Decompose(cache, xxh, id, version, names).1, ts), xxh, Leaf(Sha1(names[i])), id)
  {
    var keys := Decompose(cache, xxh, id, version, names).1;
    DecomposeCoversLeaves(cache, xxh, id, version, names);
    forall i | 0 <= i < |names| && '?' !in names[i]
      ensures Exists(Merge(cache, xxh, id, keys, ts), xxh, Leaf(Sha1(names[i])), id)
    {
      var leaf := Leaf(Sha1(names[i]));
      if leaf in keys {
        MergeMakesKnown(cache, xxh, id, keys, ts, leaf);
      } else {
        MergeKeepsKnown(cache, xxh, id, keys, ts, leaf, id);
      }
    }
  }

  /** One upload of a records file end to end: parse while writing rows,
      then settle the outcome. A failed upload leaves the cache as it was;
      a successful one, for a table with an in-range id, leaves every
      untagged record known, so uploading the same file again writes no
      row at all. */
  method UploadFile(cache: CMap<Key>, xxh: Key -> bv64, id: bv8, startTime: bv32, version: bv32,
                    input: Input, sink: Sink, flushErr: Option<Error>, sel: Select)
    returns (err: Option<Error>, cache': CMap<Key>, written: seq<Row>)
    requires WellFormed(cache)
    ensures WellFormed(cache')
    ensures err.Some? ==> cache' == cache
    ensures err.None? ==> input.Readable? && sel == Reported(None)
    ensures err.None? && id < 32 ==> forall i :: 0 <= i < |input.records| && '?' !in input.records[i] ==>
      Exists(cache', xxh, Leaf(Sha1(input.records[i])), id)
    ensures err.None? && id < 32 ==> Decompose(cache', xxh, id, version, input.records) == ([], {})
    ensures err.None? ==> written == Decompose(cache, xxh, id, version, input.records).0
  {
    var parsed;
    parsed, written := ParseFile(cache, xxh, id, version, input, sink);
    err, cache' := Upload(cache, xxh, id, startTime, parsed, flushErr, sel).0,
                   Upload(cache, xxh, id, startTime, parsed, flushErr, sel).1;
    if err.None? && id < 32 {
      CommitCoversRecords(cache, xxh, id, startTime, version, input.records);
      KnownBatchEmitsNothing(cache', xxh, id, version, input.records);
    }
  }
}
