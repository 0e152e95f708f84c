/** The packed 64-bit value stored for every cache key (uploader/cmap.go).
    The low 32 bits hold the last-write time, relative to process start;
    bit `32+id` records that table `id` knows the key. Go evaluates `32+id`
    in `uint8` arithmetic and shifts a `uint64`, so ids 32..223 produce no
    flag at all and ids 224..255 wrap round into the timestamp bits; both
    are modelled exactly. Both halves are kept as `bv64` values below 2^32. */
module Packed {

  /** The low half of a value, extracted as cmap.go:116 does it. */
  function Low(v: bv64): bv64
  {
    v << 32 >> 32
  }

  /** The high half of a value: its bit `i` is the flag of table `i`. */
  function Flags(v: bv64): bv64
  {
    v >> 32
  }

  /** The timestamp as the `uint32` that cmap.go:116 compares. */
  function Stamp(v: bv64): (t: bv32)
    ensures t as bv64 == Low(v)
  {
    Low(v) as bv32
  }

  /** The independent description of the layout: flags above, stamp below. */
  function Compose(flags: bv64, low: bv64): (v: bv64)
    requires flags < 0x1_0000_0000 && low < 0x1_0000_0000
    ensures Flags(v) == flags && Low(v) == low
  {
    (flags << 32) | low
  }

  /** Every 64-bit value is exactly its two halves. */
  lemma Decomposition(v: bv64)
    ensures Flags(v) < 0x1_0000_0000 && Low(v) < 0x1_0000_0000
    ensures Compose(Flags(v), Low(v)) == v
  {
  }

  /** `1 << (32 + id)` with Go's `uint8` addition and `uint64` shift,
      where a shift by 64 or more yields 0. */
  function FlagBit(id: bv8): bv64
  {
    var shift: bv8 := 32 + id;
    if shift < 64 then (1 as bv64) << shift else 0
  }

  /** Where the flag of each id lands: in the high half for ids below 32,
      nowhere for 32..223, and in the timestamp half for 224..255. */
  lemma FlagBitLayout(id: bv8)
    ensures id < 32 ==> Low(FlagBit(id)) == 0 && Flags(FlagBit(id)) == (1 as bv64) << id
    ensures 32 <= id < 224 ==> FlagBit(id) == 0
    ensures 224 <= id ==> Flags(FlagBit(id)) == 0 && Low(FlagBit(id)) == (1 as bv64) << (id - 224)
  {
  }

  /** Whether a packed value records table `id` (cmap.go:70). */
  predicate Known(v: bv64, id: bv8)
  {
    v & FlagBit(id) != 0
  }

  /** The value written by `CMap.Set` (cmap.go:89-91): drop the old stamp,
      OR in the table's flag bit, OR in the new stamp. */
  function Update(v: bv64, id: bv8, ts: bv32): (r: bv64)
    ensures id < 32 ==> Flags(r) == Flags(v) | ((1 as bv64) << id) && Low(r) == ts as bv64
    ensures 32 <= id < 224 ==> Flags(r) == Flags(v) && Low(r) == ts as bv64
    ensures 224 <= id ==> Flags(r) == Flags(v) && Low(r) == (ts as bv64) | ((1 as bv64) << (id - 224))
  {
    ((v >> 32) << 32) | FlagBit(id) | (ts as bv64)
  }

  /** For an in-range id, `Known` reads exactly the table's flag bit. */
  lemma KnownReadsFlag(v: bv64, id: bv8)
    requires id < 32
    ensures Known(v, id) <==> Flags(v) & ((1 as bv64) << id) != 0
  {
  }

  /** Ids 32..223 have no flag bit: no value is known for them. */
  lemma HighIdNeverKnown(v: bv64, id: bv8)
    requires 32 <= id < 224
    ensures !Known(v, id)
  {
  }

  /** After an update for an in-range id, that id is known. */
  lemma UpdateSetsFlag(v: bv64, id: bv8, ts: bv32)
    requires id < 32
    ensures Known(Update(v, id, ts), id)
  {
  }

  /** An update keeps every in-range flag the value already had. */
  lemma UpdateKeepsFlags(v: bv64, id: bv8, ts: bv32, j: bv8)
    requires j < 32 && Known(v, j)
    ensures Known(Update(v, id, ts), j)
  {
    FlagBitsDisjoint(j, j);
    MaskThroughRepack(v, FlagBit(id), ts, FlagBit(j));
  }

  /** An update for an in-range id sets no in-range flag but its own. */
  lemma UpdateAddsOnlyItsFlag(v: bv64, id: bv8, ts: bv32, j: bv8)
    requires id < 32 && j < 32 && j != id && !Known(v, j)
    ensures !Known(Update(v, id, ts), j)
  {
    FlagBitsDisjoint(id, j);
    MaskThroughRepack(v, FlagBit(id), ts, FlagBit(j));
  }

  /** Updating twice with the same arguments is the same as updating once. */
  lemma UpdateIdempotent(v: bv64, id: bv8, ts: bv32)
    ensures Update(Update(v, id, ts), id, ts) == Update(v, id, ts)
  {
    RepackIdempotent(v, FlagBit(id), ts as bv64);
  }

  /** Flags of two in-range ids overlap exactly when the ids are equal. */
  lemma FlagBitsDisjoint(i: bv8, j: bv8)
    requires i < 32 && j < 32
    ensures Low(FlagBit(j)) == 0
    ensures FlagBit(i) & FlagBit(j) != 0 <==> i == j
  {
  }

  /** Reading a high-half mask through the repacking of cmap.go:89-91 sees
      the old value's bits and the OR-ed bit, never the stamp. */
  lemma MaskThroughRepack(v: bv64, bit: bv64, t: bv32, mask: bv64)
    requires Low(mask) == 0
    ensures (((v >> 32) << 32) | bit | (t as bv64)) & mask != 0 <==> v & mask != 0 || bit & mask != 0
  {
  }

  /** Repacking a repacked value with the same bit and stamp changes nothing. */
  lemma RepackIdempotent(v: bv64, bit: bv64, t: bv64)
    requires t < 0x1_0000_0000
    ensures (((((v >> 32) << 32) | bit | t) >> 32) << 32) | bit | t == ((v >> 32) << 32) | bit | t
  {
  }

  /** For every id below 224 the stamp read back is the stamp written. */
  lemma StampOfUpdate(v: bv64, id: bv8, ts: bv32)
    requires id < 224
    ensures Stamp(Update(v, id, ts)) == ts
  {
  }

  /** Re-stamping keeps the flags and the later stamp wins. */
  lemma UpdateLastStampWins(v: bv64, id: bv8, t1: bv32, t2: bv32)
    requires id < 224
    ensures Update(Update(v, id, t1), id, t2) == Update(v, id, t2)
    ensures Stamp(Update(Update(v, id, t1), id, t2)) == t2
  {
  }

  /** An id of 224 or more writes into the timestamp: no flag is set, the
      stamp is altered, and the id then reads as known. */
  lemma WrappedIdCorruptsStamp()
    ensures Update(0, 224, 122) == 0x7b
    ensures Known(Update(0, 224, 122), 224)
    ensures Flags(Update(0, 224, 122)) == 0
  {
  }

  /** The flag of table 224 is bit 0 of the value, the lowest stamp bit:
      any update with an odd stamp, by whichever table, credits it. */
  lemma WrappedIdReadsStampBit(v: bv64, id: bv8, ts: bv32)
    requires id < 224 && ts & 1 == 1
    ensures Known(Update(v, id, ts), 224)
  {
  }

  /** The layout with ids bounded to the 32 flag bits: an id of 32 or more
      gets no flag, instead of one computed in wrapped `uint8` arithmetic. */
  function BoundedFlagBit(id: bv8): bv64
  {
    if id < 32 then FlagBit(id) else 0
  }

  predicate KnownBounded(v: bv64, id: bv8)
  {
    v & BoundedFlagBit(id) != 0
  }

  function BoundedUpdate(v: bv64, id: bv8, ts: bv32): bv64
  {
    ((v >> 32) << 32) | BoundedFlagBit(id) | (ts as bv64)
  }

  /** With bounded ids, for every id: the stamp read back is the stamp
      written, an update credits its own table exactly when the id has a
      flag bit, and it never credits another table. */
  lemma BoundedUpdateCreditsOnlyItself(v: bv64, id: bv8, ts: bv32, j: bv8)
    requires j != id && !KnownBounded(v, j)
    ensures Stamp(BoundedUpdate(v, id, ts)) == ts
    ensures KnownBounded(BoundedUpdate(v, id, ts), id) <==> id < 32
    ensures !KnownBounded(BoundedUpdate(v, id, ts), j)
  {
    if id < 32 && j < 32 {
      FlagBitsDisjoint(id, j);
    }
  }

  /** The packed values asserted by uploader/cmap_test.go:13-21. */
  lemma TestVectors()
    ensures Update(0, 0, 123) == 0x1_0000_007b
    ensures Update(0x1_0000_007b, 1, 123) == 0x3_0000_007b
    ensures Update(0x3_0000_007b, 2, 124) == 0x7_0000_007c
    ensures Known(0x7_0000_007c, 0) && Known(0x7_0000_007c, 1) && Known(0x7_0000_007c, 2)
    ensures !Known(0x7_0000_007c, 3) && !Known(0, 0)
  {
  }
}
