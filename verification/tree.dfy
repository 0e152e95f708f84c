/** The decomposition of a batch of dotted metric paths into the rows of
    the tree table (uploader/tree.go). A path `a.b.c` stands for itself at
    level 3 and for its ancestors `a.b.` (level 2) and `a.` (level 1). The
    batch keeps a working set of keys it has already emitted; the leaf is
    also checked against the shared cache, the ancestors never are. */
module Tree {
  import opened Wrappers
  import opened ShardedCache
  import opened ShardedCacheProps

  type Path = string

  /** The SHA-1 digest of a path (tree.go:68). The hash is kept abstract:
      one constructor per input makes it injective, which is the only
      property of SHA-1 the decomposition relies on. */
  datatype Digest = Sha1(input: Path)

  /** A key of the working set and of the cache: a leaf is keyed by its
      digest (tree.go:68-69), an ancestor by its own bytes (tree.go:90,94). */
  datatype Key = Leaf(digest: Digest) | Prefix(bytes: Path)

  /** One row of the tree table, in the field order of tree.go:43-54. */
  datatype Row = Row(level: nat, path: Path, version: bv32)

  // ---------------------------------------------------------------------
  // Paths
  //
  // The ancestor loop only ever shortens the path it walks (tree.go:100),
  // so every path it looks at is `name[..n]` for the record's `name` and
  // some end `n`. The functions below take that end explicitly.

  /** The number of `.` separators in `s[..n]`. */
  function DotsBefore(s: Path, n: nat): (d: nat)
    requires n <= |s|
    ensures d <= n
  {
    if n == 0 then 0 else DotsBefore(s, n - 1) + if s[n - 1] == '.' then 1 else 0
  }

  /** The number of separators in a whole path. */
  function DotCount(s: Path): nat
  {
    DotsBefore(s, |s|)
  }

  /** The level of a path: its number of `.`-separated segments. The
      helper `pathLevel` called at tree.go:80 is not part of this model;
      this is the meaning its use gives it. */
  function PathLevel(s: Path): nat
  {
    DotCount(s) + 1
  }

  /** Go's `bytes.LastIndexByte(s[:n], c)` (tree.go:89): the last index
      below `n` holding `c`, or -1 when there is none. */
  function LastIndexByte(s: Path, n: nat, c: char): (i: int)
    requires n <= |s|
    ensures -1 <= i < n
    ensures i >= 0 ==> s[i] == c
  {
    if n == 0 then -1
    else if s[n - 1] == c then n - 1
    else LastIndexByte(s, n - 1, c)
  }

  /** `LastIndexByte` finds the last occurrence, and finds one whenever
      there is one. */
  lemma {:induction false} LastIndexByteIsLast(s: Path, n: nat, c: char)
    requires n <= |s|
    ensures var i := LastIndexByte(s, n, c);
      && (forall j :: i < j < n ==> s[j] != c)
      && (i < 0 ==> forall j :: 0 <= j < n ==> s[j] != c)
  {
    if n > 0 {
      LastIndexByteIsLast(s, n - 1, c);
    }
  }

  /** Counting separators agrees with cutting the path first. */
  lemma {:induction false} DotsOfPrefix(s: Path, n: nat)
    requires n <= |s|
    ensures DotCount(s[..n]) == DotsBefore(s, n)
    decreases n
  {
    if n > 0 {
      DotsOfPrefix(s, n - 1);
      DotsAgree(s[..n], s, n - 1);
    }
  }

  /** Two paths that agree below `m` have the same count below `m`. */
  lemma {:induction false} DotsAgree(s: Path, t: Path, m: nat)
    requires m <= |s| && m <= |t| && forall j :: 0 <= j < m ==> s[j] == t[j]
    ensures DotsBefore(s, m) == DotsBefore(t, m)
    decreases m
  {
    if m > 0 {
      DotsAgree(s, t, m - 1);
    }
  }

  /** A longer prefix never has fewer separators; one that ends at a
      separator beyond `m` has more. */
  lemma {:induction false} DotsMonotone(s: Path, m: nat, n: nat)
    requires m <= n <= |s|
    ensures DotsBefore(s, m) <= DotsBefore(s, n)
    ensures m < n && s[n - 1] == '.' ==> DotsBefore(s, m) < DotsBefore(s, n)
    decreases n
  {
    if m < n {
      DotsMonotone(s, m, n - 1);
    }
  }

  /** Cutting at the last separator below `n`, as tree.go:89-100 does:
      keeping the separator keeps every separator, dropping it drops one. */
  lemma {:induction false} CutAtLastDot(s: Path, n: nat)
    requires n <= |s| && DotsBefore(s, n) > 0
    ensures 0 <= LastIndexByte(s, n, '.')
    ensures DotsBefore(s, LastIndexByte(s, n, '.')) + 1 == DotsBefore(s, n)
    ensures DotsBefore(s, LastIndexByte(s, n, '.') + 1) == DotsBefore(s, n)
    decreases n
  {
    if s[n - 1] != '.' {
      CutAtLastDot(s, n - 1);
    }
  }

  /** The end of the ancestor at level `k` within `s[..n]`: one past the
      `k`-th separator. */
  function AncestorEndBefore(s: Path, n: nat, k: nat): (e: nat)
    requires n <= |s| && 1 <= k <= DotsBefore(s, n)
    ensures 0 < e <= n && s[e - 1] == '.' && DotsBefore(s, e) == k
  {
    if DotsBefore(s, n - 1) >= k then AncestorEndBefore(s, n - 1, k) else n
  }

  /** A separator position is identified by the number of separators up
      to and including it. */
  lemma AncestorEndUnique(s: Path, e1: nat, e2: nat)
    requires 0 < e1 <= |s| && 0 < e2 <= |s|
    requires s[e1 - 1] == '.' && s[e2 - 1] == '.'
    requires DotsBefore(s, e1) == DotsBefore(s, e2)
    ensures e1 == e2
  {
    if e1 <= e2 {
      DotsMonotone(s, e1, e2);
    } else {
      DotsMonotone(s, e2, e1);
    }
  }

  /** The ancestor of `s` at level `k`: `s` up to and including its
      `k`-th separator. */
  function AncestorAt(s: Path, k: nat): (a: Path)
    requires 1 <= k <= DotCount(s)
    ensures 0 < |a| <= |s| && a[|a| - 1] == '.'
  {
    s[..AncestorEndBefore(s, |s|, k)]
  }

  /** The ancestor at level `k` is the prefix of `s` that ends in a
      separator and holds exactly `k` of them. */
  lemma AncestorAtIsPrefix(s: Path, k: nat)
    requires 1 <= k <= DotCount(s)
    ensures var a := AncestorAt(s, k);
      a == s[..|a|] && DotCount(a) == k
  {
    DotsOfPrefix(s, AncestorEndBefore(s, |s|, k));
  }

  /** Whatever end the search starts from, it finds the same ancestor. */
  lemma AncestorEndAnyBound(s: Path, n: nat, k: nat)
    requires n <= |s| && 1 <= k <= DotsBefore(s, n) && k <= DotCount(s)
    ensures AncestorEndBefore(s, n, k) == AncestorEndBefore(s, |s|, k)
  {
    DotsMonotone(s, n, |s|);
    AncestorEndUnique(s, AncestorEndBefore(s, n, k), AncestorEndBefore(s, |s|, k));
  }

  // ---------------------------------------------------------------------
  // Decomposition

  /** The ancestor keys of a run of rows. */
  function PrefixKeys(rows: seq<Row>): set<Key>
  {
    if |rows| == 0 then {} else {Prefix(rows[0].path)} + PrefixKeys(rows[1..])
  }

  /** The ancestor loop of tree.go:86-101 on the remaining path
      `name[..n]`, from level `l` down. It stops at the first prefix the
      working set already holds. `DotsBefore(name, n) == l` is the loop's
      invariant: it holds on entry because a leaf's level is its separator
      count plus one, and it keeps `LastIndexByte` from ever returning -1
      here, for every path. */
  function Walk(name: Path, n: nat, l: nat, ws: set<Key>, version: bv32): (res: (seq<Row>, set<Key>))
    requires n <= |name| && DotsBefore(name, n) == l
    ensures |res.0| <= l
    decreases l
  {
    if l == 0 then ([], ws)
    else
      CutAtLastDot(name, n);
      var index := LastIndexByte(name, n, '.');
      var prefix := name[..index + 1];
      if Prefix(prefix) in ws then ([], ws)
      else
        var rest := Walk(name, index, l - 1, ws + {Prefix(prefix)}, version);
        ([Row(l, prefix, version)] + rest.0, rest.1)
  }

  /** One step of the walk: the prefix it looks at is the ancestor at the
      current level. */
  lemma WalkStep(name: Path, n: nat, l: nat, index: int)
    requires n <= |name| && DotsBefore(name, n) == l && l > 0
    requires index == LastIndexByte(name, n, '.')
    ensures 0 <= index && DotsBefore(name, index) == l - 1
    ensures l <= DotCount(name)
    ensures name[..index + 1] == AncestorAt(name, l)
  {
    CutAtLastDot(name, n);
    DotsMonotone(name, n, |name|);
    AncestorEndAnyBound(name, n, l);
    AncestorEndUnique(name, index + 1, AncestorEndBefore(name, n, l));
  }

  /** One step of the walk past an ancestor the working set lacks: the
      cut is at `index`, the ancestor there is `prefix`. */
  lemma WalkUnfold(name: Path, n: nat, l: nat, ws: set<Key>, version: bv32, index: nat, prefix: Path)
    requires n <= |name| && DotsBefore(name, n) == l && l > 0
    requires index == LastIndexByte(name, n, '.') && prefix == name[..index + 1]
    requires Prefix(prefix) !in ws
    ensures DotsBefore(name, index) == l - 1
    ensures Walk(name, n, l, ws, version)
      == ([Row(l, prefix, version)] + Walk(name, index, l - 1, ws + {Prefix(prefix)}, version).0,
          Walk(name, index, l - 1, ws + {Prefix(prefix)}, version).1)
  {
    CutAtLastDot(name, n);
  }

  /** The rows of the walk are the ancestors of the record at levels `l`,
      `l-1`, ... in that order. */
  lemma WalkRows(name: Path, n: nat, l: nat, ws: set<Key>, version: bv32)
    requires n <= |name| && DotsBefore(name, n) == l
    ensures l <= DotCount(name)
    ensures forall i :: 0 <= i < |Walk(name, n, l, ws, version).0| ==>
      Walk(name, n, l, ws, version).0[i] == Row(l - i, AncestorAt(name, l - i), version)
  {
    DotsMonotone(name, n, |name|);
    forall i | 0 <= i < |Walk(name, n, l, ws, version).0|
      ensures Walk(name, n, l, ws, version).0[i] == Row(l - i, AncestorAt(name, l - i), version)
    {
      WalkRowAt(name, n, l, ws, version, i);
    }
  }

  /** Row `i` of the walk is the ancestor at level `l - i`. */
  lemma {:induction false} WalkRowAt(name: Path, n: nat, l: nat, ws: set<Key>, version: bv32, i: nat)
    requires n <= |name| && DotsBefore(name, n) == l
    requires i < |Walk(name, n, l, ws, version).0|
    ensures i < l <= DotCount(name)
    ensures Walk(name, n, l, ws, version).0[i] == Row(l - i, AncestorAt(name, l - i), version)
    decreases l
  {
    var index := LastIndexByte(name, n, '.');
    WalkStep(name, n, l, index);
    var prefix := name[..index + 1];
    var ws1 := ws + {Prefix(prefix)};
    WalkUnfold(name, n, l, ws, version, index, prefix);
    var rest := Walk(name, index, l - 1, ws1, version).0;
    if i > 0 {
      WalkRowAt(name, index, l - 1, ws1, version, i - 1);
    }
    RowAfterHead(name, l, version, prefix, rest, Walk(name, n, l, ws, version).0, i);
  }

  /** Reading row `i` of a walk that emitted `prefix` at level `l` and
      then `rest`. */
  lemma RowAfterHead(name: Path, l: nat, version: bv32, prefix: Path, rest: seq<Row>, rows: seq<Row>, i: nat)
    requires 1 <= l <= DotCount(name) && prefix == AncestorAt(name, l)
    requires rows == [Row(l, prefix, version)] + rest && i < |rows|
    requires i > 0 ==> i - 1 < l - 1 && rest[i - 1] == Row(l - 1 - (i - 1), AncestorAt(name, l - 1 - (i - 1)), version)
    ensures i < l && rows[i] == Row(l - i, AncestorAt(name, l - i), version)
  {
  }

  /** Every row of the walk carries the batch's version (tree.go:50). */
  lemma {:induction false} WalkVersions(name: Path, n: nat, l: nat, ws: set<Key>, version: bv32)
    requires n <= |name| && DotsBefore(name, n) == l
    ensures forall i :: 0 <= i < |Walk(name, n, l, ws, version).0| ==>
      Walk(name, n, l, ws, version).0[i].version == version
    decreases l
  {
    if l > 0 {
      CutAtLastDot(name, n);
      var index := LastIndexByte(name, n, '.');
      var prefix := name[..index + 1];
      if Prefix(prefix) !in ws {
        var ws1 := ws + {Prefix(prefix)};
        WalkUnfold(name, n, l, ws, version, index, prefix);
        WalkVersions(name, index, l - 1, ws1, version);
        var rest := Walk(name, index, l - 1, ws1, version).0;
        var rows := Walk(name, n, l, ws, version).0;
        forall i | 1 <= i < |rows|
          ensures rows[i].version == version
        {
          assert rows[i] == rest[i - 1];
        }
      }
    }
  }

  /** A walk that ends before level 1 ended at an ancestor the working set
      held when the walk began (tree.go:90-92). */
  lemma {:induction false} WalkStops(name: Path, n: nat, l: nat, ws: set<Key>, version: bv32)
    requires n <= |name| && DotsBefore(name, n) == l
    ensures |Walk(name, n, l, ws, version).0| < l ==>
      && l - |Walk(name, n, l, ws, version).0| <= DotCount(name)
      && Prefix(AncestorAt(name, l - |Walk(name, n, l, ws, version).0|)) in ws
    decreases l, 1
  {
    if l > 0 {
      var index := LastIndexByte(name, n, '.');
      WalkStep(name, n, l, index);
      var prefix := name[..index + 1];
      if Prefix(prefix) !in ws {
        WalkStopsLater(name, n, l, ws, version, index, prefix);
      } else {
        assert Walk(name, n, l, ws, version).0 == [];
      }
    }
  }

  /** The step of `WalkStops` past a new ancestor. */
  lemma {:induction false} WalkStopsLater(name: Path, n: nat, l: nat, ws: set<Key>, version: bv32, index: nat, prefix: Path)
    requires n <= |name| && DotsBefore(name, n) == l && l > 0
    requires index == LastIndexByte(name, n, '.') && prefix == name[..index + 1]
    requires l <= DotCount(name) && prefix == AncestorAt(name, l) && Prefix(prefix) !in ws
    ensures |Walk(name, n, l, ws, version).0| < l ==>
      && l - |Walk(name, n, l, ws, version).0| <= DotCount(name)
      && Prefix(AncestorAt(name, l - |Walk(name, n, l, ws, version).0|)) in ws
    decreases l, 0
  {
    var ws1 := ws + {Prefix(prefix)};
    WalkUnfold(name, n, l, ws, version, index, prefix);
    WalkStops(name, index, l - 1, ws1, version);
    var rest := Walk(name, index, l - 1, ws1, version).0;
    var rows := Walk(name, n, l, ws, version).0;
    assert |rows| == 1 + |rest|;
    if |rows| < l {
      StopSurvivesStep(name, l - |rows|, l, ws);
    }
  }

  /** The ancestor a walk stopped at is not the one it just added. */
  lemma StopSurvivesStep(name: Path, k: nat, l: nat, ws: set<Key>)
    requires 1 <= k < l <= DotCount(name)
    requires Prefix(AncestorAt(name, k)) in ws + {Prefix(AncestorAt(name, l))}
    ensures Prefix(AncestorAt(name, k)) in ws
  {
    AncestorsDiffer(name, k, l);
  }

  /** Ancestors at different levels are different paths. */
  lemma AncestorsDiffer(s: Path, j: nat, k: nat)
    requires 1 <= j <= DotCount(s) && 1 <= k <= DotCount(s) && j != k
    ensures AncestorAt(s, j) != AncestorAt(s, k)
  {
    AncestorAtIsPrefix(s, j);
    AncestorAtIsPrefix(s, k);
  }

  /** The walk adds to the working set exactly the keys of the ancestors
      it emits (tree.go:94). */
  lemma {:induction false} WalkKeys(name: Path, n: nat, l: nat, ws: set<Key>, version: bv32)
    requires n <= |name| && DotsBefore(name, n) == l
    ensures Walk(name, n, l, ws, version).1 == ws + PrefixKeys(Walk(name, n, l, ws, version).0)
    decreases l
  {
    if l > 0 {
      CutAtLastDot(name, n);
      var index := LastIndexByte(name, n, '.');
      var prefix := name[..index + 1];
      if Prefix(prefix) !in ws {
        var ws1 := ws + {Prefix(prefix)};
        WalkKeys(name, index, l - 1, ws1, version);
        var rest := Walk(name, index, l - 1, ws1, version);
        var rows := Walk(name, n, l, ws, version).0;
        assert rows[1..] == rest.0;
        var later := PrefixKeys(rest.0);
        assert PrefixKeys(rows) == {Prefix(prefix)} + later;
        assert ws1 + later == ws + ({Prefix(prefix)} + later);
      }
    }
  }

  /** Every ancestor the walk emits was new to the working set
      (tree.go:90-92), so each row grows the set by one key. */
  lemma {:induction false} WalkFresh(name: Path, n: nat, l: nat, ws: set<Key>, version: bv32)
    requires n <= |name| && DotsBefore(name, n) == l
    ensures forall i :: 0 <= i < |Walk(name, n, l, ws, version).0| ==>
      Prefix(Walk(name, n, l, ws, version).0[i].path) !in ws
    ensures |Walk(name, n, l, ws, version).1| == |ws| + |Walk(name, n, l, ws, version).0|
    decreases l
  {
    if l > 0 {
      CutAtLastDot(name, n);
      var index := LastIndexByte(name, n, '.');
      var prefix := name[..index + 1];
      if Prefix(prefix) !in ws {
        var ws1 := ws + {Prefix(prefix)};
        WalkFresh(name, index, l - 1, ws1, version);
        var rest := Walk(name, index, l - 1, ws1, version).0;
        var rows := Walk(name, n, l, ws, version).0;
        assert rows == [Row(l, prefix, version)] + rest;
        forall i | 1 <= i < |rows|
          ensures Prefix(rows[i].path) !in ws
        {
          assert rows[i] == rest[i - 1];
        }
      }
    }
  }

  // ---------------------------------------------------------------------
  // The hierarchy the working set keeps

  /** A set of keys that holds, with every ancestor path, all of that
      path's own ancestors. */
  ghost predicate UpClosed(ws: set<Key>)
  {
    forall p, j :: Prefix(p) in ws && 1 <= j <= DotCount(p) ==> Prefix(AncestorAt(p, j)) in ws
  }

  /** A set of keys that holds, with every leaf, all of its ancestors. */
  ghost predicate LeavesCovered(ws: set<Key>)
  {
    forall s, k :: Leaf(Sha1(s)) in ws && 1 <= k <= DotCount(s) ==> Prefix(AncestorAt(s, k)) in ws
  }

  /** The ancestor at level `j` of the ancestor at level `k` is the
      ancestor at level `j`. */
  lemma AncestorOfAncestor(s: Path, k: nat, j: nat)
    requires 1 <= j <= k <= DotCount(s)
    ensures DotCount(AncestorAt(s, k)) == k
    ensures AncestorAt(AncestorAt(s, k), j) == AncestorAt(s, j)
  {
    var a := AncestorAt(s, k);
    AncestorAtIsPrefix(s, k);
    var e := AncestorEndBefore(a, |a|, j);
    DotsAgree(a, s, e);
    AncestorEndUnique(s, e, AncestorEndBefore(s, |s|, j));
  }

  /** Every row's path is among the rows' ancestor keys. */
  lemma {:induction false} InPrefixKeys(rows: seq<Row>, i: nat)
    requires i < |rows|
    ensures Prefix(rows[i].path) in PrefixKeys(rows)
  {
    if i > 0 {
      InPrefixKeys(rows[1..], i - 1);
    }
  }

  /** The rows' ancestor keys come from the rows' paths and nowhere else. */
  lemma {:induction false} FromPrefixKeys(rows: seq<Row>, key: Key)
    requires key in PrefixKeys(rows)
    ensures exists i :: 0 <= i < |rows| && key == Prefix(rows[i].path)
  {
    if key != Prefix(rows[0].path) {
      FromPrefixKeys(rows[1..], key);
      var i :| 0 <= i < |rows[1..]| && key == Prefix(rows[1..][i].path);
      assert key == Prefix(rows[i + 1].path);
    }
  }

  /** An ancestor held in a closed set brings every ancestor below it. */
  lemma ClosedBelow(ws: set<Key>, name: Path, k: nat, j: nat)
    requires UpClosed(ws) && 1 <= j <= k <= DotCount(name)
    requires Prefix(AncestorAt(name, k)) in ws
    ensures Prefix(AncestorAt(name, j)) in ws
  {
    AncestorOfAncestor(name, k, j);
  }

  /** Walking from a closed working set, the set afterwards holds every
      ancestor at level `l` and below: the walk adds those above where it
      stopped, and the set already held the one it stopped at together
      with all of that one's ancestors. */
  lemma WalkCovers(name: Path, n: nat, l: nat, ws: set<Key>, version: bv32)
    requires n <= |name| && DotsBefore(name, n) == l && UpClosed(ws)
    ensures l <= DotCount(name)
    ensures forall k :: 1 <= k <= l ==> Prefix(AncestorAt(name, k)) in Walk(name, n, l, ws, version).1
  {
    var res := Walk(name, n, l, ws, version);
    WalkRows(name, n, l, ws, version);
    WalkKeys(name, n, l, ws, version);
    WalkStops(name, n, l, ws, version);
    WalkFacts(name, l, ws, version, res.0, res.1);
    CoversFromRows(name, l, ws, version, res.0, res.1);
  }

  /** What `WalkRows`, `WalkKeys` and `WalkStops` say about a walk, over
      its rows and final set as plain values. */
  ghost predicate WalkShape(name: Path, l: nat, ws: set<Key>, version: bv32, rows: seq<Row>, keys: set<Key>)
  {
    && l <= DotCount(name) && |rows| <= l
    && (forall i :: 0 <= i < |rows| ==> rows[i] == Row(l - i, AncestorAt(name, l - i), version))
    && keys == ws + PrefixKeys(rows)
    && (|rows| < l ==> Prefix(AncestorAt(name, l - |rows|)) in ws)
  }

  lemma WalkFacts(name: Path, l: nat, ws: set<Key>, version: bv32, rows: seq<Row>, keys: set<Key>)
    requires l <= DotCount(name) && |rows| <= l
    requires forall i :: 0 <= i < |rows| ==> rows[i] == Row(l - i, AncestorAt(name, l - i), version)
    requires keys == ws + PrefixKeys(rows)
    requires |rows| < l ==> l - |rows| <= DotCount(name) && Prefix(AncestorAt(name, l - |rows|)) in ws
    ensures WalkShape(name, l, ws, version, rows, keys)
  {
  }

  /** The covering argument of `WalkCovers` on the walk's shape. */
  lemma CoversFromRows(name: Path, l: nat, ws: set<Key>, version: bv32, rows: seq<Row>, keys: set<Key>)
    requires UpClosed(ws) && WalkShape(name, l, ws, version, rows, keys)
    ensures forall k :: 1 <= k <= l ==> Prefix(AncestorAt(name, k)) in keys
  {
    forall k | 1 <= k <= l
      ensures Prefix(AncestorAt(name, k)) in keys
    {
      if l - |rows| < k {
        assert rows[l - k] == Row(k, AncestorAt(name, k), version);
        InPrefixKeys(rows, l - k);
      } else {
        ClosedBelow(ws, name, l - |rows|, k);
      }
    }
  }

  /** A walk from a closed working set leaves it closed. */
  lemma WalkStaysClosed(name: Path, n: nat, l: nat, ws: set<Key>, version: bv32)
    requires n <= |name| && DotsBefore(name, n) == l && UpClosed(ws)
    ensures UpClosed(Walk(name, n, l, ws, version).1)
  {
    var res := Walk(name, n, l, ws, version);
    WalkCovers(name, n, l, ws, version);
    WalkRows(name, n, l, ws, version);
    WalkKeys(name, n, l, ws, version);
    WalkStops(name, n, l, ws, version);
    WalkFacts(name, l, ws, version, res.0, res.1);
    ClosedFromRows(name, l, ws, version, res.0, res.1);
  }

  /** The closure argument of `WalkStaysClosed` on the walk's shape: a new
      key is an ancestor of the record, so its ancestors are too. */
  lemma ClosedFromRows(name: Path, l: nat, ws: set<Key>, version: bv32, rows: seq<Row>, keys: set<Key>)
    requires UpClosed(ws) && WalkShape(name, l, ws, version, rows, keys)
    requires forall k :: 1 <= k <= l ==> Prefix(AncestorAt(name, k)) in keys
    ensures UpClosed(keys)
  {
    forall p, j | Prefix(p) in keys && 1 <= j <= DotCount(p)
      ensures Prefix(AncestorAt(p, j)) in keys
    {
      if Prefix(p) !in ws {
        FromPrefixKeys(rows, Prefix(p));
        var i :| 0 <= i < |rows| && Prefix(p) == Prefix(rows[i].path);
        RowAncestorIn(name, l, version, rows[i], i, j, keys);
      }
    }
  }

  /** The ancestors of the walk's row `i` are ancestors of the record. */
  lemma RowAncestorIn(name: Path, l: nat, version: bv32, row: Row, i: nat, j: nat, keys: set<Key>)
    requires i < l <= DotCount(name) && row == Row(l - i, AncestorAt(name, l - i), version)
    requires forall k :: 1 <= k <= l ==> Prefix(AncestorAt(name, k)) in keys
    requires 1 <= j <= DotCount(row.path)
    ensures Prefix(AncestorAt(row.path, j)) in keys
  {
    AncestorAtIsPrefix(name, l - i);
    AncestorOfAncestor(name, l - i, j);
  }

  /** One record of the loop at tree.go:57-102: a tagged record, or one
      whose leaf the cache already credits to table `id` or the batch has
      already seen, adds nothing; otherwise the leaf row is emitted and the
      ancestor walk starts one level up. */
  function Visit(cache: CMap<Key>, xxh: Key -> bv64, id: bv8, version: bv32, ws: set<Key>, name: Path): (res: (seq<Row>, set<Key>))
    requires WellFormed(cache)
    ensures ws <= res.1
    ensures |res.1| == |ws| + |res.0|
    ensures forall i :: 0 <= i < |res.0| ==> res.0[i].version == version
  {
    if '?' in name then ([], ws)
    else
      var leaf := Leaf(Sha1(name));
      if Exists(cache, xxh, leaf, id) || leaf in ws then ([], ws)
      else
        var up := Walk(name, |name|, DotCount(name), ws + {leaf}, version);
        WalkKeys(name, |name|, DotCount(name), ws + {leaf}, version);
        WalkFresh(name, |name|, DotCount(name), ws + {leaf}, version);
        WalkVersions(name, |name|, DotCount(name), ws + {leaf}, version);
        ([Row(PathLevel(name), name, version)] + up.0, up.1)
  }

  /** Whether a record's leaf is already known, to the cache for this
      table or to the batch (tree.go:71-77). */
  predicate LeafKnown(cache: CMap<Key>, xxh: Key -> bv64, id: bv8, ws: set<Key>, name: Path)
    requires WellFormed(cache)
  {
    Exists(cache, xxh, Leaf(Sha1(name)), id) || Leaf(Sha1(name)) in ws
  }

  /** A tagged record (tree.go:63-66), or one whose leaf is already known
      (tree.go:71-77), emits nothing and leaves the working set alone. */
  lemma VisitSkips(cache: CMap<Key>, xxh: Key -> bv64, id: bv8, version: bv32, ws: set<Key>, name: Path)
    requires WellFormed(cache)
    ensures '?' in name || LeafKnown(cache, xxh, id, ws, name) <==>
      Visit(cache, xxh, id, version, ws, name).0 == []
    ensures '?' in name || LeafKnown(cache, xxh, id, ws, name) ==>
      Visit(cache, xxh, id, version, ws, name).1 == ws
  {
  }

  /** A new record emits its own row first, at its level (tree.go:79-84),
      then its ancestor rows; the working set gains the leaf and exactly
      the emitted ancestors. */
  lemma VisitLeafFirst(cache: CMap<Key>, xxh: Key -> bv64, id: bv8, version: bv32, ws: set<Key>, name: Path)
    requires WellFormed(cache)
    requires '?' !in name && !LeafKnown(cache, xxh, id, ws, name)
    ensures 1 <= |Visit(cache, xxh, id, version, ws, name).0| <= PathLevel(name)
    ensures Visit(cache, xxh, id, version, ws, name).0[0] == Row(PathLevel(name), name, version)
    ensures Visit(cache, xxh, id, version, ws, name).1
      == ws + {Leaf(Sha1(name))} + PrefixKeys(Visit(cache, xxh, id, version, ws, name).0[1..])
  {
    var leaf := Leaf(Sha1(name));
    var l := DotCount(name);
    var up := Walk(name, |name|, l, ws + {leaf}, version);
    WalkKeys(name, |name|, l, ws + {leaf}, version);
    var rows := Visit(cache, xxh, id, version, ws, name).0;
    assert rows == [Row(PathLevel(name), name, version)] + up.0;
    assert rows[1..] == up.0;
  }

  /** The rows after the leaf are its ancestors, innermost first, each at
      its own level (tree.go:86-101). */
  lemma VisitAncestors(cache: CMap<Key>, xxh: Key -> bv64, id: bv8, version: bv32, ws: set<Key>, name: Path)
    requires WellFormed(cache)
    requires '?' !in name && !LeafKnown(cache, xxh, id, ws, name)
    ensures forall i :: 1 <= i < |Visit(cache, xxh, id, version, ws, name).0| ==>
      Visit(cache, xxh, id, version, ws, name).0[i]
        == Row(PathLevel(name) - i, AncestorAt(name, PathLevel(name) - i), version)
  {
    var leaf := Leaf(Sha1(name));
    var l := DotCount(name);
    var up := Walk(name, |name|, l, ws + {leaf}, version);
    WalkRows(name, |name|, l, ws + {leaf}, version);
    var rows := Visit(cache, xxh, id, version, ws, name).0;
    assert rows == [Row(PathLevel(name), name, version)] + up.0;
    forall i | 1 <= i < |rows|
      ensures rows[i] == Row(PathLevel(name) - i, AncestorAt(name, PathLevel(name) - i), version)
    {
      assert rows[i] == up.0[i - 1];
    }
  }

  /** The ancestor walk of a new record ends before level 1 only at an
      ancestor the batch already had (tree.go:90-92). */
  lemma VisitStops(cache: CMap<Key>, xxh: Key -> bv64, id: bv8, version: bv32, ws: set<Key>, name: Path)
    requires WellFormed(cache)
    requires '?' !in name && !LeafKnown(cache, xxh, id, ws, name)
    ensures |Visit(cache, xxh, id, version, ws, name).0| < PathLevel(name) ==>
      Prefix(AncestorAt(name, PathLevel(name) - |Visit(cache, xxh, id, version, ws, name).0|)) in ws
  {
    var leaf := Leaf(Sha1(name));
    var l := DotCount(name);
    var up := Walk(name, |name|, l, ws + {leaf}, version);
    WalkStops(name, |name|, l, ws + {leaf}, version);
    var rows := Visit(cache, xxh, id, version, ws, name).0;
    assert |rows| == 1 + |up.0|;
  }

  /** The loop of tree.go:57-102 over the records read before the reader
      stopped, from an empty working set (tree.go:38). */
  function Decompose(cache: CMap<Key>, xxh: Key -> bv64, id: bv8, version: bv32, names: seq<Path>): (res: (seq<Row>, set<Key>))
    requires WellFormed(cache)
    ensures |res.1| == |res.0|
    ensures forall i :: 0 <= i < |res.0| ==> res.0[i].version == version
    decreases |names|
  {
    if |names| == 0 then ([], {})
    else
      var prev := Decompose(cache, xxh, id, version, names[..|names| - 1]);
      var step := Visit(cache, xxh, id, version, prev.1, names[|names| - 1]);
      (prev.0 + step.0, step.1)
  }

  /** Adding a leaf keeps a set closed. */
  lemma LeafKeepsClosed(ws: set<Key>, d: Digest)
    requires UpClosed(ws)
    ensures UpClosed(ws + {Leaf(d)})
  {
  }

  /** One record keeps the working set closed and every leaf in it
      covered: a new record's walk may stop early only because the
      ancestor it met came with all of its own ancestors. */
  lemma VisitKeepsHierarchy(cache: CMap<Key>, xxh: Key -> bv64, id: bv8, version: bv32, ws: set<Key>, name: Path)
    requires WellFormed(cache) && UpClosed(ws) && LeavesCovered(ws)
    ensures UpClosed(Visit(cache, xxh, id, version, ws, name).1)
    ensures LeavesCovered(Visit(cache, xxh, id, version, ws, name).1)
  {
    var leaf := Leaf(Sha1(name));
    if '?' !in name && !LeafKnown(cache, xxh, id, ws, name) {
      var ws0 := ws + {leaf};
      LeafKeepsClosed(ws, Sha1(name));
      var l := DotCount(name);
      WalkStaysClosed(name, |name|, l, ws0, version);
      WalkCovers(name, |name|, l, ws0, version);
      WalkKeys(name, |name|, l, ws0, version);
      var up := Walk(name, |name|, l, ws0, version);
      forall s, k | Leaf(Sha1(s)) in up.1 && 1 <= k <= DotCount(s)
        ensures Prefix(AncestorAt(s, k)) in up.1
      {
        if Leaf(Sha1(s)) in PrefixKeys(up.0) {
          FromPrefixKeys(up.0, Leaf(Sha1(s)));
        }
      }
    }
  }

  /** The batch keeps the tree whole: the set it returns is closed, and
      with every record whose leaf it holds it holds all of that
      record's ancestors (tree.go:86-101). */
  lemma {:induction false} DecomposeKeepsHierarchy(cache: CMap<Key>, xxh: Key -> bv64, id: bv8, version: bv32, names: seq<Path>)
    requires WellFormed(cache)
    ensures UpClosed(Decompose(cache, xxh, id, version, names).1)
    ensures forall i, k ::
      (0 <= i < |names| && Leaf(Sha1(names[i])) in Decompose(cache, xxh, id, version, names).1 && 1 <= k <= DotCount(names[i]))
        ==> Prefix(AncestorAt(names[i], k)) in Decompose(cache, xxh, id, version, names).1
  {
    DecomposeHierarchy(cache, xxh, id, version, names);
  }

  /** The induction behind `DecomposeKeepsHierarchy`. */
  lemma {:induction false} DecomposeHierarchy(cache: CMap<Key>, xxh: Key -> bv64, id: bv8, version: bv32, names: seq<Path>)
    requires WellFormed(cache)
    ensures UpClosed(Decompose(cache, xxh, id, version, names).1)
    ensures LeavesCovered(Decompose(cache, xxh, id, version, names).1)
    decreases |names|
  {
    if |names| > 0 {
      var init := names[..|names| - 1];
      DecomposeHierarchy(cache, xxh, id, version, init);
      var prev := Decompose(cache, xxh, id, version, init);
      VisitKeepsHierarchy(cache, xxh, id, version, prev.1, names[|names| - 1]);
    }
  }

  /** The separators and ancestors of `a.b.c`. */
  lemma AbcAncestors()
    ensures DotCount("a.b.c") == 2
    ensures AncestorAt("a.b.c", 2) == "a.b." && AncestorAt("a.b.c", 1) == "a."
  {
    var s := "a.b.c";
    assert DotsBefore(s, 2) == 1 && DotsBefore(s, 4) == 2 && DotCount(s) == 2;
    AncestorEndUnique(s, 4, AncestorEndBefore(s, 5, 2));
    AncestorEndUnique(s, 2, AncestorEndBefore(s, 5, 1));
    assert s[..4] == "a.b." && s[..2] == "a.";
  }

  /** Visiting `a.b.c` with nothing known yields the leaf and both
      ancestors. */
  lemma AbcVisit(cache: CMap<Key>, xxh: Key -> bv64, id: bv8, version: bv32, ws: set<Key>)
    requires WellFormed(cache) && !Exists(cache, xxh, Leaf(Sha1("a.b.c")), id)
    requires Leaf(Sha1("a.b.c")) !in ws && Prefix("a.b.") !in ws && Prefix("a.") !in ws
    ensures Visit(cache, xxh, id, version, ws, "a.b.c") ==
      ([Row(3, "a.b.c", version), Row(2, "a.b.", version), Row(1, "a.", version)],
       ws + {Leaf(Sha1("a.b.c")), Prefix("a.b."), Prefix("a.")})
  {
    var s := "a.b.c";
    AbcRows(cache, xxh, id, version, ws);
    VisitLeafFirst(cache, xxh, id, version, ws, s);
    AbcKeys(version, ws, Visit(cache, xxh, id, version, ws, s));
  }

  /** The working set after emitting the rows of `a.b.c`. */
  lemma AbcKeys(version: bv32, ws: set<Key>, visit: (seq<Row>, set<Key>))
    requires visit.0 == [Row(3, "a.b.c", version), Row(2, "a.b.", version), Row(1, "a.", version)]
    requires visit.1 == ws + {Leaf(Sha1("a.b.c"))} + PrefixKeys(visit.0[1..])
    ensures visit.1 == ws + {Leaf(Sha1("a.b.c")), Prefix("a.b."), Prefix("a.")}
  {
    var tail := visit.0[1..];
    assert tail == [Row(2, "a.b.", version), Row(1, "a.", version)];
    assert tail[1..] == [Row(1, "a.", version)];
    assert tail[1..][1..] == [];
    assert PrefixKeys(tail[1..]) == {Prefix("a.")} + PrefixKeys([]);
    assert PrefixKeys(tail) == {Prefix("a.b.")} + PrefixKeys(tail[1..]);
  }

  lemma AbcRows(cache: CMap<Key>, xxh: Key -> bv64, id: bv8, version: bv32, ws: set<Key>)
    requires WellFormed(cache) && !Exists(cache, xxh, Leaf(Sha1("a.b.c")), id)
    requires Leaf(Sha1("a.b.c")) !in ws && Prefix("a.b.") !in ws && Prefix("a.") !in ws
    ensures '?' !in "a.b.c"
    ensures Visit(cache, xxh, id, version, ws, "a.b.c").0 ==
      [Row(3, "a.b.c", version), Row(2, "a.b.", version), Row(1, "a.", version)]
  {
    var s := "a.b.c";
    assert '?' !in s;
    AbcAncestors();
    VisitLeafFirst(cache, xxh, id, version, ws, s);
    VisitStops(cache, xxh, id, version, ws, s);
    VisitAncestors(cache, xxh, id, version, ws, s);
    AbcRowList(Visit(cache, xxh, id, version, ws, s).0, version, ws);
  }

  /** Three rows that are `a.b.c` and its ancestors, level by level. */
  lemma AbcRowList(rows: seq<Row>, version: bv32, ws: set<Key>)
    requires DotCount("a.b.c") == 2
    requires AncestorAt("a.b.c", 2) == "a.b." && AncestorAt("a.b.c", 1) == "a."
    requires Prefix("a.b.") !in ws && Prefix("a.") !in ws
    requires 1 <= |rows| <= 3 && rows[0] == Row(3, "a.b.c", version)
    requires |rows| < 3 ==> Prefix(AncestorAt("a.b.c", 3 - |rows|)) in ws
    requires forall i :: 1 <= i < |rows| ==> rows[i] == Row(3 - i, AncestorAt("a.b.c", 3 - i), version)
    ensures rows == [Row(3, "a.b.c", version), Row(2, "a.b.", version), Row(1, "a.", version)]
  {
    assert rows[1] == Row(2, "a.b.", version);
    assert rows[2] == Row(1, "a.", version);
  }

  /** One record `a.b.c` against an empty cache yields the leaf at level 3
      and its ancestors `a.b.` and `a.` at levels 2 and 1. */
  lemma OneRecordExample(xxh: Key -> bv64, id: bv8, version: bv32)
    ensures Decompose(NewCMap(), xxh, id, version, ["a.b.c"]) ==
      ([Row(3, "a.b.c", version), Row(2, "a.b.", version), Row(1, "a.", version)],
       {Leaf(Sha1("a.b.c")), Prefix("a.b."), Prefix("a.")})
  {
    var c: CMap<Key> := NewCMap();
    var names: seq<Path> := ["a.b.c"];
    assert names[..0] == [];
    assert Decompose(c, xxh, id, version, names[..0]) == ([], {});
    EmptyCacheKnowsNothing(xxh, id, Leaf(Sha1("a.b.c")));
    AbcVisit(c, xxh, id, version, {});
    var (rows, ws) := Visit(c, xxh, id, version, {}, names[0]);
    assert Decompose(c, xxh, id, version, names) == ([] + rows, ws);
    assert [] + rows == rows;
  }

  /** A second leaf under `a.b.` adds only its own row: the walk stops at
      `a.b.`, which the batch already has. */
  lemma AbdVisit(cache: CMap<Key>, xxh: Key -> bv64, id: bv8, version: bv32, ws: set<Key>)
    requires WellFormed(cache) && !Exists(cache, xxh, Leaf(Sha1("a.b.d")), id)
    requires Leaf(Sha1("a.b.d")) !in ws && Prefix("a.b.") in ws
    ensures Visit(cache, xxh, id, version, ws, "a.b.d") ==
      ([Row(3, "a.b.d", version)], ws + {Leaf(Sha1("a.b.d"))})
  {
    var s := "a.b.d";
    assert '?' !in s;
    assert DotsBefore(s, 2) == 1 && DotsBefore(s, 4) == 2 && DotCount(s) == 2;
    assert LastIndexByte(s, 5, '.') == 3;
    assert s[..4] == "a.b.";
    var leaf := Leaf(Sha1(s));
    assert !LeafKnown(cache, xxh, id, ws, s);
    assert Walk(s, 5, 2, ws + {leaf}, version) == ([], ws + {leaf});
    assert Visit(cache, xxh, id, version, ws, s) == ([Row(PathLevel(s), s, version)] + [], ws + {leaf});
    assert [Row(PathLevel(s), s, version)] + [] == [Row(3, s, version)];
  }

  /** Two records sharing the ancestors `a.b.` and `a.` yield four rows,
      not six: the ancestors are emitted once per batch (tree.go:88-92). */
  lemma SharedAncestorsExample(xxh: Key -> bv64, id: bv8, version: bv32)
    ensures Decompose(NewCMap(), xxh, id, version, ["a.b.c", "a.b.d"]) ==
      ([Row(3, "a.b.c", version), Row(2, "a.b.", version), Row(1, "a.", version), Row(3, "a.b.d", version)],
       {Leaf(Sha1("a.b.c")), Prefix("a.b."), Prefix("a."), Leaf(Sha1("a.b.d"))})
  {
    var c: CMap<Key> := NewCMap();
    var names: seq<Path> := ["a.b.c", "a.b.d"];
    assert names[..1] == ["a.b.c"];
    OneRecordExample(xxh, id, version);
    var first := Decompose(c, xxh, id, version, names[..1]);
    EmptyCacheKnowsNothing(xxh, id, Leaf(Sha1("a.b.d")));
    AbdVisit(c, xxh, id, version, first.1);
    var step := Visit(c, xxh, id, version, first.1, names[1]);
    assert names[1] == "a.b.d";
    assert Decompose(c, xxh, id, version, names) == (first.0 + step.0, step.1);
    assert first.0 + step.0 ==
      [Row(3, "a.b.c", version), Row(2, "a.b.", version), Row(1, "a.", version), Row(3, "a.b.d", version)];
    assert step.1 == {Leaf(Sha1("a.b.c")), Prefix("a.b."), Prefix("a.")} + {Leaf(Sha1("a.b.d"))};
    assert step.1 == {Leaf(Sha1("a.b.c")), Prefix("a.b."), Prefix("a."), Leaf(Sha1("a.b.d"))};
  }

  /** An ancestor is a proper prefix of its record unless the record
      itself ends in a separator and the ancestor is the innermost one, at
      level `DotCount`, which the walk emits first: `a.` is its own
      ancestor at level 1, `a.b.` its own at level 2. */
  lemma AncestorIsProperPrefix(s: Path, k: nat)
    requires 1 <= k <= DotCount(s)
    ensures k < DotCount(s) || s[|s| - 1] != '.' ==> |AncestorAt(s, k)| < |s|
    ensures |AncestorAt(s, k)| == |s| ==> k == DotCount(s) && s[|s| - 1] == '.'
  {
  }

  /** The trailing-separator case: `a.` at level 2 walks to itself, and
      `a.b.` at level 3 walks to itself at level 2 and then to `a.`. */
  lemma TrailingDotExample()
    ensures PathLevel("a.") == 2 && AncestorAt("a.", 1) == "a."
    ensures PathLevel("a.b.") == 3 && AncestorAt("a.b.", 2) == "a.b." && AncestorAt("a.b.", 1) == "a."
  {
    var s := "a.";
    assert DotsBefore(s, 1) == 0 && DotCount(s) == 1;
    assert s[..2] == s;
    var t := "a.b.";
    assert DotsBefore(t, 1) == 0 && DotsBefore(t, 2) == 1 && DotsBefore(t, 3) == 1 && DotCount(t) == 2;
    assert t[..4] == t && t[..2] == "a.";
  }

  /** The batch built from the first records is where the batch of all
      records starts: rows are only ever appended. */
  lemma {:induction false} DecomposePrefix(cache: CMap<Key>, xxh: Key -> bv64, id: bv8, version: bv32, names: seq<Path>, i: nat)
    requires WellFormed(cache) && i <= |names|
    ensures var whole := Decompose(cache, xxh, id, version, names).0;
      var part := Decompose(cache, xxh, id, version, names[..i]).0;
      |part| <= |whole| && part == whole[..|part|]
    decreases |names|
  {
    if i < |names| {
      var init := names[..|names| - 1];
      DecomposePrefix(cache, xxh, id, version, init, i);
      assert init[..i] == names[..i];
    } else {
      assert names[..i] == names;
    }
  }

  /** Every untagged record of a batch ends up known: its leaf is in the
      cache for this table or in the returned working set (tree.go:71-79). */
  lemma {:induction false} DecomposeCoversLeaves(cache: CMap<Key>, xxh: Key -> bv64, id: bv8, version: bv32, names: seq<Path>)
    requires WellFormed(cache)
    ensures forall i :: 0 <= i < |names| && '?' !in names[i] ==>
      LeafKnown(cache, xxh, id, Decompose(cache, xxh, id, version, names).1, names[i])
    decreases |names|
  {
    if |names| > 0 {
      var init := names[..|names| - 1];
      DecomposeCoversLeaves(cache, xxh, id, version, init);
      var ws := Decompose(cache, xxh, id, version, init).1;
      var last := names[|names| - 1];
      var ws' := Visit(cache, xxh, id, version, ws, last).1;
      forall i | 0 <= i < |names| && '?' !in names[i]
        ensures LeafKnown(cache, xxh, id, ws', names[i])
      {
        if i < |names| - 1 {
          assert names[i] == init[i];
        } else if !LeafKnown(cache, xxh, id, ws, last) {
          VisitLeafFirst(cache, xxh, id, version, ws, last);
        }
      }
    }
  }

  /** The cache is consulted only for the records' leaves (tree.go:71),
      never for an ancestor: two caches that agree on every leaf of the
      batch for this table decompose it alike, whatever they hold for the
      ancestor keys. */
  lemma {:induction false} DecomposeConsultsOnlyLeaves(c1: CMap<Key>, c2: CMap<Key>, xxh: Key -> bv64, id: bv8, version: bv32, names: seq<Path>)
    requires WellFormed(c1) && WellFormed(c2)
    requires forall i :: 0 <= i < |names| ==>
      Exists(c1, xxh, Leaf(Sha1(names[i])), id) == Exists(c2, xxh, Leaf(Sha1(names[i])), id)
    ensures Decompose(c1, xxh, id, version, names) == Decompose(c2, xxh, id, version, names)
    decreases |names|
  {
    if |names| > 0 {
      var init := names[..|names| - 1];
      forall i | 0 <= i < |init|
        ensures Exists(c1, xxh, Leaf(Sha1(init[i])), id) == Exists(c2, xxh, Leaf(Sha1(init[i])), id)
      {
        assert init[i] == names[i];
      }
      DecomposeConsultsOnlyLeaves(c1, c2, xxh, id, version, init);
      var last := |names| - 1;
      assert Exists(c1, xxh, Leaf(Sha1(names[last])), id) == Exists(c2, xxh, Leaf(Sha1(names[last])), id);
    }
  }

  /** A batch whose every untagged record the cache already credits to
      this table writes no row and collects no key (tree.go:63-73). */
  lemma {:induction false} KnownBatchEmitsNothing(cache: CMap<Key>, xxh: Key -> bv64, id: bv8, version: bv32, names: seq<Path>)
    requires WellFormed(cache)
    requires forall i :: 0 <= i < |names| && '?' !in names[i] ==> Exists(cache, xxh, Leaf(Sha1(names[i])), id)
    ensures Decompose(cache, xxh, id, version, names) == ([], {})
    decreases |names|
  {
    if |names| > 0 {
      var init := names[..|names| - 1];
      forall i | 0 <= i < |init| && '?' !in init[i]
        ensures Exists(cache, xxh, Leaf(Sha1(init[i])), id)
      {
        assert init[i] == names[i];
      }
      KnownBatchEmitsNothing(cache, xxh, id, version, init);
      assert '?' !in names[|names| - 1] ==> Exists(cache, xxh, Leaf(Sha1(names[|names| - 1])), id);
    }
  }

  /** One more record extends the batch by that record's visit, and the
      rows so far are where the rows of the whole batch start. */
  lemma DecomposeStep(cache: CMap<Key>, xxh: Key -> bv64, id: bv8, version: bv32, names: seq<Path>, i: nat)
    requires WellFormed(cache) && i < |names|
    ensures var prev := Decompose(cache, xxh, id, version, names[..i]);
      var visit := Visit(cache, xxh, id, version, prev.1, names[i]);
      var next := Decompose(cache, xxh, id, version, names[..i + 1]);
      && next == (prev.0 + visit.0, visit.1)
      && |next.0| <= |Decompose(cache, xxh, id, version, names).0|
      && next.0 == Decompose(cache, xxh, id, version, names).0[..|next.0|]
  {
    assert names[..i + 1][..i] == names[..i];
    DecomposePrefix(cache, xxh, id, version, names, i + 1);
  }

  // ---------------------------------------------------------------------
  // The parser

  /** The records file: either it cannot be opened (tree.go:30-33), or it
      yields the records read before the first read error or end of file
      (tree.go:58-61), which is not an error of the parse. */
  datatype Input = Unreadable(err: Error) | Readable(records: seq<Path>)

  /** The writer the rows go to: it accepts every row, or fails when asked
      to write the row with the given 0-based number (tree.go:43-54). */
  datatype Sink = Accepting | FailsAt(row: nat, err: Error)

  /** Whether the sink refuses the row numbered `count`. */
  predicate Refuses(sink: Sink, count: nat)
  {
    sink.FailsAt? && sink.row == count
  }

  /** The ancestor loop of tree.go:86-101 writing as it goes: it either
      writes every row of the walk and reports the grown working set, or
      stops at the row the sink refuses. */
  method WalkWriting(name: Path, n0: nat, l0: nat, ws: set<Key>, version: bv32, written: seq<Row>, sink: Sink)
    returns (ok: bool, ws': set<Key>, written': seq<Row>)
    requires n0 <= |name| && DotsBefore(name, n0) == l0
    requires sink.FailsAt? ==> |written| <= sink.row
    ensures ok ==> ws' == Walk(name, n0, l0, ws, version).1
    ensures ok ==> written' == written + Walk(name, n0, l0, ws, version).0
    ensures ok ==> sink.FailsAt? ==> |written'| <= sink.row
    ensures !ok ==> sink.FailsAt? && sink.row < |written| + |Walk(name, n0, l0, ws, version).0|
    ensures !ok ==> written' == (written + Walk(name, n0, l0, ws, version).0)[..sink.row]
  {
    ghost var walk := Walk(name, n0, l0, ws, version);
    ghost var whole := written + walk.0;
    ws', written' := ws, written;
    var n: nat, l: nat := n0, l0;
    while l > 0
      invariant n <= |name| && DotsBefore(name, n) == l
      invariant written' + Walk(name, n, l, ws', version).0 == whole
      invariant Walk(name, n, l, ws', version).1 == walk.1
      invariant sink.FailsAt? ==> |written'| <= sink.row
      decreases l
    {
      CutAtLastDot(name, n);
      var index := LastIndexByte(name, n, '.');
      var prefix := name[..index + 1];
      if Prefix(prefix) in ws' {
        break;
      }
      ghost var rest := Walk(name, index, l - 1, ws' + {Prefix(prefix)}, version);
      WalkUnfold(name, n, l, ws', version, index, prefix);
      assert whole == (written' + [Row(l, prefix, version)]) + rest.0;
      ws' := ws' + {Prefix(prefix)};
      if Refuses(sink, |written'|) {
        assert whole[..sink.row] == written';
        return false, ws', written';
      }
      written' := written' + [Row(l, prefix, version)];
      n := index;
      l := l - 1;
    }
    return true, ws', written';
  }

  /** One pass of the record loop (tree.go:63-101) that writes as it
      goes: it either writes every row `Visit` produces and reports the
      new working set, or stops at the row the sink refuses. */
  method VisitWriting(cache: CMap<Key>, xxh: Key -> bv64, id: bv8, version: bv32, ws: set<Key>,
                      written: seq<Row>, name: Path, sink: Sink)
    returns (ok: bool, ws': set<Key>, written': seq<Row>)
    requires WellFormed(cache)
    requires sink.FailsAt? ==> |written| <= sink.row
    ensures ok ==> ws' == Visit(cache, xxh, id, version, ws, name).1
    ensures ok ==> written' == written + Visit(cache, xxh, id, version, ws, name).0
    ensures ok ==> sink.FailsAt? ==> |written'| <= sink.row
    ensures !ok ==> sink.FailsAt? && sink.row < |written| + |Visit(cache, xxh, id, version, ws, name).0|
    ensures !ok ==> written' == (written + Visit(cache, xxh, id, version, ws, name).0)[..sink.row]
  {
    ghost var visit := Visit(cache, xxh, id, version, ws, name);
    var leaf := Leaf(Sha1(name));
    if '?' in name || Exists(cache, xxh, leaf, id) || leaf in ws {
      return true, ws, written;
    }
    var row := Row(PathLevel(name), name, version);
    ghost var up := Walk(name, |name|, DotCount(name), ws + {leaf}, version);
    assert visit == ([row] + up.0, up.1);
    assert written + visit.0 == (written + [row]) + up.0;
    if Refuses(sink, |written|) {
      return false, ws + {leaf}, written;
    }
    ok, ws', written' := WalkWriting(name, |name|, DotCount(name), ws + {leaf}, version, written + [row], sink);
  }

  /** The record loop of tree.go:56-102 over the records read, writing as
      it goes: it either writes every row of the batch and returns the
      batch's working set, or stops at the row the sink refuses. */
  method WriteRecords(cache: CMap<Key>, xxh: Key -> bv64, id: bv8, version: bv32, records: seq<Path>, sink: Sink)
    returns (ok: bool, ws: set<Key>, written: seq<Row>)
    requires WellFormed(cache)
    ensures ok ==> (written, ws) == Decompose(cache, xxh, id, version, records)
    ensures ok ==> sink.FailsAt? ==> |written| <= sink.row
    ensures !ok ==> sink.FailsAt? && sink.row < |Decompose(cache, xxh, id, version, records).0|
    ensures !ok ==> written == Decompose(cache, xxh, id, version, records).0[..sink.row]
  {
    ghost var whole := Decompose(cache, xxh, id, version, records);
    ws, written := {}, [];
    var i := 0;
    while i < |records|
      invariant i <= |records|
      invariant (written, ws) == Decompose(cache, xxh, id, version, records[..i])
      invariant sink.FailsAt? ==> |written| <= sink.row
    {
      DecomposeStep(cache, xxh, id, version, records, i);
      ok, ws, written := VisitWriting(cache, xxh, id, version, ws, written, records[i], sink);
      if !ok {
        return;
      }
      i := i + 1;
    }
    assert records[..i] == records;
    return true, ws, written;
  }

  /** `Tree.parseFile` (tree.go:29-105): decompose the records, writing
      each row as it is produced. An unreadable file and a failed write
      return their error and no working set; otherwise the working set of
      the whole batch is returned. `written` is what reached the sink. */
  method ParseFile(cache: CMap<Key>, xxh: Key -> bv64, id: bv8, version: bv32, input: Input, sink: Sink)
    returns (result: Result<set<Key>, Error>, written: seq<Row>)
    requires WellFormed(cache)
    ensures input.Unreadable? ==> result == Failure(input.err) && written == []
    ensures (input.Readable? && sink.FailsAt? &&
             sink.row < |Decompose(cache, xxh, id, version, input.records).0|) ==>
        (result == Failure(sink.err) &&
         written == Decompose(cache, xxh, id, version, input.records).0[..sink.row])
    ensures (input.Readable? &&
             !(sink.FailsAt? && sink.row < |Decompose(cache, xxh, id, version, input.records).0|)) ==>
        (result == Success(Decompose(cache, xxh, id, version, input.records).1) &&
         written == Decompose(cache, xxh, id, version, input.records).0)
  {
    if input.Unreadable? {
      return Failure(input.err), [];
    }
    var ok, ws;
    ok, ws, written := WriteRecords(cache, xxh, id, version, input.records, sink);
    result := if ok then Success(ws) else Failure(sink.err);
  }
}
