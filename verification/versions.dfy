/**
 The version history of one key: the timestamp array and the value array of
 `Cache` kept as one sequence of (timestamp, value) pairs, so the two arrays
 have the same length by construction. Every operation of the cache on a single
 key is a function on such a history.
 */
module Versions {
  import opened Bisect

  datatype Option<T> = None | Some(value: T)

  /** The value that became effective at timestamp `ts`. */
  datatype Version<V> = Version(ts: int, val: V)

  type History<V> = seq<Version<V>>

  /** The timestamp array of a history. */
  function Timestamps<V>(h: History<V>): (a: seq<int>)
    ensures |a| == |h|
    ensures forall i :: 0 <= i < |h| ==> a[i] == h[i].ts
  {
    seq(|h|, i requires 0 <= i < |h| => h[i].ts)
  }

  /** The value array of a history. */
  function Values<V>(h: History<V>): (a: seq<V>)
    ensures |a| == |h|
    ensures forall i :: 0 <= i < |h| ==> a[i] == h[i].val
  {
    seq(|h|, i requires 0 <= i < |h| => h[i].val)
  }

  /** The invariant of every stored history: timestamps strictly increase, so no
      timestamp is stored twice. */
  predicate Increasing<V>(h: History<V>) {
    forall i, j :: 0 <= i < j < |h| ==> h[i].ts < h[j].ts
  }

  lemma IncreasingIsSorted<V>(h: History<V>)
    requires Increasing(h)
    ensures Sorted(Timestamps(h))
  {
  }

  /** The value stored at exactly timestamp `t`, if any: a history read as a
      finite map from timestamps to values. */
  function At<V>(h: History<V>, t: int): Option<V> {
    if |h| == 0 then None
    else if h[0].ts == t then Some(h[0].val)
    else At(h[1..], t)
  }

  // ----- facts about At -----

  lemma {:induction false} AtConcat<V>(a: History<V>, b: History<V>, t: int)
    ensures At(a + b, t) == if At(a, t).Some? then At(a, t) else At(b, t)
    decreases |a|
  {
    if |a| == 0 {
      assert a + b == b;
    } else {
      assert (a + b)[1..] == a[1..] + b;
      AtConcat(a[1..], b, t);
    }
  }

  lemma {:induction false} AtMissing<V>(h: History<V>, t: int)
    requires forall i :: 0 <= i < |h| ==> h[i].ts != t
    ensures At(h, t) == None
    decreases |h|
  {
    if |h| > 0 {
      AtMissing(h[1..], t);
    }
  }

  lemma {:induction false} AtWitness<V>(h: History<V>, t: int)
    requires At(h, t).Some?
    ensures exists i :: 0 <= i < |h| && h[i].ts == t && h[i].val == At(h, t).value
    decreases |h|
  {
    if h[0].ts != t {
      AtWitness(h[1..], t);
      var i :| 0 <= i < |h[1..]| && h[1..][i].ts == t && h[1..][i].val == At(h, t).value;
      assert h[i + 1] == h[1..][i];
    }
  }

  lemma {:induction false} AtFound<V>(h: History<V>, i: int)
    requires Increasing(h)
    requires 0 <= i < |h|
    ensures At(h, h[i].ts) == Some(h[i].val)
    decreases i
  {
    if i > 0 {
      AtFound(h[1..], i - 1);
    }
  }

  /** Two valid histories that store the same value at every timestamp are the
      same history: the sorted layout is fully determined by its contents. */
  lemma {:induction false} DeterminedByAt<V>(h1: History<V>, h2: History<V>)
    requires Increasing(h1) && Increasing(h2)
    requires forall u :: At(h1, u) == At(h2, u)
    ensures h1 == h2
    decreases |h1|
  {
    if |h1| > 0 {
      assert At(h1, h1[0].ts).Some?;
      AtWitness(h2, h1[0].ts);
    }
    if |h2| > 0 {
      assert At(h2, h2[0].ts).Some?;
      AtWitness(h1, h2[0].ts);
    }
    if |h1| > 0 {
      var a := h1[0].ts;
      assert h2[0].ts == a;
      forall u
        ensures At(h1[1..], u) == At(h2[1..], u)
      {
        if u == a {
          AtMissing(h1[1..], u);
          AtMissing(h2[1..], u);
        } else {
          assert At(h1, u) == At(h2, u);
        }
      }
      DeterminedByAt(h1[1..], h2[1..]);
      assert h1 == [h1[0]] + h1[1..];
      assert h2 == [h2[0]] + h2[1..];
    }
  }

  // ----- insert -----

  /** Overwriting the value at an existing position keeps every other
      (timestamp, value) pair and the order. */
  lemma OverwriteKeeps<V>(h: History<V>, j: int, v: V)
    requires Increasing(h)
    requires 0 <= j < |h|
    ensures Increasing(h[j := Version(h[j].ts, v)])
    ensures At(h, h[j].ts).Some?
    ensures At(h[j := Version(h[j].ts, v)], h[j].ts) == Some(v)
    ensures forall u :: u != h[j].ts ==> At(h[j := Version(h[j].ts, v)], u) == At(h, u)
  {
    var t := h[j].ts;
    var r := h[j := Version(t, v)];
    AtFound(h, j);
    AtFound(r, j);
    assert h == h[..j] + [h[j]] + h[j + 1..];
    assert r == h[..j] + [Version(t, v)] + h[j + 1..];
    forall u | u != t
      ensures At(r, u) == At(h, u)
    {
      AtConcat(h[..j] + [h[j]], h[j + 1..], u);
      AtConcat(h[..j], [h[j]], u);
      AtConcat(h[..j] + [Version(t, v)], h[j + 1..], u);
      AtConcat(h[..j], [Version(t, v)], u);
    }
  }

  /** Inserting a fresh pair between the timestamps below and above it keeps
      every old pair and the order. */
  lemma InsertKeeps<V>(h: History<V>, i: int, t: int, v: V)
    requires Increasing(h)
    requires 0 <= i <= |h|
    requires forall k :: 0 <= k < i ==> h[k].ts < t
    requires forall k :: i <= k < |h| ==> t < h[k].ts
    ensures Increasing(h[..i] + [Version(t, v)] + h[i..])
    ensures At(h, t) == None
    ensures At(h[..i] + [Version(t, v)] + h[i..], t) == Some(v)
    ensures forall u :: u != t ==> At(h[..i] + [Version(t, v)] + h[i..], u) == At(h, u)
  {
    var r := h[..i] + [Version(t, v)] + h[i..];
    AtMissing(h, t);
    assert r[i] == Version(t, v);
    AtFound(r, i);
    assert h == h[..i] + h[i..];
    forall u | u != t
      ensures At(r, u) == At(h, u)
    {
      AtConcat(h[..i] + [Version(t, v)], h[i..], u);
      AtConcat(h[..i], [Version(t, v)], u);
      AtConcat(h[..i], h[i..], u);
    }
  }

  /** The out-of-order path of insert: find the first timestamp above `t` by
      bisection; overwrite the pair just before it if it carries `t`, and
      otherwise insert the new pair there. */
  function PutGeneral<V>(h: History<V>, t: int, v: V): (r: History<V>)
    requires Increasing(h)
    ensures Increasing(r)
    ensures At(r, t) == Some(v)
    ensures forall u :: u != t ==> At(r, u) == At(h, u)
    ensures |r| == if At(h, t).Some? then |h| else |h| + 1
  {
    IncreasingIsSorted(h);
    var i := BisectRight(Timestamps(h), t);
    if i > 0 && h[i - 1].ts == t then
      OverwriteKeeps(h, i - 1, v);
      h[i - 1 := Version(t, v)]
    else
      assert forall k :: 0 <= k < i ==> h[k].ts < t by {
        if i > 0 {
          assert h[i - 1].ts < t;
        }
      }
      InsertKeeps(h, i, t, v);
      h[..i] + [Version(t, v)] + h[i..]
  }

  /** `insert` on one key: the append fast path when `t` is at or after the
      last stored timestamp, the bisection path otherwise. Afterwards `t` maps
      to `v`, every other timestamp keeps its value, the history is still
      strictly increasing, and it grows by one exactly when `t` was new. */
  function Put<V>(h: History<V>, t: int, v: V): (r: History<V>)
    requires Increasing(h)
    ensures Increasing(r)
    ensures At(r, t) == Some(v)
    ensures forall u :: u != t ==> At(r, u) == At(h, u)
    ensures |r| == if At(h, t).Some? then |h| else |h| + 1
  {
    if |h| == 0 || t >= h[|h| - 1].ts then
      if |h| > 0 && t == h[|h| - 1].ts then
        OverwriteKeeps(h, |h| - 1, v);
        h[|h| - 1 := Version(t, v)]
      else
        assert h[..|h|] + [Version(t, v)] + h[|h|..] == h + [Version(t, v)];
        InsertKeeps(h, |h|, t, v);
        h + [Version(t, v)]
    else
      PutGeneral(h, t, v)
  }

  /** The append fast path is only a shortcut: it gives exactly what the
      bisection path would. */
  lemma FastPathAgrees<V>(h: History<V>, t: int, v: V)
    requires Increasing(h)
    ensures Put(h, t, v) == PutGeneral(h, t, v)
  {
    DeterminedByAt(Put(h, t, v), PutGeneral(h, t, v));
  }

  /** A reference insert by linear scan: walk past the smaller timestamps,
      then replace an equal one or put the pair in front of a larger one. */
  function Upsert<V>(h: History<V>, x: Version<V>): History<V> {
    if |h| == 0 then [x]
    else if x.ts < h[0].ts then [x] + h
    else if x.ts == h[0].ts then [x] + h[1..]
    else [h[0]] + Upsert(h[1..], x)
  }

  lemma {:induction false} UpsertKeeps<V>(h: History<V>, x: Version<V>)
    requires Increasing(h)
    ensures Increasing(Upsert(h, x))
    ensures At(Upsert(h, x), x.ts) == Some(x.val)
    ensures forall u :: u != x.ts ==> At(Upsert(h, x), u) == At(h, u)
    ensures forall y :: y in Upsert(h, x) ==> y == x || y in h
    decreases |h|
  {
    if |h| > 0 && x.ts > h[0].ts {
      UpsertKeeps(h[1..], x);
      var r := Upsert(h, x);
      assert r[1..] == Upsert(h[1..], x);
      forall k | 0 < k < |r|
        ensures h[0].ts < r[k].ts
      {
        assert r[k] in Upsert(h[1..], x);
      }
    } else if |h| > 0 && x.ts == h[0].ts {
      assert ([x] + h[1..])[1..] == h[1..];
    } else if |h| > 0 {
      assert ([x] + h)[1..] == h;
    }
  }

  /** Insert is the sorted merge of the history with the new pair: it agrees
      with the linear-scan reference on every valid history. */
  lemma PutIsSortedMerge<V>(h: History<V>, t: int, v: V)
    requires Increasing(h)
    ensures Put(h, t, v) == Upsert(h, Version(t, v))
  {
    UpsertKeeps(h, Version(t, v));
    DeterminedByAt(Put(h, t, v), Upsert(h, Version(t, v)));
  }

  // ----- reads -----

  /** Position `i` holds the last stored timestamp at or before `t`. */
  predicate IsFloor<V>(h: History<V>, t: int, i: int) {
    0 <= i < |h| && h[i].ts <= t && (i + 1 == |h| || t < h[i + 1].ts)
  }

  /** `get` on one key: the value at the largest stored timestamp that is at
      most `t`, found as one position before the bisect_right position. */
  function ValueAsOf<V>(h: History<V>, t: int): (r: Option<V>)
    requires Increasing(h)
    ensures r == None <==> |h| == 0 || t < h[0].ts
    ensures forall i :: IsFloor(h, t, i) ==> r == Some(h[i].val)
  {
    IncreasingIsSorted(h);
    if |h| == 0 then None
    else
      var i := BisectRight(Timestamps(h), t) - 1;
      if i < 0 then None else Some(h[i].val)
  }

  /** A read at a stored timestamp returns the value stored there. */
  lemma ValueAsOfExact<V>(h: History<V>, t: int)
    requires Increasing(h)
    requires At(h, t).Some?
    ensures ValueAsOf(h, t) == At(h, t)
  {
    AtWitness(h, t);
    var i :| 0 <= i < |h| && h[i].ts == t && h[i].val == At(h, t).value;
    if i + 1 < |h| {
      assert h[i].ts < h[i + 1].ts;
    }
    assert ValueAsOf(h, t) == Some(h[i].val);
  }

  /** Reading a history with one more, later version appended. */
  lemma ValueAsOfSnoc<V>(h: History<V>, y: Version<V>, t: int)
    requires Increasing(h + [y])
    ensures Increasing(h)
    ensures ValueAsOf(h + [y], t) == if y.ts <= t then Some(y.val) else ValueAsOf(h, t)
  {
    var g := h + [y];
    assert forall k :: 0 <= k < |h| ==> g[k] == h[k];
    if y.ts <= t {
      assert g[|g| - 1] == y;
    } else if |h| > 0 && h[0].ts <= t {
      IncreasingIsSorted(h);
      var i := BisectRight(Timestamps(h), t) - 1;
      assert 0 <= i < |h| && h[i].ts <= t;
      assert i + 1 == |h| || t < h[i + 1].ts;
      assert ValueAsOf(h, t) == Some(h[i].val);
      assert t < g[i + 1].ts;
      assert ValueAsOf(g, t) == Some(g[i].val);
    }
  }

  /** A reference read by linear scan from the newest version back: the
      value of the last version at or before `t`. It needs no ordering. */
  function ScanAsOf<V>(h: History<V>, t: int): Option<V> {
    if |h| == 0 then None
    else if h[|h| - 1].ts <= t then Some(h[|h| - 1].val)
    else ScanAsOf(h[..|h| - 1], t)
  }

  /** On a valid history the bisection read and the linear scan agree. */
  lemma {:induction false} ValueAsOfIsScan<V>(h: History<V>, t: int)
    requires Increasing(h)
    ensures ValueAsOf(h, t) == ScanAsOf(h, t)
    decreases |h|
  {
    if |h| > 0 {
      var h', y := h[..|h| - 1], h[|h| - 1];
      assert h == h' + [y];
      ValueAsOfSnoc(h', y, t);
      ValueAsOfIsScan(h', t);
    }
  }

  /** `latest` on one key: the value at the last stored timestamp. It is
      nothing exactly for the empty history, and on a valid history it is
      what a read answers at any time at or after the last timestamp. */
  function Newest<V>(h: History<V>): (r: Option<V>)
    ensures r == None <==> |h| == 0
    ensures Increasing(h) ==> forall t :: |h| == 0 || h[|h| - 1].ts <= t ==> r == ValueAsOf(h, t)
  {
    if |h| == 0 then None else Some(h[|h| - 1].val)
  }

  /** The slice between the first timestamp at least `s` and the first
      timestamp above `e` holds exactly the versions inside [s, e]. */
  lemma SliceBetween<V>(h: History<V>, left: int, right: int, s: int, e: int)
    requires Increasing(h)
    requires 0 <= left <= right <= |h|
    requires forall k :: 0 <= k < left ==> h[k].ts < s
    requires forall k :: left <= k < |h| ==> s <= h[k].ts
    requires forall k :: 0 <= k < right ==> h[k].ts <= e
    requires forall k :: right <= k < |h| ==> e < h[k].ts
    ensures Increasing(h[left..right])
    ensures forall x :: x in h[left..right] ==> x in h && s <= x.ts <= e
    ensures forall k :: 0 <= k < |h| && s <= h[k].ts <= e ==> h[k] in h[left..right]
  {
    forall k | 0 <= k < |h| && s <= h[k].ts <= e
      ensures h[k] in h[left..right]
    {
      assert h[left..right][k - left] == h[k];
    }
  }

  /** `get_range` on one key: the closed interval [s, e] as a slice between the
      bisect_left position of `s` and the bisect_right position of `e`. */
  function Range<V>(h: History<V>, s: int, e: int): (r: History<V>)
    requires Increasing(h)
    ensures Increasing(r)
    ensures forall x :: x in r ==> x in h && s <= x.ts <= e
    ensures forall i :: 0 <= i < |h| && s <= h[i].ts <= e ==> h[i] in r
    ensures s > e ==> r == []
  {
    IncreasingIsSorted(h);
    if s > e then []
    else if |h| == 0 then []
    else
      var left := BisectLeft(Timestamps(h), s);
      var right := BisectRight(Timestamps(h), e);
      BisectLeftBeforeRight(Timestamps(h), s, e);
      SliceBetween(h, left, right, s, e);
      h[left..right]
  }

  /** Two valid histories with the same versions are the same history, so
      the membership contract of `Range` pins down its result. */
  lemma DeterminedByMembers<V>(a: History<V>, b: History<V>)
    requires Increasing(a) && Increasing(b)
    requires forall x :: x in a ==> x in b
    requires forall x :: x in b ==> x in a
    ensures a == b
  {
    forall u
      ensures At(a, u) == At(b, u)
    {
      if At(a, u).Some? {
        AtWitness(a, u);
        var i :| 0 <= i < |a| && a[i].ts == u && a[i].val == At(a, u).value;
        assert a[i] in b;
        var j :| 0 <= j < |b| && b[j] == a[i];
        AtFound(b, j);
      } else if At(b, u).Some? {
        AtWitness(b, u);
        var j :| 0 <= j < |b| && b[j].ts == u && b[j].val == At(b, u).value;
        assert b[j] in a;
        var i :| 0 <= i < |a| && a[i] == b[j];
        AtFound(a, i);
      }
    }
    DeterminedByAt(a, b);
  }

  /** A reference range by linear filter: the versions inside [s, e], in
      history order. */
  function Window<V>(h: History<V>, s: int, e: int): History<V> {
    if |h| == 0 then []
    else (if s <= h[0].ts <= e then [h[0]] else []) + Window(h[1..], s, e)
  }

  /** The filter keeps exactly the versions inside [s, e]. */
  lemma {:induction false} WindowMembers<V>(h: History<V>, s: int, e: int)
    ensures forall x :: x in Window(h, s, e) ==> x in h && s <= x.ts <= e
    ensures forall i :: 0 <= i < |h| && s <= h[i].ts <= e ==> h[i] in Window(h, s, e)
    decreases |h|
  {
    if |h| > 0 {
      WindowMembers(h[1..], s, e);
      assert forall i :: 1 <= i < |h| ==> h[i] == h[1..][i - 1];
    }
  }

  /** The filter of a valid history is valid. */
  lemma {:induction false} WindowOrdered<V>(h: History<V>, s: int, e: int)
    requires Increasing(h)
    ensures Increasing(Window(h, s, e))
    decreases |h|
  {
    if |h| > 0 {
      var rest := Window(h[1..], s, e);
      WindowOrdered(h[1..], s, e);
      WindowMembers(h[1..], s, e);
      forall x | x in rest
        ensures h[0].ts < x.ts
      {
        var k :| 0 <= k < |h[1..]| && h[1..][k] == x;
        assert x == h[k + 1];
      }
      if s <= h[0].ts <= e {
        assert Window(h, s, e) == [h[0]] + rest;
        forall j | 0 < j < |rest| + 1
          ensures h[0].ts < ([h[0]] + rest)[j].ts
        {
          assert ([h[0]] + rest)[j] in rest;
        }
      }
    }
  }

  /** The bisection range and the linear filter agree on every valid history. */
  lemma RangeIsWindow<V>(h: History<V>, s: int, e: int)
    requires Increasing(h)
    ensures Range(h, s, e) == Window(h, s, e)
  {
    var r, w := Range(h, s, e), Window(h, s, e);
    WindowMembers(h, s, e);
    WindowOrdered(h, s, e);
    forall x | x in r
      ensures x in w
    {
      var i :| 0 <= i < |h| && h[i] == x;
    }
    forall x | x in w
      ensures x in r
    {
      var i :| 0 <= i < |h| && h[i] == x;
    }
    DeterminedByMembers(r, w);
  }

  // ----- maintenance -----

  /** `delete_upto` on one key: the number of versions at or before `t`, and
      the history without them. */
  function DropUpTo<V>(h: History<V>, t: int): (r: (nat, History<V>))
    requires Increasing(h)
    ensures r.0 == CountAtMost(Timestamps(h), t)
    ensures r.0 <= |h| && r.1 == h[r.0..]
    ensures forall i :: 0 <= i < r.0 ==> h[i].ts <= t
    ensures forall x :: x in r.1 ==> t < x.ts
    ensures Increasing(r.1)
  {
    IncreasingIsSorted(h);
    BisectRightCounts(Timestamps(h), t);
    if |h| == 0 then (0, h)
    else
      var cut := BisectRight(Timestamps(h), t);
      if cut <= 0 then (0, h) else (cut, h[cut..])
  }

  /** The count pass of `compact`: a non-negative `n` smaller than the history
      length keeps exactly the newest `n` versions; otherwise nothing changes. */
  function KeepLast<V>(h: History<V>, n: Option<int>): (r: History<V>)
    ensures |r| == if n.Some? && 0 <= n.value < |h| then n.value else |h|
    ensures r == h[|h| - |r|..]
  {
    if n.Some? && n.value >= 0 && |h| > n.value then h[|h| - n.value..] else h
  }

  /** No two neighbouring versions carry the same value. */
  predicate NoAdjacentDup<V(==)>(h: History<V>) {
    forall i :: 0 < i < |h| ==> h[i - 1].val != h[i].val
  }

  /** The heads of the runs of equal values: the first version, and every
      version whose value differs from the version right before it. */
  function RunHeads<V(==)>(h: History<V>): (r: History<V>)
    ensures |r| <= |h|
    ensures |h| > 0 ==> |r| > 0 && r[0] == h[0] && r[|r| - 1].val == h[|h| - 1].val
    ensures forall x :: x in r ==> x in h
    ensures NoAdjacentDup(r)
    ensures Increasing(h) ==> Increasing(r)
    decreases |h|
  {
    if |h| <= 1 then h
    else
      var h', y := h[..|h| - 1], h[|h| - 1];
      assert Increasing(h) ==> Increasing(h');
      var p := RunHeads(h');
      if y.val == h[|h| - 2].val then p
      else
        assert Increasing(h) ==> forall k :: 0 <= k < |p| ==> p[k].ts < y.ts by {
          if Increasing(h) {
            forall k | 0 <= k < |p|
              ensures p[k].ts < y.ts
            {
              assert p[k] in h';
              var m :| 0 <= m < |h'| && h'[m] == p[k];
              assert h[m] == p[k];
            }
          }
        }
        p + [y]
  }

  /** The dedup pass of `compact`, a left-to-right scan that keeps a version
      only when its value differs from the last version kept. */
  method DedupAdjacent<V(==)>(h: History<V>) returns (r: History<V>)
    ensures r == RunHeads(h)
  {
    if |h| == 0 {
      return [];
    }
    r := [h[0]];
    var i := 1;
    while i < |h|
      invariant 1 <= i <= |h|
      invariant r == RunHeads(h[..i])
    {
      DedupStep(h, i);
      if h[i].val != r[|r| - 1].val {
        r := r + [h[i]];
      }
      i := i + 1;
    }
    assert h[..|h|] == h;
  }

  /** A sequence without neighbouring duplicates is its own run heads, so the
      dedup pass is idempotent. */
  lemma {:induction false} RunHeadsOfDistinct<V>(h: History<V>)
    requires NoAdjacentDup(h)
    ensures RunHeads(h) == h
    decreases |h|
  {
    if |h| > 1 {
      RunHeadsOfDistinct(h[..|h| - 1]);
      assert h[..|h| - 1] + [h[|h| - 1]] == h;
    }
  }

  lemma DedupIdempotent<V>(h: History<V>)
    ensures RunHeads(RunHeads(h)) == RunHeads(h)
  {
    RunHeadsOfDistinct(RunHeads(h));
  }

  /** Unfolding the run heads of a history extended by one version. */
  lemma RunHeadsSnoc<V>(h': History<V>, y: Version<V>)
    requires |h'| > 0
    ensures RunHeads(h' + [y]) == if y.val == h'[|h'| - 1].val then RunHeads(h') else RunHeads(h') + [y]
  {
    var h := h' + [y];
    assert h[..|h| - 1] == h';
  }

  /** One step of the dedup loop: the run heads of one more version of `h`. */
  lemma DedupStep<V>(h: History<V>, i: int)
    requires 1 <= i < |h|
    ensures RunHeads(h[..i + 1]) ==
            if h[i].val == RunHeads(h[..i])[|RunHeads(h[..i])| - 1].val then RunHeads(h[..i])
            else RunHeads(h[..i]) + [h[i]]
  {
    assert h[..i + 1] == h[..i] + [h[i]];
    RunHeadsSnoc(h[..i], h[i]);
  }

  /** One step of the induction below: the run heads of a history extended
      by a later version read the new version from its timestamp on, and read
      as the old run heads before it. */
  lemma DedupReadsStep<V>(h': History<V>, y: Version<V>, t: int)
    requires |h'| > 0 && Increasing(h' + [y])
    ensures Increasing(h')
    ensures ValueAsOf(RunHeads(h' + [y]), t) == if y.ts <= t then Some(y.val) else ValueAsOf(RunHeads(h'), t)
  {
    ValueAsOfSnoc(h', y, t);
    RunHeadsSnoc(h', y);
    var p := RunHeads(h');
    if y.val != h'[|h'| - 1].val {
      assert RunHeads(h' + [y]) == p + [y];
      ValueAsOfSnoc(p, y, t);
    } else if y.ts <= t {
      assert p[|p| - 1].ts < y.ts by {
        var q := p[|p| - 1];
        assert q in h';
        var k :| 0 <= k < |h'| && h'[k] == q;
        assert (h' + [y])[k] == q && (h' + [y])[|h'|] == y;
      }
      assert Newest(p) == ValueAsOf(p, t);
    }
  }

  /** Collapsing runs of equal values changes no point-in-time read. */
  lemma {:induction false} DedupPreservesReads<V>(h: History<V>, t: int)
    requires Increasing(h)
    ensures ValueAsOf(RunHeads(h), t) == ValueAsOf(h, t)
    decreases |h|
  {
    if |h| > 1 {
      var h', y := h[..|h| - 1], h[|h| - 1];
      assert h == h' + [y];
      DedupReadsStep(h', y, t);
      DedupPreservesReads(h', t);
      ValueAsOfSnoc(h', y, t);
    }
  }

  lemma DedupPreservesAllReads<V>(h: History<V>)
    requires Increasing(h)
    ensures forall t :: ValueAsOf(RunHeads(h), t) == ValueAsOf(h, t)
  {
    forall t
      ensures ValueAsOf(RunHeads(h), t) == ValueAsOf(h, t)
    {
      DedupPreservesReads(h, t);
    }
  }

  /** The floor position of `t`: the last stored timestamp at or before `t`. */
  lemma Floor<V>(h: History<V>, t: int) returns (i: nat)
    requires Increasing(h) && |h| > 0 && h[0].ts <= t
    ensures IsFloor(h, t, i)
  {
    IncreasingIsSorted(h);
    i := BisectRight(Timestamps(h), t) - 1;
  }

  /** Dropping a prefix keeps every read at or after the first timestamp that
      remains; this covers both `delete_upto` and the count pass of `compact`. */
  lemma SuffixPreservesReads<V>(h: History<V>, k: int, t: int)
    requires Increasing(h)
    requires 0 <= k < |h| && h[k].ts <= t
    ensures ValueAsOf(h[k..], t) == ValueAsOf(h, t)
  {
    var i := Floor(h, t);
    assert k <= i;
    var g := h[k..];
    assert g[i - k] == h[i];
    assert i - k + 1 == |g| || g[i - k + 1] == h[i + 1];
    assert ValueAsOf(g, t) == Some(g[i - k].val);
  }

  /** What the count pass keeps: a suffix, so still strictly increasing, with
      the newest version unless the count is zero, and everything when there is
      no count limit. */
  lemma KeepLastKeeps<V>(h: History<V>, n: Option<int>)
    requires Increasing(h)
    ensures Increasing(KeepLast(h, n))
    ensures forall x :: x in KeepLast(h, n) ==> x in h
    ensures |h| > 0 && (n.None? || n.value != 0) ==>
              |KeepLast(h, n)| > 0 && KeepLast(h, n)[|KeepLast(h, n)| - 1] == h[|h| - 1]
    ensures n.None? || n.value < 0 ==> KeepLast(h, n) == h
  {
  }

  /** The versions the count pass keeps answer every read from their oldest
      timestamp on as the whole history does. */
  lemma KeepLastReads<V>(h: History<V>, n: Option<int>)
    requires Increasing(h)
    ensures forall t :: |KeepLast(h, n)| > 0 && KeepLast(h, n)[0].ts <= t ==>
              ValueAsOf(KeepLast(h, n), t) == ValueAsOf(h, t)
  {
    var kept := KeepLast(h, n);
    forall t | |kept| > 0 && kept[0].ts <= t
      ensures ValueAsOf(kept, t) == ValueAsOf(h, t)
    {
      var k := |h| - |kept|;
      assert h[k] == kept[0];
      SuffixPreservesReads(h, k, t);
    }
  }

  /** `compact` on one key: the count pass keeps the newest `n` versions,
      then the dedup pass, when asked for, collapses them to their run heads.
      What that result promises is `CompactedKeeps` and `CompactedReads` below. */
  function Compacted<V(==)>(h: History<V>, keepLastN: Option<int>, dedup: bool): (r: History<V>)
    requires Increasing(h)
    ensures Increasing(r)
    ensures !dedup ==> r == KeepLast(h, keepLastN)
    ensures dedup ==> r == RunHeads(KeepLast(h, keepLastN))
  {
    var kept := KeepLast(h, keepLastN);
    KeepLastKeeps(h, keepLastN);
    if dedup && |kept| > 0 then RunHeads(kept) else kept
  }

  /** The result of `compact` on one key is a selection of the old versions.
      It keeps at most `n` versions for a non-negative `n`, has no
      neighbouring duplicates after dedup, and keeps the newest value unless
      `n` is zero. */
  lemma CompactedKeeps<V>(h: History<V>, keepLastN: Option<int>, dedup: bool)
    requires Increasing(h)
    ensures forall x :: x in Compacted(h, keepLastN, dedup) ==> x in h
    ensures keepLastN.Some? && keepLastN.value >= 0 ==> |Compacted(h, keepLastN, dedup)| <= keepLastN.value
    ensures dedup ==> NoAdjacentDup(Compacted(h, keepLastN, dedup))
    ensures (keepLastN.None? || keepLastN.value != 0) ==> Newest(Compacted(h, keepLastN, dedup)) == Newest(h)
  {
    var kept := KeepLast(h, keepLastN);
    KeepLastKeeps(h, keepLastN);
    if dedup && |kept| > 0 {
      DedupKeeps(kept);
      assert Compacted(h, keepLastN, dedup) == RunHeads(kept);
    } else {
      assert Compacted(h, keepLastN, dedup) == kept;
    }
  }

  /** The compacted history answers every read from its oldest timestamp on
      as the full history does, and every read at all without a count limit. */
  lemma CompactedReads<V>(h: History<V>, keepLastN: Option<int>, dedup: bool)
    requires Increasing(h)
    ensures forall t :: |Compacted(h, keepLastN, dedup)| > 0 && Compacted(h, keepLastN, dedup)[0].ts <= t ==>
              ValueAsOf(Compacted(h, keepLastN, dedup), t) == ValueAsOf(h, t)
    ensures (keepLastN.None? || keepLastN.value < 0) ==>
              forall t :: ValueAsOf(Compacted(h, keepLastN, dedup), t) == ValueAsOf(h, t)
  {
    var kept := KeepLast(h, keepLastN);
    KeepLastKeeps(h, keepLastN);
    KeepLastReads(h, keepLastN);
    if dedup && |kept| > 0 {
      DedupKeeps(kept);
      assert Compacted(h, keepLastN, dedup) == RunHeads(kept);
    } else {
      assert Compacted(h, keepLastN, dedup) == kept;
    }
  }

  /** What the dedup pass keeps of a non-empty valid history: its oldest
      version, its newest value and every point-in-time read. */
  lemma DedupKeeps<V>(h: History<V>)
    requires Increasing(h) && |h| > 0
    ensures RunHeads(h)[0] == h[0]
    ensures Newest(RunHeads(h)) == Newest(h)
    ensures forall t :: ValueAsOf(RunHeads(h), t) == ValueAsOf(h, t)
  {
    DedupPreservesAllReads(h);
  }
}
