/**
 The per-key work of `insert_many`: the key's bucket of (timestamp, value)
 pairs is sorted stably by timestamp and every pair then goes through the
 insert logic. The point of this module is that the result is exactly what
 inserting the bucket in its original order gives.
 */
module Batch {
  import opened Versions

  /** Timestamps never decrease along `s` (equal timestamps allowed). */
  predicate InOrder<V>(s: seq<Version<V>>) {
    forall i, j :: 0 <= i < j < |s| ==> s[i].ts <= s[j].ts
  }

  /** Putting `y` in front of an ordered sequence keeps it ordered when
      `y` is not later than the front. */
  lemma InOrderCons<V>(y: Version<V>, s: seq<Version<V>>)
    requires InOrder(s)
    requires |s| == 0 || y.ts <= s[0].ts
    ensures InOrder([y] + s)
  {
    forall i, j | 0 <= i < j < |s| + 1
      ensures ([y] + s)[i].ts <= ([y] + s)[j].ts
    {
      if i == 0 {
        assert ([y] + s)[j] == s[j - 1];
      }
    }
  }

  /** The values recorded for timestamp `u`, in sequence order. */
  function ValuesAt<V>(b: seq<Version<V>>, u: int): seq<V> {
    if |b| == 0 then [] else ValueIf(b[0], u) + ValuesAt(b[1..], u)
  }

  /** The value of `y` if it carries timestamp `u`, else nothing. */
  function ValueIf<V>(y: Version<V>, u: int): seq<V> {
    if y.ts == u then [y.val] else []
  }

  lemma {:induction false} ValuesAtConcat<V>(a: seq<Version<V>>, b: seq<Version<V>>, u: int)
    ensures ValuesAt(a + b, u) == ValuesAt(a, u) + ValuesAt(b, u)
    decreases |a|
  {
    if |a| == 0 {
      assert a + b == b;
    } else {
      assert (a + b)[1..] == a[1..] + b;
      ValuesAtConcat(a[1..], b, u);
    }
  }

  lemma ValuesAtCons<V>(y: Version<V>, s: seq<Version<V>>, u: int)
    ensures ValuesAt([y] + s, u) == ValueIf(y, u) + ValuesAt(s, u)
  {
    assert ([y] + s)[1..] == s;
  }

  lemma {:induction false} ValuesAtMissing<V>(b: seq<Version<V>>, u: int)
    requires forall i :: 0 <= i < |b| ==> b[i].ts != u
    ensures ValuesAt(b, u) == []
    decreases |b|
  {
    if |b| > 0 {
      ValuesAtMissing(b[1..], u);
    }
  }

  /** The last of `vs`, or `d` when `vs` is empty. */
  function LastOr<V>(vs: seq<V>, d: Option<V>): Option<V> {
    if |vs| == 0 then d else Some(vs[|vs| - 1])
  }

  // ----- the stable sort -----

  /** Stable insertion: `x` goes in front of the first element whose timestamp
      is not smaller, so it stays ahead of the equal timestamps after it. */
  function InsertStable<V>(x: Version<V>, s: seq<Version<V>>): (r: seq<Version<V>>)
    ensures |r| == |s| + 1
    ensures multiset(r) == multiset([x] + s)
    decreases |s|
  {
    if |s| == 0 || x.ts <= s[0].ts then [x] + s
    else
      assert s == [s[0]] + s[1..];
      [s[0]] + InsertStable(x, s[1..])
  }

  lemma {:induction false} InsertStableOrdered<V>(x: Version<V>, s: seq<Version<V>>)
    requires InOrder(s)
    ensures InOrder(InsertStable(x, s))
    decreases |s|
  {
    if |s| == 0 || x.ts <= s[0].ts {
      InOrderCons(x, s);
    } else {
      var s' := s[1..];
      var rest := InsertStable(x, s');
      InsertStableOrdered(x, s');
      forall k | 0 <= k < |rest|
        ensures s[0].ts <= rest[k].ts
      {
        assert rest[k] in multiset([x] + s');
        if rest[k] != x {
          assert rest[k] in s';
        }
      }
      InOrderCons(s[0], rest);
    }
  }

  /** Insertion sort by timestamp, stable like the sort of the bucket it
      models: the result is an ordered permutation of the bucket. */
  function SortByTs<V>(b: seq<Version<V>>): (r: seq<Version<V>>)
    ensures multiset(r) == multiset(b)
    ensures InOrder(r)
    decreases |b|
  {
    if |b| == 0 then []
    else
      assert b == [b[0]] + b[1..];
      InsertStableOrdered(b[0], SortByTs(b[1..]));
      InsertStable(b[0], SortByTs(b[1..]))
  }

  lemma {:induction false} InsertStableKeepsTies<V>(x: Version<V>, s: seq<Version<V>>, u: int)
    ensures ValuesAt(InsertStable(x, s), u) == ValuesAt([x] + s, u)
    decreases |s|
  {
    if |s| > 0 && x.ts > s[0].ts {
      var s0, s' := s[0], s[1..];
      var rest := InsertStable(x, s');
      assert s == [s0] + s';
      // x and s0 carry different timestamps, so at most one of them counts
      assert ValueIf(s0, u) + ValueIf(x, u) == ValueIf(x, u) + ValueIf(s0, u);
      calc {
        ValuesAt(InsertStable(x, s), u);
        ValuesAt([s0] + rest, u);
        { ValuesAtCons(s0, rest, u); }
        ValueIf(s0, u) + ValuesAt(rest, u);
        { InsertStableKeepsTies(x, s', u); ValuesAtCons(x, s', u); }
        ValueIf(s0, u) + (ValueIf(x, u) + ValuesAt(s', u));
        ValueIf(x, u) + (ValueIf(s0, u) + ValuesAt(s', u));
        { ValuesAtCons(s0, s', u); }
        ValueIf(x, u) + ValuesAt(s, u);
        { ValuesAtCons(x, s, u); }
        ValuesAt([x] + s, u);
      }
    }
  }

  /** Stability: for every timestamp, the sort keeps the values carrying that
      timestamp in their input order. */
  lemma {:induction false} SortIsStable<V>(b: seq<Version<V>>, u: int)
    ensures ValuesAt(SortByTs(b), u) == ValuesAt(b, u)
    decreases |b|
  {
    if |b| > 0 {
      SortIsStable(b[1..], u);
      InsertStableKeepsTies(b[0], SortByTs(b[1..]), u);
      ValuesAtConcat([b[0]], SortByTs(b[1..]), u);
      ValuesAtConcat([b[0]], b[1..], u);
      assert b == [b[0]] + b[1..];
    }
  }

  // ----- inserting a bucket -----

  /** Insert every pair of `items` in order. Afterwards each timestamp that
      occurs in `items` holds the value of its last occurrence, and every other
      timestamp keeps what it had. */
  function PutAll<V>(h: History<V>, items: seq<Version<V>>): (r: History<V>)
    requires Increasing(h)
    ensures Increasing(r)
    ensures forall u :: At(r, u) == LastOr(ValuesAt(items, u), At(h, u))
    decreases |items|
  {
    if |items| == 0 then h
    else
      var x := items[0];
      var r := PutAll(Put(h, x.ts, x.val), items[1..]);
      assert forall u :: At(r, u) == LastOr(ValuesAt(items, u), At(h, u)) by {
        forall u
          ensures At(r, u) == LastOr(ValuesAt(items, u), At(h, u))
        {
          ValuesAtConcat([x], items[1..], u);
          assert items == [x] + items[1..];
        }
      }
      r
  }

  /** The per-key loop of `insert_many`: stable-sort the bucket by timestamp,
      then insert each pair. It ends exactly where inserting the bucket in its
      original order ends, so of two pairs with the same timestamp the later
      one wins. */
  function InsertBucket<V>(h: History<V>, bucket: seq<Version<V>>): (r: History<V>)
    requires Increasing(h)
    ensures Increasing(r)
    ensures r == PutAll(h, bucket)
  {
    var sorted := SortByTs(bucket);
    assert PutAll(h, sorted) == PutAll(h, bucket) by {
      forall u
        ensures At(PutAll(h, sorted), u) == At(PutAll(h, bucket), u)
      {
        SortIsStable(bucket, u);
      }
      DeterminedByAt(PutAll(h, sorted), PutAll(h, bucket));
    }
    PutAll(h, sorted)
  }

  // ----- order does not matter for distinct timestamps -----

  /** No timestamp occurs twice in `b`. */
  predicate DistinctTimestamps<V>(b: seq<Version<V>>) {
    forall i, j :: 0 <= i < j < |b| ==> b[i].ts != b[j].ts
  }

  lemma {:induction false} ValuesAtOfDistinct<V>(b: seq<Version<V>>, u: int)
    requires DistinctTimestamps(b)
    ensures |ValuesAt(b, u)| <= 1
    decreases |b|
  {
    if |b| > 0 {
      if b[0].ts == u {
        ValuesAtMissing(b[1..], u);
      } else {
        ValuesAtOfDistinct(b[1..], u);
      }
    }
  }

  /** `b` without one occurrence of `x`: the multiset loses `x` and the
      values recorded for `u` lose its value, if it carries `u`. */
  lemma Remove<V>(b: seq<Version<V>>, x: Version<V>, u: int) returns (b': seq<Version<V>>)
    requires x in multiset(b)
    ensures multiset(b') == multiset(b) - multiset{x}
    ensures multiset(ValuesAt(b, u)) == multiset(ValueIf(x, u)) + multiset(ValuesAt(b', u))
  {
    var k :| 0 <= k < |b| && b[k] == x;
    b' := b[..k] + b[k + 1..];
    assert b == b[..k] + [b[k]] + b[k + 1..];
    assert multiset(b) == multiset(b[..k]) + multiset{b[k]} + multiset(b[k + 1..]);
    ValuesAtConcat(b[..k] + [b[k]], b[k + 1..], u);
    ValuesAtConcat(b[..k], [b[k]], u);
    ValuesAtConcat(b[..k], b[k + 1..], u);
    ValuesAtCons(b[k], [], u);
  }

  /** Permuting a sequence permutes the values recorded for each timestamp. */
  lemma {:induction false} ValuesAtOfPermutation<V>(b1: seq<Version<V>>, b2: seq<Version<V>>, u: int)
    requires multiset(b1) == multiset(b2)
    ensures multiset(ValuesAt(b1, u)) == multiset(ValuesAt(b2, u))
    decreases |b1|
  {
    if |b1| == 0 {
      assert |b2| == |multiset(b2)| == 0;
    } else {
      var b2' := MatchHead(b1, b2, u);
      ValuesAtOfPermutation(b1[1..], b2', u);
    }
  }

  /** The step of the induction above: the head of `b1` is somewhere in its
      permutation `b2`; what remains of `b2` without it is a permutation of
      the tail of `b1`. */
  lemma MatchHead<V>(b1: seq<Version<V>>, b2: seq<Version<V>>, u: int) returns (b2': seq<Version<V>>)
    requires |b1| > 0 && multiset(b1) == multiset(b2)
    ensures multiset(b1[1..]) == multiset(b2')
    ensures multiset(ValuesAt(b2, u)) == multiset(ValueIf(b1[0], u)) + multiset(ValuesAt(b2', u))
  {
    var x := b1[0];
    assert x in multiset(b1);
    b2' := Remove(b2, x, u);
    TailMultiset(b1);
  }

  lemma TailMultiset<T>(s: seq<T>)
    requires |s| > 0
    ensures multiset(s[1..]) == multiset(s) - multiset{s[0]}
  {
    assert s == [s[0]] + s[1..];
  }

  /** With distinct timestamps, a timestamp records the same values in any
      permutation. */
  lemma ValuesAtOfDistinctPermutation<V>(b1: seq<Version<V>>, b2: seq<Version<V>>, u: int)
    requires multiset(b1) == multiset(b2)
    requires DistinctTimestamps(b1)
    ensures ValuesAt(b1, u) == ValuesAt(b2, u)
  {
    ValuesAtOfDistinct(b1, u);
    ValuesAtOfPermutation(b1, b2, u);
    AtMostOneIsItsMultiset(ValuesAt(b1, u), ValuesAt(b2, u));
  }

  /** A sequence of at most one element is determined by its multiset. */
  lemma AtMostOneIsItsMultiset<T>(v1: seq<T>, v2: seq<T>)
    requires |v1| <= 1
    requires multiset(v1) == multiset(v2)
    ensures v1 == v2
  {
    assert |v2| == |multiset(v2)| == |multiset(v1)| == |v1|;
    if |v1| == 1 {
      assert v1 == [v1[0]] && v2 == [v2[0]];
      assert multiset{v1[0]} == multiset{v2[0]};
    }
  }

  /** Inserting pairs with pairwise distinct timestamps gives the same history
      whatever order they arrive in. */
  lemma OrderIrrelevantForDistinct<V>(h: History<V>, b1: seq<Version<V>>, b2: seq<Version<V>>)
    requires Increasing(h)
    requires multiset(b1) == multiset(b2)
    requires DistinctTimestamps(b1)
    ensures PutAll(h, b1) == PutAll(h, b2)
  {
    forall u
      ensures At(PutAll(h, b1), u) == At(PutAll(h, b2), u)
    {
      ValuesAtOfDistinctPermutation(b1, b2, u);
    }
    DeterminedByAt(PutAll(h, b1), PutAll(h, b2));
  }
}
