/**
 The time-versioned store `Cache`: for every key, its version history. An
 absent key reads exactly as an empty history, so the `defaultdict` lists of
 `Cache` in `kv/cache.py` need no counterpart here. Every operation is a pure function
 from the old store to its result and, for the writes, the new store.
 */
module KvCache {
  import opened Bisect
  import opened Versions
  import opened Batch

  datatype Cache<V> = Cache(histories: map<string, History<V>>)

  /** One entry of a batch insert: (timestamp, key, value). */
  datatype Entry<V> = Entry(ts: int, key: string, val: V)

  /** The history of `key`; an absent key has the empty history. */
  function Of<V>(c: Cache<V>, key: string): History<V> {
    if key in c.histories then c.histories[key] else []
  }

  /** The invariant the cache keeps for every key. */
  predicate Valid<V>(c: Cache<V>) {
    forall k :: k in c.histories ==> Increasing(c.histories[k])
  }

  /** A new cache stores nothing. */
  function New<V>(): (c: Cache<V>)
    ensures Valid(c)
    ensures forall k :: Of(c, k) == []
  {
    Cache(map[])
  }

  // ----- writes -----

  /** `insert`: afterwards a read of `key` at `t` gives `v`; every other
      timestamp of `key` and every other key are untouched; the history of
      `key` grows by one exactly when `t` was not stored yet. */
  function Insert<V>(c: Cache<V>, t: int, key: string, v: V): (c': Cache<V>)
    requires Valid(c)
    ensures Valid(c')
    ensures Get(c', t, key) == Some(v)
    ensures At(Of(c', key), t) == Some(v)
    ensures forall u :: u != t ==> At(Of(c', key), u) == At(Of(c, key), u)
    ensures |Of(c', key)| == if At(Of(c, key), t).Some? then |Of(c, key)| else |Of(c, key)| + 1
    ensures forall k :: k != key ==> Of(c', k) == Of(c, k)
  {
    var h := Put(Of(c, key), t, v);
    ValueAsOfExact(h, t);
    Cache(c.histories[key := h])
  }

  /** The keys mentioned in a batch. */
  function Keys<V>(entries: seq<Entry<V>>): set<string> {
    set i | 0 <= i < |entries| :: entries[i].key
  }

  /** The bucket of `key`: its (timestamp, value) pairs in input order. */
  function Bucket<V>(entries: seq<Entry<V>>, key: string): seq<Version<V>> {
    if |entries| == 0 then []
    else
      (if entries[0].key == key then [Version(entries[0].ts, entries[0].val)] else [])
      + Bucket(entries[1..], key)
  }

  /** The reference meaning of a batch: `insert` each entry in input order. */
  function InsertEach<V>(c: Cache<V>, entries: seq<Entry<V>>): (c': Cache<V>)
    requires Valid(c)
    ensures Valid(c')
    decreases |entries|
  {
    if |entries| == 0 then c
    else
      var e := entries[0];
      InsertEach(Insert(c, e.ts, e.key, e.val), entries[1..])
  }

  lemma KeysOfCons<V>(entries: seq<Entry<V>>)
    requires |entries| > 0
    ensures Keys(entries) == {entries[0].key} + Keys(entries[1..])
  {
    forall k | k in Keys(entries)
      ensures k in {entries[0].key} + Keys(entries[1..])
    {
      var i :| 0 <= i < |entries| && entries[i].key == k;
      if i > 0 {
        assert entries[1..][i - 1].key == k;
      }
    }
    forall k | k in Keys(entries[1..])
      ensures k in Keys(entries)
    {
      var i :| 0 <= i < |entries[1..]| && entries[1..][i].key == k;
      assert entries[i + 1].key == k;
    }
  }

  lemma {:induction false} BucketOfAbsentKey<V>(entries: seq<Entry<V>>, key: string)
    requires key !in Keys(entries)
    ensures Bucket(entries, key) == []
    decreases |entries|
  {
    if |entries| > 0 {
      KeysOfCons(entries);
      BucketOfAbsentKey(entries[1..], key);
    }
  }

  /** Sequential inserts leave each key with its bucket inserted in order. */
  lemma {:induction false} InsertEachPerKey<V>(c: Cache<V>, entries: seq<Entry<V>>, k: string)
    requires Valid(c)
    ensures Of(InsertEach(c, entries), k) == PutAll(Of(c, k), Bucket(entries, k))
    decreases |entries|
  {
    if |entries| > 0 {
      var e := entries[0];
      var c1 := Insert(c, e.ts, e.key, e.val);
      assert InsertEach(c, entries) == InsertEach(c1, entries[1..]);
      InsertEachPerKey(c1, entries[1..], k);
      var rest := Bucket(entries[1..], k);
      if e.key == k {
        var x := Version(e.ts, e.val);
        assert Of(c1, k) == Put(Of(c, k), e.ts, e.val);
        assert Bucket(entries, k) == [x] + rest;
        assert ([x] + rest)[1..] == rest;
        assert PutAll(Of(c, k), [x] + rest) == PutAll(Put(Of(c, k), e.ts, e.val), rest);
      } else {
        assert Of(c1, k) == Of(c, k);
        assert Bucket(entries, k) == rest;
      }
    }
  }

  /** Sequential inserts add exactly the keys of the batch. */
  lemma {:induction false} InsertEachKeys<V>(c: Cache<V>, entries: seq<Entry<V>>)
    requires Valid(c)
    ensures InsertEach(c, entries).histories.Keys == c.histories.Keys + Keys(entries)
    decreases |entries|
  {
    if |entries| > 0 {
      var e := entries[0];
      var c1 := Insert(c, e.ts, e.key, e.val);
      assert InsertEach(c, entries) == InsertEach(c1, entries[1..]);
      assert c1.histories.Keys == c.histories.Keys + {e.key};
      InsertEachKeys(c1, entries[1..]);
      KeysOfCons(entries);
    }
  }

  /** `insert_many`: every key of the batch gets its bucket, stably sorted by
      timestamp, inserted into its history; the other keys are untouched. The
      result is the store that inserting the entries one by one in input order
      produces. */
  function InsertMany<V>(c: Cache<V>, entries: seq<Entry<V>>): (c': Cache<V>)
    requires Valid(c)
    ensures Valid(c')
    ensures c' == InsertEach(c, entries)
  {
    var keys := Keys(entries);
    var m := map k | k in c.histories.Keys + keys ::
      if k in keys then InsertBucket(Of(c, k), Bucket(entries, k)) else c.histories[k];
    assert m == InsertEach(c, entries).histories by {
      var s := InsertEach(c, entries).histories;
      InsertEachKeys(c, entries);
      forall k | k in m.Keys
        ensures m[k] == s[k]
      {
        InsertEachPerKey(c, entries, k);
        if k !in keys {
          BucketOfAbsentKey(entries, k);
        }
      }
    }
    Cache(m)
  }

  // ----- reads -----

  /** `get`: the value at the largest stored timestamp at most `t`; nothing
      when the key is absent or every stored timestamp is later than `t`. */
  function Get<V>(c: Cache<V>, t: int, key: string): (r: Option<V>)
    requires Valid(c)
    ensures key !in c.histories ==> r == None
    ensures r == None <==> |Of(c, key)| == 0 || t < Of(c, key)[0].ts
    ensures forall i :: IsFloor(Of(c, key), t, i) ==> r == Some(Of(c, key)[i].val)
  {
    ValueAsOf(Of(c, key), t)
  }

  /** `latest`: nothing for an empty or absent key, otherwise what `get`
      answers at any time at or after the last stored timestamp. */
  function Latest<V>(c: Cache<V>, key: string): (r: Option<V>)
    requires Valid(c)
    ensures r == None <==> |Of(c, key)| == 0
    ensures forall t :: |Of(c, key)| == 0 || Of(c, key)[|Of(c, key)| - 1].ts <= t ==> r == Get(c, t, key)
  {
    Newest(Of(c, key))
  }

  /** `get_range`: exactly the stored versions with `s <= ts <= e`, in
      ascending timestamp order; empty for an inverted range or absent key. */
  function GetRange<V>(c: Cache<V>, key: string, s: int, e: int): (r: seq<Version<V>>)
    requires Valid(c)
    ensures s > e || key !in c.histories ==> r == []
    ensures Increasing(r)
    ensures forall x :: x in r ==> x in Of(c, key) && s <= x.ts <= e
    ensures forall i :: 0 <= i < |Of(c, key)| && s <= Of(c, key)[i].ts <= e ==> Of(c, key)[i] in r
  {
    Range(Of(c, key), s, e)
  }

  // ----- maintenance -----

  /** `delete_upto`: removes the versions of `key` at or before `t` and
      returns how many there were; the rest of the history is kept as it was,
      and nothing changes when no version qualifies. */
  function DeleteUpto<V>(c: Cache<V>, key: string, t: int): (r: (nat, Cache<V>))
    requires Valid(c)
    ensures Valid(r.1)
    ensures r.0 == CountAtMost(Timestamps(Of(c, key)), t)
    ensures r.0 <= |Of(c, key)| && Of(r.1, key) == Of(c, key)[r.0..]
    ensures forall i :: 0 <= i < r.0 ==> Of(c, key)[i].ts <= t
    ensures forall x :: x in Of(r.1, key) ==> t < x.ts
    ensures r.0 == 0 ==> r.1 == c
    ensures forall k :: k != key ==> Of(r.1, k) == Of(c, k)
  {
    var d := DropUpTo(Of(c, key), t);
    if d.0 == 0 then (0, c) else (d.0, Cache(c.histories[key := d.1]))
  }

  /** `compact`: only the history of `key` changes, to its compacted form; an
      absent or empty key is left alone. */
  function Compact<V(==)>(c: Cache<V>, key: string, keepLastN: Option<int>, dedup: bool): (c': Cache<V>)
    requires Valid(c)
    ensures Valid(c')
    ensures |Of(c, key)| == 0 ==> c' == c
    ensures Of(c', key) == Compacted(Of(c, key), keepLastN, dedup)
    ensures forall k :: k != key ==> Of(c', k) == Of(c, k)
  {
    var h := Of(c, key);
    if |h| == 0 then c else Cache(c.histories[key := Compacted(h, keepLastN, dedup)])
  }
}
