# kv-cache in Dafny

A model of `Cache` from `kv/cache.py`, a time-versioned key-value store.
For every key the cache keeps the timestamps at which values became
effective, in ascending order, and the values themselves. A read at time `t`
answers with the value that was in force at `t`.

The model has five modules, one per concern of `kv/cache.py`:

- `Bisect` (`bisect.dfy`): `bisect_left` and `bisect_right` as recursive
  binary searches with the loop shape of the standard routines. On a sorted
  sequence they are pinned to linear counts.
- `Versions` (`versions.dfy`): the history of one key. The two parallel
  arrays become one sequence of `Version(ts, val)` pairs, so both arrays have
  the same length by construction. Every single-key operation is a function
  on such a history:
  - `Put` is `insert`;
  - `ValueAsOf` is `get`;
  - `Newest` is `latest`;
  - `Range` is `get_range`;
  - `DropUpTo` is `delete_upto`;
  - `Compacted` is `compact`: `KeepLast`, then `RunHeads` when dedup is
    asked for. `DedupAdjacent` is the dedup loop of `compact`, proved equal
    to `RunHeads`.

  The invariant is `Increasing`: timestamps strictly increase. `At(h, t)`
  reads a history as a finite map from timestamps to values. Two valid
  histories with the same map are equal (`DeterminedByAt`).
- `Batch` (`batch.dfy`): the per-key work of `insert_many`. The stable sort
  by timestamp is an insertion sort. Its stability is stated through
  `ValuesAt`, the values a sequence records for one timestamp, in order.
- `KvCache` (`cache.dfy`): the public methods of `Cache`. The store is a
  map from keys to histories, and an absent key reads as the empty history.
- `Walkthrough` (`walkthrough.dfy`): the `__main__` walkthrough of
  `kv/cache.py` and the unit tests of `tests/test_cache.py`, as lemmas about
  the model.

The class docstring describes the per-key timestamps as "non-decreasing".
The code is stricter: an insert at a stored timestamp overwrites in place, on
both paths. So no timestamp is ever stored twice, and the model's invariant
is strict increase. Every operation is proved to keep it.

## Model

| member | source | states |
|---|---|---|
| Bisect.BisectRight | kv/cache.py:51 | On a sorted sequence, every element before the result is at most `x` and every element from it on is above `x`. |
| Bisect.BisectLeft | kv/cache.py:107 | On a sorted sequence, every element before the result is below `x` and every element from it on is at least `x`. |
| Bisect.BisectRightCounts | kv/cache.py:119 | On a sorted sequence, `bisect_right` equals the number of elements at most `x`. That is the count `delete_upto` removes and returns. |
| Bisect.BisectLeftCounts | kv/cache.py:107 | On a sorted sequence, `bisect_left` equals the number of elements below `x`. |
| Bisect.BisectLeftBeforeRight | kv/cache.py:107-110 | For `s <= e`, the left position of `s` does not pass the right position of `e`, so the range slice is well formed. |
| Bisect.BisectExample | tests/test_cache.py:7-10 | On `[1, 2, 2, 2, 5, 7]`, `bisect_right` of 2 is 4 and `bisect_left` of 2 is 1. |
| Versions.DeterminedByAt | kv/cache.py:14 | Two strictly increasing histories that store the same value at every timestamp are the same history. |
| Versions.PutGeneral | kv/cache.py:50-57 | The out-of-order path overwrites the value at an existing `t` or inserts `(t, v)` in its place. Afterwards `t` maps to `v`, no other timestamp changes, the order is kept, and the length grows by one exactly when `t` was new. |
| Versions.Put | kv/cache.py:33-57 | `insert` on one key, fast path included. It has the same guarantees as the out-of-order path: strictly increasing, `t` maps to `v`, nothing else changes, one more version exactly when `t` is new. |
| Versions.FastPathAgrees | kv/cache.py:40-48 | The append/overwrite-last fast path gives exactly what the bisection path gives. |
| Versions.UpsertKeeps | kv/cache.py:34-35 | The linear-scan reference insert keeps the order, maps `t` to `v`, and leaves every other timestamp unchanged. |
| Versions.PutIsSortedMerge | kv/cache.py:33-57 | `insert` equals the sorted merge by linear scan on every valid history, including inserts in the middle. |
| Versions.ValueAsOf | kv/cache.py:86-93 | `get` on one key is nothing exactly when the history is empty or starts after `t`. Otherwise it is the value at the last timestamp at or before `t`. |
| Versions.ValueAsOfExact | kv/cache.py:86-93 | A read at a stored timestamp returns the value stored there. |
| Versions.ValueAsOfIsScan | kv/cache.py:86-93 | The bisection read equals a linear scan back from the newest version, on every valid history. |
| Versions.Newest | kv/cache.py:95-99 | `latest` on one key is nothing exactly when the history is empty. On a valid history it is what `get` answers at any time at or after the last timestamp. |
| Versions.Range | kv/cache.py:101-110 | `get_range` on one key returns exactly the versions with `s <= ts <= e`, in ascending order, and nothing for `s > e`. |
| Versions.WindowMembers | kv/cache.py:110 | The reference filter keeps exactly the versions inside `[s, e]`. |
| Versions.RangeIsWindow | kv/cache.py:101-110 | The bisection slice equals the linear filter of the history on `[s, e]`, on every valid history. |
| Versions.DropUpTo | kv/cache.py:115-124 | `delete_upto` on one key returns the number of timestamps at most `t`. It removes exactly that prefix, all of it at most `t`. What remains is above `t` and still increasing. |
| Versions.SuffixPreservesReads | kv/cache.py:122-123 | Dropping a prefix changes no read at or after the first timestamp that remains. |
| Versions.KeepLast | kv/cache.py:133-137 | A count `n` with `0 <= n < len` keeps exactly the newest `n` versions. `None`, a negative `n` or `n >= len` keeps everything. |
| Versions.RunHeads | kv/cache.py:138-147 | The dedup reference keeps the first version and the last value, keeps only versions of the input, leaves no two neighbours with equal values, and keeps the order. |
| Versions.DedupAdjacent | kv/cache.py:139-147 | The dedup loop computes the run heads: a version is kept exactly when its value differs from the last one kept. |
| Versions.RunHeadsOfDistinct | kv/cache.py:139-147 | A history without neighbouring duplicates is left unchanged by dedup. |
| Versions.DedupIdempotent | kv/cache.py:139-147 | Dedup applied twice is dedup applied once. |
| Versions.DedupPreservesReads | kv/cache.py:139-147 | Collapsing runs of equal values changes no point-in-time read. |
| Versions.Compacted | kv/cache.py:126-147 | `compact` on one key is strictly increasing. Without dedup it is exactly the newest `n` versions the count pass keeps. With dedup it is the run heads of those versions. |
| Versions.KeepLastReads | kv/cache.py:133-137 | The versions the count limit keeps answer every read at or after their oldest timestamp as the full history does. |
| Versions.CompactedKeeps | kv/cache.py:126-147 | `compact` keeps only old versions: at most `n` of them for `n >= 0`, and no neighbouring duplicates after dedup. The newest value is kept unless `n == 0`. |
| Versions.CompactedReads | kv/cache.py:126-147 | After `compact`, every read at or after the oldest kept timestamp is unchanged. Without a count limit every read is unchanged. |
| Batch.InsertStableOrdered | kv/cache.py:65 | Stable insertion into an ordered sequence keeps it ordered. |
| Batch.SortByTs | kv/cache.py:65 | The bucket sort yields an ordered permutation of the bucket. |
| Batch.SortIsStable | kv/cache.py:65 | For every timestamp the sort keeps the values carrying it in their input order. |
| Batch.PutAll | kv/cache.py:68-81 | After inserting a sequence of pairs, every timestamp in it holds the value of its last occurrence. Every other timestamp keeps its old value. |
| Batch.InsertBucket | kv/cache.py:64-81 | Sorting the bucket and then inserting gives exactly what inserting the bucket in input order gives. So of two entries with the same timestamp, the later one wins. |
| Batch.OrderIrrelevantForDistinct | kv/cache.py:59-81 | For pairwise distinct timestamps, any permutation of a batch inserts to the same history. |
| KvCache.New | kv/cache.py:26-28 | A new cache is valid and every key reads as empty. |
| KvCache.Insert | kv/cache.py:33-57 | `insert` keeps the cache valid. Afterwards `get(t, key)` is `v`. Other timestamps of the key and every other key are untouched, and the key grows by one version exactly when `t` was new. |
| KvCache.InsertEachPerKey | kv/cache.py:59-81 | Inserting entries one by one leaves each key with its own bucket inserted in input order. |
| KvCache.InsertMany | kv/cache.py:59-81 | `insert_many` gives exactly the store that inserting every entry one by one, in input order, gives. |
| KvCache.Get | kv/cache.py:86-93 | `get` returns nothing for an absent key. It returns nothing exactly when the key is empty or starts after `t`, and otherwise the value at the last timestamp at or before `t`. |
| KvCache.Latest | kv/cache.py:95-99 | `latest` returns nothing exactly when the key is empty. Otherwise it returns what `get` answers at any time at or after the last timestamp. |
| KvCache.GetRange | kv/cache.py:101-110 | `get_range` returns exactly the versions of the key with `s <= ts <= e`, ascending. It is empty for `s > e` or an absent key. |
| KvCache.DeleteUpto | kv/cache.py:115-124 | `delete_upto` returns the count of timestamps at most `t` and removes exactly that prefix, so what remains is above `t`. With a count of 0 the store is unchanged. Other keys are untouched. |
| KvCache.Compact | kv/cache.py:126-147 | `compact` replaces only the key's history, by its compacted form. An absent or empty key leaves the store unchanged. |
| Walkthrough.WalkthroughPuts | kv/cache.py:152-156 | The five walkthrough inserts are three appends, one overwrite of timestamp 5, and one insert of timestamp 4 in the middle. |
| Walkthrough.FilledHistory | kv/cache.py:151-156 | After the five inserts, key "a" holds (1, apple), (2, apricot), (4, anchovy), (5, avocado2). |
| Walkthrough.WalkthroughLayout | kv/cache.py:158-159 | The timestamp array is `[1, 2, 4, 5]` and the value array is `[apple, apricot, anchovy, avocado2]`. |
| Walkthrough.WalkthroughReads | kv/cache.py:160-165 | The walkthrough reads at 0, 1, 3, 4 and 999 and `latest` give the asserted answers. |
| Walkthrough.WalkthroughRange | kv/cache.py:166 | The range [2, 4] is `[(2, apricot), (4, anchovy)]`. |
| Walkthrough.WalkthroughDelete | kv/cache.py:167-169 | Deleting up to 2 returns 2 and leaves `[(4, anchovy), (5, avocado2)]`. |
| Walkthrough.WalkthroughCompact | kv/cache.py:170-172 | Compacting to the last version, with dedup, leaves `[(5, avocado2)]`. |
| Walkthrough.UnitTestReads | tests/test_cache.py:13-21 | After three in-order inserts, the reads at 1, 4 and 5 give the asserted values, and a never-written key reads as nothing. |
| Walkthrough.CountLimitExample | kv/cache.py:133-137 | A count limit of 2 on `[(1, a), (2, b), (3, c)]` without dedup keeps `[(2, b), (3, c)]`. |
| Walkthrough.DedupExample | kv/cache.py:139-147 | Dedup alone collapses `x, x, y, y, y` to the first `x` and the first `y`. |

## Left out

- Mutation in place: `Cache` changes its `defaultdict` lists in place. Here every write returns a new store, and the writes that return something (`delete_upto`) return a pair of the result and the new store.
- Lazy creation of keys: the `defaultdict` lists of `Cache` are created on first use. An absent key and a key with an empty history read the same through every operation, and the model does not tell them apart.
- Dynamic values: values are a type parameter. The dedup pass needs equality on them (`V(==)`). Custom `__eq__`/`__ne__` behaviour and floating-point NaN are not modelled.
- Timestamps are unbounded integers, like Python's `int`. No overflow exists to model.
- The order in which `insert_many` visits its buckets: keys never interact, so the model builds all keys at once. `KvCache.InsertMany` is proved equal to inserting entry by entry.
- The sort algorithm: the source's stable sort is modelled by an insertion sort. Any stable sort by timestamp gives the same sequence, and `Batch.SortIsStable` proves the stability used.
- Efficiency: the cost of bisection and of the fast append path is not modelled. Only their results are (`Versions.FastPathAgrees`).
- Iterable input of `insert_many`: modelled as a finite sequence of entries.
- The `print` at the end of the walkthrough, and `tests/conftest.py`, which only adjusts the import path.
- KvCache.Compact: the contract defers the content of the compacted key to `Versions.Compacted`, which carries the properties.
- KvCache.Get: `kv/cache.py` returns `None` both when no version is in force and when the version in force stores `None`. The model's `Option<V>` keeps the two apart, so a stored `None` reads as `Some(None)` here where the source answers `None`.
- KvCache.Latest: as for `KvCache.Get`, a newest stored `None` reads as `Some(None)` here, while `kv/cache.py` answers `None` as for an empty key.
- KvCache.Compact: the defaults `keep_last_n=None` and `dedup_same_value=True` become explicit parameters. A caller relying on the defaults passes `None` and `true`.
