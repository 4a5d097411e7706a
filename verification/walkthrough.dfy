/**
 The scenarios of the module's own walkthrough and of its unit test, stated
 as lemmas about the model.
 */
module Walkthrough {
  import opened Versions
  import opened KvCache

  const apple := Version(1, "apple")
  const apricot := Version(2, "apricot")
  const anchovy := Version(4, "anchovy")
  const avocado := Version(5, "avocado")
  const avocado2 := Version(5, "avocado2")

  /** Key "a" after the five walkthrough inserts: three in order, one
      overwrite of timestamp 5, one insert of timestamp 4 out of order. */
  function Filled(): (c: Cache<string>)
    ensures Valid(c)
  {
    var c1 := Insert(New(), 1, "a", "apple");
    var c2 := Insert(c1, 2, "a", "apricot");
    var c3 := Insert(c2, 5, "a", "avocado");
    var c4 := Insert(c3, 5, "a", "avocado2");
    Insert(c4, 4, "a", "anchovy")
  }

  lemma OfInsert<V>(c: Cache<V>, t: int, key: string, v: V)
    requires Valid(c)
    ensures Of(Insert(c, t, key, v), key) == Put(Of(c, key), t, v)
  {
  }

  /** The five inserts, one history at a time. The fifth arrives out of
      order and lands between 2 and 5. */
  lemma WalkthroughPuts()
    ensures Put([], 1, "apple") == [apple]
    ensures Put([apple], 2, "apricot") == [apple, apricot]
    ensures Put([apple, apricot], 5, "avocado") == [apple, apricot, avocado]
    ensures Put([apple, apricot, avocado], 5, "avocado2") == [apple, apricot, avocado2]
    ensures Put([apple, apricot, avocado2], 4, "anchovy") == [apple, apricot, anchovy, avocado2]
  {
    assert [apple] + [apricot] == [apple, apricot];
    assert [apple, apricot] + [avocado] == [apple, apricot, avocado];
    assert Put([apple, apricot, avocado2], 4, "anchovy") == [apple, apricot, anchovy, avocado2] by {
      PutIsSortedMerge([apple, apricot, avocado2], 4, "anchovy");
    }
  }

  lemma FilledHistory()
    ensures Of(Filled(), "a") == [apple, apricot, anchovy, avocado2]
  {
    WalkthroughPuts();
    var c1 := Insert(New(), 1, "a", "apple");
    OfInsert(New(), 1, "a", "apple");
    var c2 := Insert(c1, 2, "a", "apricot");
    OfInsert(c1, 2, "a", "apricot");
    var c3 := Insert(c2, 5, "a", "avocado");
    OfInsert(c2, 5, "a", "avocado");
    var c4 := Insert(c3, 5, "a", "avocado2");
    OfInsert(c3, 5, "a", "avocado2");
    OfInsert(c4, 4, "a", "anchovy");
  }

  /** The layout of the walkthrough history: ascending timestamps with
      parallel values. */
  lemma LayoutOfWalkthrough(h: History<string>)
    requires h == [apple, apricot, anchovy, avocado2]
    ensures Timestamps(h) == [1, 2, 4, 5]
    ensures Values(h) == ["apple", "apricot", "anchovy", "avocado2"]
  {
    var ts, vs := Timestamps(h), Values(h);
    assert ts[0] == 1 && ts[1] == 2 && ts[2] == 4 && ts[3] == 5;
    assert vs[0] == "apple" && vs[1] == "apricot" && vs[2] == "anchovy" && vs[3] == "avocado2";
  }

  lemma WalkthroughLayout()
    ensures Timestamps(Of(Filled(), "a")) == [1, 2, 4, 5]
    ensures Values(Of(Filled(), "a")) == ["apple", "apricot", "anchovy", "avocado2"]
  {
    FilledHistory();
    LayoutOfWalkthrough(Of(Filled(), "a"));
  }

  /** Reads on any cache holding the walkthrough history under "a": before
      the first version, on a version, between versions and past the last. */
  lemma ReadsOfWalkthrough(c: Cache<string>)
    requires Valid(c)
    requires Of(c, "a") == [apple, apricot, anchovy, avocado2]
    ensures Get(c, 0, "a") == None
    ensures Get(c, 1, "a") == Some("apple")
    ensures Get(c, 3, "a") == Some("apricot")
    ensures Get(c, 4, "a") == Some("anchovy")
    ensures Get(c, 999, "a") == Some("avocado2")
    ensures Latest(c, "a") == Some("avocado2")
  {
    var h := Of(c, "a");
    assert IsFloor(h, 1, 0) && IsFloor(h, 3, 1) && IsFloor(h, 4, 2) && IsFloor(h, 999, 3);
  }

  lemma WalkthroughReads()
    ensures Get(Filled(), 0, "a") == None
    ensures Get(Filled(), 1, "a") == Some("apple")
    ensures Get(Filled(), 3, "a") == Some("apricot")
    ensures Get(Filled(), 4, "a") == Some("anchovy")
    ensures Get(Filled(), 999, "a") == Some("avocado2")
    ensures Latest(Filled(), "a") == Some("avocado2")
  {
    FilledHistory();
    ReadsOfWalkthrough(Filled());
  }

  /** The range [2, 4] of the walkthrough history holds its middle two versions. */
  lemma RangeOfWalkthrough(c: Cache<string>)
    requires Valid(c)
    requires Of(c, "a") == [apple, apricot, anchovy, avocado2]
    ensures GetRange(c, "a", 2, 4) == [apricot, anchovy]
  {
    var h := Of(c, "a");
    var r := GetRange(c, "a", 2, 4);
    assert h[1] in r && h[2] in r;
    DeterminedByMembers(r, [apricot, anchovy]);
  }

  lemma WalkthroughRange()
    ensures GetRange(Filled(), "a", 2, 4) == [apricot, anchovy]
  {
    FilledHistory();
    RangeOfWalkthrough(Filled());
  }

  /** The retention step of the walkthrough removes timestamps 1 and 2. */
  function Trimmed(): (c: Cache<string>)
    ensures Valid(c)
  {
    DeleteUpto(Filled(), "a", 2).1
  }

  /** On any cache holding the walkthrough history under "a", deleting up to
      timestamp 2 removes exactly the first two versions. */
  lemma DeleteFromWalkthrough(c: Cache<string>)
    requires Valid(c)
    requires Of(c, "a") == [apple, apricot, anchovy, avocado2]
    ensures DeleteUpto(c, "a", 2).0 == 2
    ensures Of(DeleteUpto(c, "a", 2).1, "a") == [anchovy, avocado2]
  {
  }

  lemma WalkthroughDelete()
    ensures DeleteUpto(Filled(), "a", 2).0 == 2
    ensures Of(Trimmed(), "a") == [anchovy, avocado2]
  {
    FilledHistory();
    DeleteFromWalkthrough(Filled());
  }

  /** Keeping the newest version, with dedup, of the trimmed history. */
  lemma CompactOfTrimmed(c: Cache<string>)
    requires Valid(c)
    requires Of(c, "a") == [anchovy, avocado2]
    ensures Of(Compact(c, "a", Some(1), true), "a") == [avocado2]
  {
    assert KeepLast([anchovy, avocado2], Some(1)) == [avocado2];
    assert RunHeads([avocado2]) == [avocado2];
  }

  lemma WalkthroughCompact()
    ensures Of(Compact(Trimmed(), "a", Some(1), true), "a") == [avocado2]
  {
    WalkthroughDelete();
    CompactOfTrimmed(Trimmed());
  }

  /** The cache of the unit test: three in-order inserts under "a". */
  function UnitTestCache(): (c: Cache<string>)
    ensures Valid(c)
  {
    var c1 := Insert(New(), 1, "a", "apple");
    var c2 := Insert(c1, 2, "a", "apricot");
    Insert(c2, 5, "a", "avocado")
  }

  lemma UnitTestHistory()
    ensures Of(UnitTestCache(), "a") == [apple, apricot, avocado]
    ensures Of(UnitTestCache(), "b") == []
  {
    WalkthroughPuts();
    var c1 := Insert(New(), 1, "a", "apple");
    OfInsert(New(), 1, "a", "apple");
    var c2 := Insert(c1, 2, "a", "apricot");
    OfInsert(c1, 2, "a", "apricot");
    OfInsert(c2, 5, "a", "avocado");
  }

  lemma ReadsOfUnitTest(c: Cache<string>)
    requires Valid(c)
    requires Of(c, "a") == [apple, apricot, avocado] && Of(c, "b") == []
    ensures Get(c, 1, "a") == Some("apple")
    ensures Get(c, 4, "a") == Some("apricot")
    ensures Get(c, 5, "a") == Some("avocado")
    ensures Get(c, 3, "b") == None
  {
    var h := Of(c, "a");
    assert IsFloor(h, 1, 0) && IsFloor(h, 4, 1) && IsFloor(h, 5, 2);
  }

  /** The unit test: reads at stored timestamps return what was stored, a
      read between two versions returns the older one, and a key that was
      never written reads as nothing. */
  lemma UnitTestReads()
    ensures Get(UnitTestCache(), 1, "a") == Some("apple")
    ensures Get(UnitTestCache(), 4, "a") == Some("apricot")
    ensures Get(UnitTestCache(), 5, "a") == Some("avocado")
    ensures Get(UnitTestCache(), 3, "b") == None
  {
    UnitTestHistory();
    ReadsOfUnitTest(UnitTestCache());
  }

  /** A count limit keeps the newest versions, not any subset of that size. */
  lemma CountLimitExample()
    ensures Compacted([Version(1, "a"), Version(2, "b"), Version(3, "c")], Some(2), false)
            == [Version(2, "b"), Version(3, "c")]
  {
    assert KeepLast([Version(1, "a"), Version(2, "b"), Version(3, "c")], Some(2))
           == [Version(2, "b"), Version(3, "c")];
  }

  /** Dedup alone collapses each run of equal values to its first version. */
  lemma DedupExample()
    ensures Compacted([Version(1, "x"), Version(2, "x"), Version(3, "y"), Version(4, "y"), Version(5, "y")], None, true)
            == [Version(1, "x"), Version(3, "y")]
  {
    var x1, x2, y3, y4, y5 := Version(1, "x"), Version(2, "x"), Version(3, "y"), Version(4, "y"), Version(5, "y");
    assert RunHeads([x1]) == [x1];
    assert RunHeads([x1, x2]) == [x1] by {
      assert [x1, x2][..1] == [x1];
    }
    assert RunHeads([x1, x2, y3]) == [x1, y3] by {
      assert [x1, x2, y3][..2] == [x1, x2];
    }
    assert RunHeads([x1, x2, y3, y4]) == [x1, y3] by {
      assert [x1, x2, y3, y4][..3] == [x1, x2, y3];
    }
    assert RunHeads([x1, x2, y3, y4, y5]) == [x1, y3] by {
      assert [x1, x2, y3, y4, y5][..4] == [x1, x2, y3, y4];
    }
    assert KeepLast([x1, x2, y3, y4, y5], None) == [x1, x2, y3, y4, y5];
  }
}
