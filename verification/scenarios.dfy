/** Worked examples on one bid ladder at width 0.50 (50 ticks), prices in
    hundredths: 50000.30 is 5000030. */
module Scenarios {
  import opened Options
  import opened Ladder
  import opened Feed

  /** A first bid opens its bucket: 50000.30 falls in 50000.00. */
  lemma FirstBidOpensBucket()
    ensures UpdateOrderBook([], 5000030, 10, Buy, 50) == [Order(5000000, 10, 10)]
  {
    assert Bucket(5000030, 50) == 5000000;
    assert MergeOrPush([], 5000000, 10) == [Entry(5000000, 10)];
    assert SortLadder(Buy, [Entry(5000000, 10)]) == [Entry(5000000, 10)];
    assert SizeSum([Entry(5000000, 10)]) == 10;
  }

  /** A second bid in the same bucket adds to it. */
  lemma SameBucketAdds()
    ensures UpdateOrderBook([Order(5000000, 10, 10)], 5000040, 5, Buy, 50) == [Order(5000000, 15, 15)]
  {
    assert Bucket(5000040, 50) == 5000000;
    assert EntriesOf([Order(5000000, 10, 10)]) == [Entry(5000000, 10)];
    assert FindIndex([Entry(5000000, 10)], 5000000) == Some(0);
    assert MergeOrPush([Entry(5000000, 10)], 5000000, 5) == [Entry(5000000, 15)];
    assert SortLadder(Buy, [Entry(5000000, 15)]) == [Entry(5000000, 15)];
    assert SizeSum([Entry(5000000, 15)]) == 15;
  }

  /** A zero size clears the bucket. */
  lemma ZeroClearsBucket()
    ensures UpdateOrderBook([Order(5000000, 15, 15)], 5000000, 0, Buy, 50) == []
  {
    assert EntriesOf([Order(5000000, 15, 15)]) == [Entry(5000000, 15)];
    assert RemoveBucket([Entry(5000000, 15)], 5000000) == [];
  }

  /** A snapshot may leave two levels at one price. A delta there adds to
      the first of them in place, and the stable sort keeps it ahead of the
      second, so the totals run 6 then 8. */
  lemma DuplicateLevelsMergeFirst()
    ensures UpdateOrderBook([Order(10000, 1, 0), Order(10000, 2, 0)], 10000, 5, Buy, 50)
         == [Order(10000, 6, 6), Order(10000, 2, 8)]
  {
    var es := [Entry(10000, 1), Entry(10000, 2)];
    assert Bucket(10000, 50) == 10000;
    assert EntriesOf([Order(10000, 1, 0), Order(10000, 2, 0)]) == es;
    assert FindIndex(es, 10000) == Some(0);
    var m := MergeOrPush(es, 10000, 5);
    assert m == [Entry(10000, 6), Entry(10000, 2)];
    assert Insert(Buy, Entry(10000, 2), []) == [Entry(10000, 2)];
    assert Insert(Buy, Entry(10000, 6), [Entry(10000, 2)]) == m;
    assert SortLadder(Buy, m) == m;
    assert SizeSum([Entry(10000, 6)]) == 6;
    assert SizeSum(m) == 8;
  }

  /** A snapshot keeps its levels as sent, with totals 0 until the first
      delta on that side. */
  lemma SnapshotKeepsTotalsZero()
    ensures OnMessage(Book([], []), Message(SnapshotFeed, Some([Entry(10000, 2), Entry(9900, 3)]), None), 50)
         == Book([Order(10000, 2, 0), Order(9900, 3, 0)], [])
  {
    var r := OnMessage(Book([], []), Message(SnapshotFeed, Some([Entry(10000, 2), Entry(9900, 3)]), None), 50);
    assert EntriesOf(r.buy) == [Entry(10000, 2), Entry(9900, 3)];
  }
}
