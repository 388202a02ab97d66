/** What one application of the update rule does to a ladder, case by case,
    and the invariants it keeps. */
module LadderLemmas {
  import opened Options
  import opened Ladder

  // ---------------------------------------------------------------------
  // Subsequences

  lemma {:induction false} SubsequenceMembers<T>(a: seq<T>, s: seq<T>)
    requires IsSubsequence(a, s)
    ensures forall e :: e in a ==> e in s
    decreases |s|
  {
    if a != [] {
      if a[0] == s[0] && IsSubsequence(a[1..], s[1..]) {
        SubsequenceMembers(a[1..], s[1..]);
        assert a == [a[0]] + a[1..];
      } else {
        SubsequenceMembers(a, s[1..]);
      }
    }
  }

  /** Leaving levels out of a sorted ladder keeps it sorted. */
  lemma {:induction false} SubsequenceSorted(side: Side, a: seq<Entry>, s: seq<Entry>)
    requires IsSubsequence(a, s) && Sorted(side, s)
    ensures Sorted(side, a)
    decreases |s|
  {
    if a != [] {
      if a[0] == s[0] && IsSubsequence(a[1..], s[1..]) {
        SubsequenceSorted(side, a[1..], s[1..]);
        SubsequenceMembers(a[1..], s[1..]);
        forall i, j | 0 <= i < j < |a| ensures Precedes(side, a[i].price, a[j].price) {
          if i == 0 {
            assert a[j] == a[1..][j - 1];
            assert a[j] in a[1..];
            var k :| 0 <= k < |s[1..]| && s[1..][k] == a[j];
            assert s[k + 1] == a[j];
          } else {
            assert a[i] == a[1..][i - 1] && a[j] == a[1..][j - 1];
          }
        }
      } else {
        SubsequenceSorted(side, a, s[1..]);
      }
    }
  }

  /** Leaving levels out of a ladder with distinct prices keeps them distinct. */
  lemma {:induction false} SubsequenceUnique(a: seq<Entry>, s: seq<Entry>)
    requires IsSubsequence(a, s) && UniquePrices(s)
    ensures UniquePrices(a)
    decreases |s|
  {
    if a != [] {
      if a[0] == s[0] && IsSubsequence(a[1..], s[1..]) {
        SubsequenceUnique(a[1..], s[1..]);
        SubsequenceMembers(a[1..], s[1..]);
        forall i, j | 0 <= i < j < |a| ensures a[i].price != a[j].price {
          if i == 0 {
            assert a[j] == a[1..][j - 1];
            assert a[j] in a[1..];
            var k :| 0 <= k < |s[1..]| && s[1..][k] == a[j];
            assert s[k + 1] == a[j];
          } else {
            assert a[i] == a[1..][i - 1] && a[j] == a[1..][j - 1];
          }
        }
      } else {
        SubsequenceUnique(a, s[1..]);
      }
    }
  }

  // ---------------------------------------------------------------------
  // Distinct prices, counted per price

  lemma {:induction false} HasPriceIffAtPrice(s: seq<Entry>, p: int)
    ensures HasPrice(s, p) <==> |AtPrice(s, p)| > 0
    decreases |s|
  {
    if s != [] {
      HasPriceIffAtPrice(s[1..], p);
      if HasPrice(s[1..], p) {
        var k :| 0 <= k < |s[1..]| && s[1..][k].price == p;
        assert s[k + 1].price == p;
      }
      if HasPrice(s, p) && s[0].price != p {
        var k :| 0 <= k < |s| && s[k].price == p;
        assert s[1..][k - 1].price == p;
      }
    }
  }

  /** A ladder has distinct prices when its tail does and its head's price
      is not repeated there. */
  lemma UniqueCons(s: seq<Entry>)
    requires s != []
    ensures UniquePrices(s) <==> UniquePrices(s[1..]) && !HasPrice(s[1..], s[0].price)
  {
    var t := s[1..];
    if UniquePrices(s) {
      assert forall i, j :: 0 <= i < j < |t| ==> t[i] == s[i + 1] && t[j] == s[j + 1];
    }
    if UniquePrices(t) && !HasPrice(t, s[0].price) {
      forall i, j | 0 <= i < j < |s| ensures s[i].price != s[j].price {
        assert s[j] == t[j - 1];
        if i > 0 {
          assert s[i] == t[i - 1];
        }
      }
    }
  }

  /** Distinct prices means at most one level per price. */
  lemma {:induction false} UniqueAtMostOneAtPrice(s: seq<Entry>, p: int)
    requires UniquePrices(s)
    ensures |AtPrice(s, p)| <= 1
    decreases |s|
  {
    if s != [] {
      var e, t := s[0], s[1..];
      UniqueCons(s);
      UniqueAtMostOneAtPrice(t, p);
      HasPriceIffAtPrice(t, e.price);
      assert |AtPrice(s, p)| == (if e.price == p then 1 else 0) + |AtPrice(t, p)|;
    }
  }

  /** At most one level per price means distinct prices. */
  lemma {:induction false} AtMostOneAtPriceUnique(s: seq<Entry>)
    requires forall p :: |AtPrice(s, p)| <= 1
    ensures UniquePrices(s)
    decreases |s|
  {
    if s != [] {
      var e, t := s[0], s[1..];
      UniqueCons(s);
      forall p ensures |AtPrice(t, p)| <= 1 {
        assert |AtPrice(s, p)| == (if e.price == p then 1 else 0) + |AtPrice(t, p)|;
      }
      AtMostOneAtPriceUnique(t);
      HasPriceIffAtPrice(t, e.price);
      assert |AtPrice(s, e.price)| == 1 + |AtPrice(t, e.price)|;
    }
  }

  /** Re-sorting keeps prices distinct. */
  lemma SortKeepsUnique(side: Side, s: seq<Entry>)
    requires UniquePrices(s)
    ensures UniquePrices(SortLadder(side, s))
  {
    var r := SortLadder(side, s);
    forall p ensures |AtPrice(r, p)| <= 1 {
      assert AtPrice(r, p) == AtPrice(s, p);
      UniqueAtMostOneAtPrice(s, p);
    }
    AtMostOneAtPriceUnique(r);
  }

  // ---------------------------------------------------------------------
  // Removal

  lemma {:induction false} RemoveAbsent(s: seq<Entry>, b: int)
    requires !HasPrice(s, b)
    ensures RemoveBucket(s, b) == s
    decreases |s|
  {
    if s != [] {
      assert s[0].price != b;
      assert !HasPrice(s[1..], b);
      RemoveAbsent(s[1..], b);
      assert s == [s[0]] + s[1..];
    }
  }

  /** Removals of two buckets may be done in either order. */
  lemma {:induction false} RemoveCommute(s: seq<Entry>, b1: int, b2: int)
    ensures RemoveBucket(RemoveBucket(s, b1), b2) == RemoveBucket(RemoveBucket(s, b2), b1)
    decreases |s|
  {
    if s != [] {
      RemoveCommute(s[1..], b1, b2);
      var e := s[0];
      if e.price != b1 {
        assert RemoveBucket(s, b1) == [e] + RemoveBucket(s[1..], b1);
        assert ([e] + RemoveBucket(s[1..], b1))[1..] == RemoveBucket(s[1..], b1);
      }
      if e.price != b2 {
        assert RemoveBucket(s, b2) == [e] + RemoveBucket(s[1..], b2);
        assert ([e] + RemoveBucket(s[1..], b2))[1..] == RemoveBucket(s[1..], b2);
      }
    }
  }

  // ---------------------------------------------------------------------
  // Sorted ladders with distinct prices

  /** A sorted ladder with distinct prices is fixed by the levels it holds. */
  lemma {:induction false} SortedUniqueDetermined(side: Side, a: seq<Entry>, c: seq<Entry>)
    requires Sorted(side, a) && UniquePrices(a)
    requires Sorted(side, c) && UniquePrices(c)
    requires forall e :: e in a <==> e in c
    ensures a == c
    decreases |a|
  {
    if c != [] {
      assert c[0] in c;
    }
    if a != [] {
      assert a[0] in c && c[0] in a;
      var k :| 0 <= k < |c| && c[k] == a[0];
      var m :| 0 <= m < |a| && a[m] == c[0];
      assert Precedes(side, c[0].price, c[k].price);
      assert Precedes(side, a[0].price, a[m].price);
      assert k == 0;
      UniqueCons(a);
      UniqueCons(c);
      forall e ensures e in a[1..] <==> e in c[1..] {
        if e in a[1..] {
          var j :| 0 <= j < |a[1..]| && a[1..][j] == e;
          assert a[j + 1] == e;
          assert e != a[0];
          assert e in c;
          var n :| 0 <= n < |c| && c[n] == e;
          assert c[1..][n - 1] == e;
        }
        if e in c[1..] {
          var j :| 0 <= j < |c[1..]| && c[1..][j] == e;
          assert c[j + 1] == e;
          assert e != c[0];
          assert e in a;
          var n :| 0 <= n < |a| && a[n] == e;
          assert a[1..][n - 1] == e;
        }
      }
      SortedUniqueDetermined(side, a[1..], c[1..]);
      assert a == [a[0]] + a[1..] && c == [c[0]] + c[1..];
    }
  }

  // ---------------------------------------------------------------------
  // Merging into a bucket

  /** On distinct prices, merge-or-push sets the bucket to its old size plus
      `size` and keeps every other level. */
  lemma MergeOrPushMembers(s: seq<Entry>, b: int, size: int)
    requires UniquePrices(s)
    ensures UniquePrices(MergeOrPush(s, b, size))
    ensures forall e :: e in MergeOrPush(s, b, size) <==> (e in s && e.price != b) || e == Entry(b, SizeAt(s, b) + size)
  {
    var r := MergeOrPush(s, b, size);
    match FindIndex(s, b)
    case Some(i) =>
      assert r == s[i := Entry(b, s[i].size + size)];
      forall e ensures e in r <==> (e in s && e.price != b) || e == Entry(b, SizeAt(s, b) + size) {
        if e in s && e.price != b {
          var j :| 0 <= j < |s| && s[j] == e;
          assert r[j] == e;
        }
        if e in r && e != Entry(b, SizeAt(s, b) + size) {
          var j :| 0 <= j < |r| && r[j] == e;
          assert s[j] == e;
        }
      }
    case None =>
      assert r == s + [Entry(b, size)];
      forall i, j | 0 <= i < j < |r| ensures r[i].price != r[j].price {
        if j == |s| {
          assert s[i].price != b;
        }
      }
  }

  /** In a ladder with distinct prices, the size at a price is that of the
      one level there, or 0 when there is none. */
  lemma SizeAtUnique(s: seq<Entry>, p: int, z: int)
    requires UniquePrices(s)
    ensures Entry(p, z) in s ==> SizeAt(s, p) == z
    ensures !HasPrice(s, p) ==> SizeAt(s, p) == 0
  {
    if Entry(p, z) in s {
      var j :| 0 <= j < |s| && s[j] == Entry(p, z);
    }
  }

  // ---------------------------------------------------------------------
  // One update, case by case

  /** A zero size removes the bucket of `price` and nothing else: the other
      levels keep their price, size and relative order, and no re-sort
      happens. */
  lemma UpdateZeroRemovesBucket(orders: seq<Order>, price: int, side: Side, g: GroupSize)
    ensures var es, b := EntriesOf(orders), Bucket(price, g);
      var rs := EntriesOf(UpdateOrderBook(orders, price, 0, side, g));
      && IsSubsequence(rs, es)
      && !HasPrice(rs, b)
      && (forall e :: e in rs <==> e in es && e.price != b)
      && |rs| == |es| - |AtPrice(es, b)|
  {
  }

  /** Repeating a zero-size update changes nothing. */
  lemma UpdateZeroIdempotent(orders: seq<Order>, price: int, side: Side, g: GroupSize)
    ensures var once := UpdateOrderBook(orders, price, 0, side, g);
      UpdateOrderBook(once, price, 0, side, g) == once
  {
    var b := Bucket(price, g);
    var kept := RemoveBucket(EntriesOf(orders), b);
    var once := UpdateOrderBook(orders, price, 0, side, g);
    assert once == WithTotals(kept);
    RemoveAbsent(kept, b);
  }

  /** `rs` is `es` with the level at position `i` replaced by one at `b`
      holding `size` more: no level is added or dropped, even one whose size
      reaches 0, and every other level is kept. */
  ghost predicate MergedAt(es: seq<Entry>, rs: seq<Entry>, i: nat, b: int, size: int)
    requires i < |es|
  {
    && |rs| == |es|
    && multiset(rs) == multiset(es) - multiset{es[i]} + multiset{Entry(b, es[i].size + size)}
    && Entry(b, es[i].size + size) in rs
  }

  /** A non-zero size on an occupied bucket adds to the first level there,
      at position `i`, and leaves the ladder sorted. */
  lemma UpdateMergesIntoBucket(orders: seq<Order>, price: int, size: int, side: Side, g: GroupSize, i: nat)
    requires size != 0
    requires FindIndex(EntriesOf(orders), Bucket(price, g)) == Some(i)
    ensures MergedAt(EntriesOf(orders), EntriesOf(UpdateOrderBook(orders, price, size, side, g)), i, Bucket(price, g), size)
    ensures Sorted(side, EntriesOf(UpdateOrderBook(orders, price, size, side, g)))
  {
    var es, b := EntriesOf(orders), Bucket(price, g);
    var merged := Entry(b, es[i].size + size);
    var m := MergeOrPush(es, b, size);
    assert |m| == |es| && multiset(m) == multiset(es) - multiset{es[i]} + multiset{merged};
    var sorted := SortLadder(side, m);
    assert multiset(sorted) == multiset(m) && |sorted| == |m|;
    assert merged in multiset(sorted);
    var rs := EntriesOf(UpdateOrderBook(orders, price, size, side, g));
    assert rs == sorted;
    assert MergedAt(es, rs, i, b, size);
  }

  /** A non-zero size on an empty bucket opens exactly one level there and
      keeps every old level. */
  lemma UpdateOpensBucket(orders: seq<Order>, price: int, size: int, side: Side, g: GroupSize)
    requires size != 0
    requires !HasPrice(EntriesOf(orders), Bucket(price, g))
    ensures var es, b := EntriesOf(orders), Bucket(price, g);
      var rs := EntriesOf(UpdateOrderBook(orders, price, size, side, g));
      && |rs| == |es| + 1
      && multiset(rs) == multiset(es) + multiset{Entry(b, size)}
      && (forall e :: e in es ==> e in rs)
      && Sorted(side, rs)
  {
    var es, b := EntriesOf(orders), Bucket(price, g);
    var m := MergeOrPush(es, b, size);
    assert multiset(m) == multiset(es) + multiset{Entry(b, size)};
    var sorted := SortLadder(side, m);
    assert multiset(sorted) == multiset(m);
    assert |sorted| == |m| by {
      assert |multiset(sorted)| == |multiset(m)|;
    }
    var rs := EntriesOf(UpdateOrderBook(orders, price, size, side, g));
    assert rs == sorted;
    forall e | e in es ensures e in rs {
      assert e in multiset(es);
      assert e in multiset(sorted);
    }
  }

  /** An update keeps a sorted ladder sorted, whatever the size. */
  lemma UpdateKeepsSorted(orders: seq<Order>, price: int, size: int, side: Side, g: GroupSize)
    requires Sorted(side, EntriesOf(orders))
    ensures Sorted(side, EntriesOf(UpdateOrderBook(orders, price, size, side, g)))
  {
    if size == 0 {
      SubsequenceSorted(side, RemoveBucket(EntriesOf(orders), Bucket(price, g)), EntriesOf(orders));
    }
  }

  /** An update keeps prices distinct. */
  lemma UpdateKeepsUnique(orders: seq<Order>, price: int, size: int, side: Side, g: GroupSize)
    requires UniquePrices(EntriesOf(orders))
    ensures UniquePrices(EntriesOf(UpdateOrderBook(orders, price, size, side, g)))
  {
    var es, b := EntriesOf(orders), Bucket(price, g);
    if size == 0 {
      SubsequenceUnique(RemoveBucket(es, b), es);
    } else {
      MergeOrPushMembers(es, b, size);
      SortKeepsUnique(side, MergeOrPush(es, b, size));
    }
  }

  /** `rs` is `es` with the level at `b` set to its old size (0 if absent)
      plus `size`, or removed when `size` is 0. */
  ghost predicate SetsBucket(es: seq<Entry>, rs: seq<Entry>, b: int, size: int) {
    forall e :: e in rs <==> (e in es && e.price != b) || (size != 0 && e == Entry(b, SizeAt(es, b) + size))
  }

  /** On distinct prices a ladder is a map from bucket to size, and an update
      sets the bucket of `price` to its old size (0 if absent) plus `size`,
      or removes it when `size` is 0. */
  lemma UpdateSetsBucket(orders: seq<Order>, price: int, size: int, side: Side, g: GroupSize)
    requires UniquePrices(EntriesOf(orders))
    ensures SetsBucket(EntriesOf(orders), EntriesOf(UpdateOrderBook(orders, price, size, side, g)), Bucket(price, g), size)
  {
    var es, b := EntriesOf(orders), Bucket(price, g);
    if size != 0 {
      MergeOrPushMembers(es, b, size);
      var m := MergeOrPush(es, b, size);
      forall e ensures e in SortLadder(side, m) <==> e in m {
        assert e in multiset(SortLadder(side, m)) <==> e in multiset(m);
      }
    }
  }

  /** An update leaves the size at every other bucket as it was. */
  lemma UpdateKeepsOtherSizes(orders: seq<Order>, price: int, size: int, side: Side, g: GroupSize, q: int)
    requires UniquePrices(EntriesOf(orders))
    requires q != Bucket(price, g)
    ensures SizeAt(EntriesOf(UpdateOrderBook(orders, price, size, side, g)), q) == SizeAt(EntriesOf(orders), q)
  {
    UpdateSetsBucket(orders, price, size, side, g);
    UpdateKeepsUnique(orders, price, size, side, g);
    SetsBucketKeepsOtherSizes(EntriesOf(orders), EntriesOf(UpdateOrderBook(orders, price, size, side, g)), Bucket(price, g), size, q);
  }

  lemma SetsBucketKeepsOtherSizes(es: seq<Entry>, rs: seq<Entry>, b: int, size: int, q: int)
    requires UniquePrices(es) && UniquePrices(rs)
    requires SetsBucket(es, rs, b, size)
    requires q != b
    ensures SizeAt(rs, q) == SizeAt(es, q)
  {
    var z := SizeAt(es, q);
    if HasPrice(es, q) {
      var j := FindIndex(es, q).value;
      assert es[j] in es;
      assert Entry(q, z) in rs;
      SizeAtUnique(rs, q, z);
    } else {
      assert !HasPrice(rs, q);
      SizeAtUnique(rs, q, 0);
    }
  }

  // ---------------------------------------------------------------------
  // A ladder as a map from bucket to size

  /** The level at price `q`: the size resting there, or none when no level
      stands there. On distinct prices this is the ladder read as a map. */
  function LevelAt(s: seq<Entry>, q: int): Option<int> {
    if HasPrice(s, q) then Some(SizeAt(s, q)) else None
  }

  /** What an update of bucket `b` by `size` does to the level at `q`, read
      as a map: a zero size clears the bucket, any other size adds to it
      (from 0 when it is absent), and other buckets keep their level. */
  function StepLevel(level: Option<int>, b: int, size: int, q: int): Option<int> {
    if b != q then level
    else if size == 0 then None
    else Some(level.GetOr(0) + size)
  }

  /** On distinct prices, one update changes the level at `q` exactly as
      `StepLevel` says. */
  lemma UpdateLevelAt(orders: seq<Order>, price: int, size: int, side: Side, g: GroupSize, q: int)
    requires UniquePrices(EntriesOf(orders))
    ensures LevelAt(EntriesOf(UpdateOrderBook(orders, price, size, side, g)), q)
         == StepLevel(LevelAt(EntriesOf(orders), q), Bucket(price, g), size, q)
  {
    UpdateSetsBucket(orders, price, size, side, g);
    UpdateKeepsUnique(orders, price, size, side, g);
    SetsBucketLevel(EntriesOf(orders), EntriesOf(UpdateOrderBook(orders, price, size, side, g)), Bucket(price, g), size, q);
  }

  lemma SetsBucketLevel(es: seq<Entry>, rs: seq<Entry>, b: int, size: int, q: int)
    requires UniquePrices(es) && UniquePrices(rs)
    requires SetsBucket(es, rs, b, size)
    ensures LevelAt(rs, q) == StepLevel(LevelAt(es, q), b, size, q)
  {
    if q != b {
      SetsBucketKeepsOtherSizes(es, rs, b, size, q);
      if HasPrice(es, q) {
        var j :| 0 <= j < |es| && es[j].price == q;
        assert es[j] in rs;
        var k :| 0 <= k < |rs| && rs[k] == es[j];
        assert rs[k].price == q;
      }
      if HasPrice(rs, q) {
        var k :| 0 <= k < |rs| && rs[k].price == q;
        assert rs[k] in rs;
        var j :| 0 <= j < |es| && es[j] == rs[k];
        assert es[j].price == q;
      }
    } else if size != 0 {
      var z := SizeAt(es, b) + size;
      assert Entry(b, z) in rs;
      var k :| 0 <= k < |rs| && rs[k] == Entry(b, z);
      assert rs[k].price == b;
      SizeAtUnique(rs, b, z);
      assert LevelAt(es, b).GetOr(0) == SizeAt(es, b);
    }
  }

  /** `rs` is `es` with buckets `b1` and `b2` each set as `SetsBucket`
      describes, both from their sizes in `es`. */
  ghost predicate SetsTwoBuckets(es: seq<Entry>, rs: seq<Entry>, b1: int, s1: int, b2: int, s2: int) {
    forall e :: e in rs <==>
      || (e in es && e.price != b1 && e.price != b2)
      || (s1 != 0 && e == Entry(b1, SizeAt(es, b1) + s1))
      || (s2 != 0 && e == Entry(b2, SizeAt(es, b2) + s2))
  }

  /** Two updates to different buckets of a ladder with distinct prices
      set both buckets, each from its size before either update. */
  lemma TwoUpdatesSetBuckets(orders: seq<Order>, p1: int, s1: int, p2: int, s2: int, side: Side, g: GroupSize)
    requires UniquePrices(EntriesOf(orders))
    requires Bucket(p1, g) != Bucket(p2, g)
    ensures SetsTwoBuckets(EntriesOf(orders), EntriesOf(UpdateOrderBook(UpdateOrderBook(orders, p1, s1, side, g), p2, s2, side, g)),
                           Bucket(p1, g), s1, Bucket(p2, g), s2)
  {
    var es, b1, b2 := EntriesOf(orders), Bucket(p1, g), Bucket(p2, g);
    var m := UpdateOrderBook(orders, p1, s1, side, g);
    UpdateSetsBucket(orders, p1, s1, side, g);
    UpdateKeepsUnique(orders, p1, s1, side, g);
    UpdateKeepsOtherSizes(orders, p1, s1, side, g, b2);
    UpdateSetsBucket(m, p2, s2, side, g);
    ComposeSets(es, EntriesOf(m), EntriesOf(UpdateOrderBook(m, p2, s2, side, g)), b1, s1, b2, s2);
  }

  lemma ComposeSets(es: seq<Entry>, ms: seq<Entry>, rs: seq<Entry>, b1: int, s1: int, b2: int, s2: int)
    requires b1 != b2
    requires SetsBucket(es, ms, b1, s1) && SetsBucket(ms, rs, b2, s2)
    requires SizeAt(ms, b2) == SizeAt(es, b2)
    ensures SetsTwoBuckets(es, rs, b1, s1, b2, s2)
  {
  }

  /** On distinct prices, updates to two different buckets may be applied in
      either order. */
  lemma UpdatesCommute(orders: seq<Order>, p1: int, s1: int, p2: int, s2: int, side: Side, g: GroupSize)
    requires UniquePrices(EntriesOf(orders))
    requires Bucket(p1, g) != Bucket(p2, g)
    ensures UpdateOrderBook(UpdateOrderBook(orders, p1, s1, side, g), p2, s2, side, g)
         == UpdateOrderBook(UpdateOrderBook(orders, p2, s2, side, g), p1, s1, side, g)
  {
    var m1 := UpdateOrderBook(orders, p1, s1, side, g);
    var m2 := UpdateOrderBook(orders, p2, s2, side, g);
    var x := UpdateOrderBook(m1, p2, s2, side, g);
    var y := UpdateOrderBook(m2, p1, s1, side, g);
    if s1 == 0 && s2 == 0 {
      RemoveCommute(EntriesOf(orders), Bucket(p1, g), Bucket(p2, g));
    } else {
      UpdateKeepsUnique(orders, p1, s1, side, g);
      UpdateKeepsUnique(orders, p2, s2, side, g);
      UpdateKeepsUnique(m1, p2, s2, side, g);
      UpdateKeepsUnique(m2, p1, s1, side, g);
      if s1 != 0 {
        UpdateKeepsSorted(m1, p2, s2, side, g);
      }
      if s2 != 0 {
        UpdateKeepsSorted(m2, p1, s1, side, g);
      }
      TwoUpdatesSetBuckets(orders, p1, s1, p2, s2, side, g);
      TwoUpdatesSetBuckets(orders, p2, s2, p1, s1, side, g);
      SortedUniqueDetermined(side, EntriesOf(x), EntriesOf(y));
      assert x == WithTotals(EntriesOf(x));
      assert y == WithTotals(EntriesOf(y));
    }
  }
}
