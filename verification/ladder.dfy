/** One side of the order book: a ladder of grouped price levels, and the
    rule that applies a single (price, size) change to it.

    Prices are integer ticks (hundredths of a quote unit, so the group sizes
    0.05 and 0.5 are 5 and 50 ticks); sizes and cumulative totals are
    integers. */
module Ladder {
  import opened Options

  /** Bucket width in ticks. Every width the book offers is positive. */
  type GroupSize = g: int | g > 0 witness 1

  /** Bids (buy) are best-first from the highest price, asks (sell) from the
      lowest. */
  datatype Side = Buy | Sell

  /** A (price, size) pair as carried by a feed message; also the part of a
      level that an update keeps before totals are recomputed. */
  datatype Entry = Entry(price: int, size: int)

  /** A price level as the book holds it: its price, the size resting
      there, and the cumulative size from the best level down to this one. */
  datatype Order = Order(price: int, size: int, total: int)

  /** The (price, size) pairs of a ladder, in ladder order. */
  function EntriesOf(s: seq<Order>): (r: seq<Entry>)
    ensures |r| == |s|
    ensures forall i :: 0 <= i < |s| ==> r[i] == Entry(s[i].price, s[i].size)
  {
    seq(|s|, i requires 0 <= i < |s| => Entry(s[i].price, s[i].size))
  }

  // ---------------------------------------------------------------------
  // Bucketing

  /** `x` lies on a bucket boundary of width `g`. */
  predicate OnGrid(x: int, g: GroupSize) {
    x % g == 0
  }

  /** The bucket a raw price falls in: the greatest boundary not above it. */
  function Bucket(price: int, g: GroupSize): (b: int)
    ensures OnGrid(b, g)
    ensures b <= price < b + g
  {
    MultipleOfWidth(price / g, g);
    (price / g) * g
  }

  lemma {:induction false} ScaleAtLeast(d: int, g: GroupSize)
    requires d >= 1
    ensures d * g >= g
    decreases d
  {
    if d > 1 {
      ScaleAtLeast(d - 1, g);
      assert d * g == (d - 1) * g + g;
    }
  }

  lemma {:induction false} MultipleOfWidth(k: int, g: GroupSize)
    ensures (k * g) % g == 0 && (k * g) / g == k
  {
    var x := k * g;
    var q := x / g;
    var m := x % g;
    assert x == q * g + m && 0 <= m < g;
    assert (k - q) * g == m;
    if k - q >= 1 {
      ScaleAtLeast(k - q, g);
    } else if k - q <= -1 {
      ScaleAtLeast(q - k, g);
    }
  }

  /** The bucket is the only boundary within one width below the price. */
  lemma {:induction false} BucketUnique(price: int, g: GroupSize, x: int)
    requires OnGrid(x, g) && x <= price < x + g
    ensures x == Bucket(price, g)
  {
    var k := x / g;
    var q := price / g;
    var m := price % g;
    assert x == k * g;
    assert price == q * g + m;
    assert (q - k) * g == q * g - k * g;
    if q - k >= 1 {
      ScaleAtLeast(q - k, g);
    } else if q - k <= -1 {
      ScaleAtLeast(k - q, g);
      assert (k - q) * g == k * g - q * g;
    }
  }

  /** Bucketing a bucket price gives it back. */
  lemma BucketIdempotent(price: int, g: GroupSize)
    ensures Bucket(Bucket(price, g), g) == Bucket(price, g)
  {
    var b := Bucket(price, g);
    BucketUnique(b, g, b);
  }

  // ---------------------------------------------------------------------
  // Lookup and removal by price

  /** Does some level sit at price `p`? */
  predicate HasPrice(s: seq<Entry>, p: int) {
    exists i :: 0 <= i < |s| && s[i].price == p
  }

  /** No two levels share a price. */
  predicate UniquePrices(s: seq<Entry>) {
    forall i, j :: 0 <= i < j < |s| ==> s[i].price != s[j].price
  }

  /** The levels at price `p`, in ladder order. */
  function AtPrice(s: seq<Entry>, p: int): seq<Entry> {
    if s == [] then []
    else (if s[0].price == p then [s[0]] else []) + AtPrice(s[1..], p)
  }

  /** `a` is `s` with some elements left out and the rest in their order. */
  ghost predicate IsSubsequence<T>(a: seq<T>, s: seq<T>)
    decreases |s|
  {
    a == [] || (s != [] && ((a[0] == s[0] && IsSubsequence(a[1..], s[1..])) || IsSubsequence(a, s[1..])))
  }

  /** The position of the first level at price `p`, if any. */
  function FindIndex(s: seq<Entry>, p: int): (r: Option<nat>)
    ensures r.Some? ==> r.value < |s| && s[r.value].price == p
    ensures r.Some? ==> forall j :: 0 <= j < r.value ==> s[j].price != p
    ensures r.None? <==> !HasPrice(s, p)
  {
    if s == [] then None
    else if s[0].price == p then Some(0)
    else match FindIndex(s[1..], p)
      case None => None
      case Some(i) => Some(i + 1)
  }

  /** The size resting at price `p`: that of the first level there, or 0. */
  function SizeAt(s: seq<Entry>, p: int): int {
    match FindIndex(s, p)
    case Some(i) => s[i].size
    case None => 0
  }

  /** The ladder without any level at price `b`. */
  function RemoveBucket(s: seq<Entry>, b: int): (r: seq<Entry>)
    ensures IsSubsequence(r, s)
    ensures !HasPrice(r, b)
    ensures |r| + |AtPrice(s, b)| == |s|
    ensures forall e :: e in r <==> e in s && e.price != b
  {
    if s == [] then []
    else if s[0].price == b then RemoveBucket(s[1..], b)
    else [s[0]] + RemoveBucket(s[1..], b)
  }

  /** Adds `size` to the first level at `b` where it stands, or appends a
      level there at the end when there is none. A merged level whose size
      reaches 0 is kept. */
  function MergeOrPush(s: seq<Entry>, b: int, size: int): (r: seq<Entry>)
    ensures Entry(b, SizeAt(s, b) + size) in r
    ensures match FindIndex(s, b)
      case Some(i) =>
        && |r| == |s|
        && r[i] == Entry(b, s[i].size + size)
        && (forall j :: 0 <= j < |s| && j != i ==> r[j] == s[j])
        && multiset(r) == multiset(s) - multiset{s[i]} + multiset{Entry(b, s[i].size + size)}
      case None =>
        && |r| == |s| + 1
        && r[..|s|] == s
        && r[|s|] == Entry(b, size)
        && multiset(r) == multiset(s) + multiset{Entry(b, size)}
  {
    match FindIndex(s, b)
    case Some(i) =>
      var r := s[i := Entry(b, s[i].size + size)];
      assert r[i] in r;
      r
    case None =>
      var r := s + [Entry(b, size)];
      assert r[..|s|] == s;
      r
  }

  // ---------------------------------------------------------------------
  // Ordering

  /** Price `a` may stand before price `c` on this side. */
  predicate Precedes(side: Side, a: int, c: int) {
    match side
    case Buy => a >= c
    case Sell => a <= c
  }

  /** Best price first: descending for bids, ascending for asks. */
  predicate Sorted(side: Side, s: seq<Entry>) {
    forall i, j :: 0 <= i < j < |s| ==> Precedes(side, s[i].price, s[j].price)
  }

  /** Places `x` before the first level it may precede, so that `x` stays
      ahead of levels of equal price. */
  function Insert(side: Side, x: Entry, t: seq<Entry>): (r: seq<Entry>)
    ensures multiset(r) == multiset(t) + multiset{x}
    ensures Sorted(side, t) ==> Sorted(side, r)
    ensures forall p :: AtPrice(r, p) == (if x.price == p then [x] else []) + AtPrice(t, p)
  {
    if t == [] || Precedes(side, x.price, t[0].price) then
      InsertFrontSorted(side, x, t);
      [x] + t
    else
      var rest := Insert(side, x, t[1..]);
      InsertStep(side, x, t, rest);
      [t[0]] + rest
  }

  /** The recursive case of `Insert`: `t[0]` stays at the head when `x`
      may not precede it. */
  lemma InsertStep(side: Side, x: Entry, t: seq<Entry>, rest: seq<Entry>)
    requires t != [] && !Precedes(side, x.price, t[0].price)
    requires multiset(rest) == multiset(t[1..]) + multiset{x}
    requires Sorted(side, t[1..]) ==> Sorted(side, rest)
    requires forall p :: AtPrice(rest, p) == (if x.price == p then [x] else []) + AtPrice(t[1..], p)
    ensures multiset([t[0]] + rest) == multiset(t) + multiset{x}
    ensures Sorted(side, t) ==> Sorted(side, [t[0]] + rest)
    ensures forall p :: AtPrice([t[0]] + rest, p) == (if x.price == p then [x] else []) + AtPrice(t, p)
  {
    assert t == [t[0]] + t[1..];
    if Sorted(side, t) {
      InsertStepSorted(side, x, t, rest);
    }
    forall p ensures AtPrice([t[0]] + rest, p) == (if x.price == p then [x] else []) + AtPrice(t, p) {
      InsertStepAtPrice(side, x, t, rest, p);
    }
  }

  lemma InsertStepSorted(side: Side, x: Entry, t: seq<Entry>, rest: seq<Entry>)
    requires t != [] && !Precedes(side, x.price, t[0].price)
    requires multiset(rest) == multiset(t[1..]) + multiset{x}
    requires Sorted(side, t) && Sorted(side, rest)
    ensures Sorted(side, [t[0]] + rest)
  {
    var r := [t[0]] + rest;
    forall y | y in rest ensures Precedes(side, t[0].price, y.price) {
      assert y in multiset(rest);
      if y != x {
        assert y in multiset(t[1..]);
        var k :| 0 <= k < |t[1..]| && t[1..][k] == y;
        assert t[k + 1] == y;
      }
    }
    forall i, j | 0 <= i < j < |r| ensures Precedes(side, r[i].price, r[j].price) {
      if i == 0 {
        assert r[j] == rest[j - 1];
        assert rest[j - 1] in rest;
      } else {
        assert r[i] == rest[i - 1] && r[j] == rest[j - 1];
      }
    }
  }

  lemma InsertStepAtPrice(side: Side, x: Entry, t: seq<Entry>, rest: seq<Entry>, p: int)
    requires t != [] && !Precedes(side, x.price, t[0].price)
    requires AtPrice(rest, p) == (if x.price == p then [x] else []) + AtPrice(t[1..], p)
    ensures AtPrice([t[0]] + rest, p) == (if x.price == p then [x] else []) + AtPrice(t, p)
  {
    AtPriceCons(t[0], rest, p);
    AtPriceCons(t[0], t[1..], p);
    assert [t[0]] + t[1..] == t;
    if t[0].price == p {
      assert x.price != p;
    }
  }

  /** Unfolds `AtPrice` over a ladder with a known head. */
  lemma AtPriceCons(e: Entry, s: seq<Entry>, p: int)
    ensures AtPrice([e] + s, p) == (if e.price == p then [e] else []) + AtPrice(s, p)
  {
    assert ([e] + s)[1..] == s;
  }

  /** `x` may stand before every level of a sorted `t` it may precede the
      head of. */
  lemma InsertFrontSorted(side: Side, x: Entry, t: seq<Entry>)
    requires t == [] || Precedes(side, x.price, t[0].price)
    ensures Sorted(side, t) ==> Sorted(side, [x] + t)
  {
  }

  /** The ladder re-ordered best price first; levels of equal price keep
      their relative order (the sort is stable). */
  function SortLadder(side: Side, s: seq<Entry>): (r: seq<Entry>)
    ensures Sorted(side, r)
    ensures multiset(r) == multiset(s)
    ensures forall p :: AtPrice(r, p) == AtPrice(s, p)
    ensures |r| == |s|
  {
    if s == [] then []
    else
      assert s == [s[0]] + s[1..];
      Insert(side, s[0], SortLadder(side, s[1..]))
  }

  // ---------------------------------------------------------------------
  // Cumulative totals

  /** The sum of the sizes of `s`. */
  function SizeSum(s: seq<Entry>): int {
    if s == [] then 0 else SizeSum(s[..|s| - 1]) + s[|s| - 1].size
  }

  /** Each level's total is the sum of the sizes from the best level down
      to and including it. */
  ghost predicate RunningTotals(s: seq<Order>) {
    forall i :: 0 <= i < |s| ==> s[i].total == SizeSum(EntriesOf(s)[..i + 1])
  }

  lemma {:induction false} SizeSumFront(x: Entry, t: seq<Entry>)
    ensures SizeSum([x] + t) == x.size + SizeSum(t)
    decreases |t|
  {
    if t != [] {
      var u := t[..|t| - 1];
      assert ([x] + t)[..|t|] == [x] + u;
      SizeSumFront(x, u);
    }
  }

  /** Levels carrying `carried` plus the running sum of sizes as totals. */
  function Accumulate(s: seq<Entry>, carried: int): (r: seq<Order>)
    ensures |r| == |s|
    ensures forall i :: 0 <= i < |s| ==>
      r[i] == Order(s[i].price, s[i].size, carried + SizeSum(s[..i + 1]))
  {
    if s == [] then []
    else
      var rest := Accumulate(s[1..], carried + s[0].size);
      AccumulateStep(s, carried, rest);
      [Order(s[0].price, s[0].size, carried + s[0].size)] + rest
  }

  /** The recursive case of `Accumulate`: the head's size moves into the
      carried amount. */
  lemma AccumulateStep(s: seq<Entry>, carried: int, rest: seq<Order>)
    requires s != []
    requires |rest| == |s| - 1
    requires forall i :: 0 <= i < |s| - 1 ==>
      rest[i] == Order(s[1..][i].price, s[1..][i].size, carried + s[0].size + SizeSum(s[1..][..i + 1]))
    ensures forall i :: 0 <= i < |s| ==>
      ([Order(s[0].price, s[0].size, carried + s[0].size)] + rest)[i]
        == Order(s[i].price, s[i].size, carried + SizeSum(s[..i + 1]))
  {
    var r := [Order(s[0].price, s[0].size, carried + s[0].size)] + rest;
    forall i | 0 <= i < |s| ensures r[i] == Order(s[i].price, s[i].size, carried + SizeSum(s[..i + 1])) {
      if i == 0 {
        assert s[..1] == [s[0]] + [];
        SizeSumFront(s[0], []);
      } else {
        assert s[..i + 1] == [s[0]] + s[1..][..i];
        SizeSumFront(s[0], s[1..][..i]);
        assert r[i] == rest[i - 1];
      }
    }
  }

  /** The levels of `s` with their cumulative totals. */
  function WithTotals(s: seq<Entry>): (r: seq<Order>)
    ensures EntriesOf(r) == s
    ensures RunningTotals(r)
  {
    var r := Accumulate(s, 0);
    assert EntriesOf(r) == s;
    r
  }

  // ---------------------------------------------------------------------
  // The update rule

  /** Applies one (price, size) change to one side of the book: a zero size
      removes the bucket of `price`; any other size is merged into that
      bucket (or opens it) and the ladder is re-sorted. Totals are then
      recomputed; the totals `orders` carried in play no part. */
  function UpdateOrderBook(orders: seq<Order>, price: int, size: int, side: Side, g: GroupSize): (r: seq<Order>)
    ensures RunningTotals(r)
    ensures size != 0 ==> Sorted(side, EntriesOf(r))
    ensures |r| <= |orders| + 1
  {
    var b := Bucket(price, g);
    var levels := EntriesOf(orders);
    WithTotals(if size == 0 then RemoveBucket(levels, b)
               else SortLadder(side, MergeOrPush(levels, b, size)))
  }
}
