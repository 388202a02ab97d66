/** The message side of the book: snapshot and delta messages applied to
    both ladders, the depth scale the rendering divides by, and the market
    switch with its bucket widths. */
module Feed {
  import opened Options
  import opened Ladder
  import LadderLemmas

  /** Both sides of the book. */
  datatype Book = Book(buy: seq<Order>, sell: seq<Order>)

  /** A parsed feed message: its feed name and its optional bid and ask
      arrays of [price, size] pairs. */
  datatype Message = Message(feed: string, bids: Option<seq<Entry>>, asks: Option<seq<Entry>>)

  const SnapshotFeed := "book_ui_1_snapshot"
  const DeltaFeed := "book_ui_1"

  // ---------------------------------------------------------------------
  // Snapshots

  /** The levels a snapshot side becomes: each pair as it stands, with
      total 0; an absent array is an empty side. */
  function Ingest(entries: Option<seq<Entry>>): (r: seq<Order>)
    ensures EntriesOf(r) == entries.GetOr([])
    ensures forall i :: 0 <= i < |r| ==> r[i].total == 0
  {
    match entries
    case None => []
    case Some(es) =>
      var r := seq(|es|, i requires 0 <= i < |es| => Order(es[i].price, es[i].size, 0));
      assert EntriesOf(r) == es;
      r
  }

  // ---------------------------------------------------------------------
  // Deltas

  /** The entries of one side of a delta applied in order. */
  function ApplyUpdates(orders: seq<Order>, entries: seq<Entry>, side: Side, g: GroupSize): (r: seq<Order>)
    ensures entries != [] ==> RunningTotals(r)
    ensures |r| <= |orders| + |entries|
    decreases |entries|
  {
    if entries == [] then orders
    else
      var next := UpdateOrderBook(orders, entries[0].price, entries[0].size, side, g);
      var r := ApplyUpdates(next, entries[1..], side, g);
      assert entries[1..] != [] || r == next;
      r
  }

  /** A side of a delta: absent means no change. */
  function ApplySide(orders: seq<Order>, entries: Option<seq<Entry>>, side: Side, g: GroupSize): (r: seq<Order>)
    ensures entries.None? ==> r == orders
    ensures entries.Some? && entries.value != [] ==> RunningTotals(r)
    ensures |r| <= |orders| + |entries.GetOr([])|
  {
    ApplyUpdates(orders, entries.GetOr([]), side, g)
  }

  /** Handles one message: a snapshot replaces both sides, a delta updates
      bids then asks, any other feed leaves the book as it is. */
  function OnMessage(book: Book, msg: Message, g: GroupSize): (r: Book)
    ensures msg.feed == SnapshotFeed ==>
      && EntriesOf(r.buy) == msg.bids.GetOr([]) && EntriesOf(r.sell) == msg.asks.GetOr([])
      && (forall i :: 0 <= i < |r.buy| ==> r.buy[i].total == 0)
      && (forall i :: 0 <= i < |r.sell| ==> r.sell[i].total == 0)
    ensures msg.feed == DeltaFeed ==>
      && (msg.bids.None? ==> r.buy == book.buy)
      && (msg.asks.None? ==> r.sell == book.sell)
      && (msg.bids.Some? && msg.bids.value != [] ==> RunningTotals(r.buy))
      && (msg.asks.Some? && msg.asks.value != [] ==> RunningTotals(r.sell))
      && |r.buy| <= |book.buy| + |msg.bids.GetOr([])|
      && |r.sell| <= |book.sell| + |msg.asks.GetOr([])|
    ensures msg.feed != SnapshotFeed && msg.feed != DeltaFeed ==> r == book
  {
    if msg.feed == SnapshotFeed then Book(Ingest(msg.bids), Ingest(msg.asks))
    else if msg.feed == DeltaFeed then
      Book(ApplySide(book.buy, msg.bids, Buy, g), ApplySide(book.sell, msg.asks, Sell, g))
    else book
  }

  /** Applying two runs of entries one after the other is applying their
      concatenation. */
  lemma {:induction false} ApplyUpdatesAppend(orders: seq<Order>, a: seq<Entry>, b: seq<Entry>, side: Side, g: GroupSize)
    ensures ApplyUpdates(orders, a + b, side, g) == ApplyUpdates(ApplyUpdates(orders, a, side, g), b, side, g)
    decreases |a|
  {
    if a == [] {
      assert a + b == b;
    } else {
      var next := UpdateOrderBook(orders, a[0].price, a[0].size, side, g);
      assert (a + b)[0] == a[0] && (a + b)[1..] == a[1..] + b;
      ApplyUpdatesAppend(next, a[1..], b, side, g);
    }
  }

  /** A run of updates keeps a sorted ladder with distinct prices so. */
  lemma {:induction false} ApplyUpdatesKeepsShape(orders: seq<Order>, entries: seq<Entry>, side: Side, g: GroupSize)
    requires Sorted(side, EntriesOf(orders)) && UniquePrices(EntriesOf(orders))
    ensures var r := ApplyUpdates(orders, entries, side, g);
      Sorted(side, EntriesOf(r)) && UniquePrices(EntriesOf(r))
    decreases |entries|
  {
    if entries != [] {
      var next := UpdateOrderBook(orders, entries[0].price, entries[0].size, side, g);
      LadderLemmas.UpdateKeepsSorted(orders, entries[0].price, entries[0].size, side, g);
      LadderLemmas.UpdateKeepsUnique(orders, entries[0].price, entries[0].size, side, g);
      ApplyUpdatesKeepsShape(next, entries[1..], side, g);
    }
  }

  /** Splitting a delta in two, bids and asks alike, changes nothing:
      each side's entries are applied strictly in order, so the book after
      the second half is the book after the whole. */
  lemma DeltaSplits(book: Book, b1: seq<Entry>, b2: seq<Entry>, a1: seq<Entry>, a2: seq<Entry>, g: GroupSize)
    ensures OnMessage(OnMessage(book, Message(DeltaFeed, Some(b1), Some(a1)), g), Message(DeltaFeed, Some(b2), Some(a2)), g)
         == OnMessage(book, Message(DeltaFeed, Some(b1 + b2), Some(a1 + a2)), g)
  {
    ApplyUpdatesAppend(book.buy, b1, b2, Buy, g);
    ApplyUpdatesAppend(book.sell, a1, a2, Sell, g);
  }

  /** The level at bucket `q` after a run of entries, read as a map from
      bucket to size: each entry in turn clears its bucket or adds to it.
      Entries for other buckets leave the level alone. */
  function FoldLevel(level: Option<int>, entries: seq<Entry>, q: int, g: GroupSize): (r: Option<int>)
    ensures (forall k :: 0 <= k < |entries| ==> Bucket(entries[k].price, g) != q) ==> r == level
    decreases |entries|
  {
    if entries == [] then level
    else FoldLevel(LadderLemmas.StepLevel(level, Bucket(entries[0].price, g), entries[0].size, q), entries[1..], q, g)
  }

  /** On distinct prices, applying a run of entries leaves at every bucket
      the level `FoldLevel` computes: each entry is applied in order by the
      update rule, and nothing else happens to the ladder. */
  lemma {:induction false} ApplyUpdatesLevels(orders: seq<Order>, entries: seq<Entry>, side: Side, g: GroupSize, q: int)
    requires UniquePrices(EntriesOf(orders))
    ensures LadderLemmas.LevelAt(EntriesOf(ApplyUpdates(orders, entries, side, g)), q)
         == FoldLevel(LadderLemmas.LevelAt(EntriesOf(orders), q), entries, q, g)
    decreases |entries|
  {
    if entries != [] {
      var next := UpdateOrderBook(orders, entries[0].price, entries[0].size, side, g);
      LadderLemmas.UpdateLevelAt(orders, entries[0].price, entries[0].size, side, g, q);
      LadderLemmas.UpdateKeepsUnique(orders, entries[0].price, entries[0].size, side, g);
      ApplyUpdatesLevels(next, entries[1..], side, g, q);
    }
  }

  /** On distinct prices, a run of entries none of which falls in bucket `q`
      leaves the size at `q` as it was. */
  lemma {:induction false} ApplyUpdatesKeepsOtherSizes(orders: seq<Order>, entries: seq<Entry>, side: Side, g: GroupSize, q: int)
    requires UniquePrices(EntriesOf(orders))
    requires forall k :: 0 <= k < |entries| ==> Bucket(entries[k].price, g) != q
    ensures SizeAt(EntriesOf(ApplyUpdates(orders, entries, side, g)), q) == SizeAt(EntriesOf(orders), q)
    decreases |entries|
  {
    if entries != [] {
      var next := UpdateOrderBook(orders, entries[0].price, entries[0].size, side, g);
      LadderLemmas.UpdateKeepsOtherSizes(orders, entries[0].price, entries[0].size, side, g, q);
      LadderLemmas.UpdateKeepsUnique(orders, entries[0].price, entries[0].size, side, g);
      ApplyUpdatesKeepsOtherSizes(next, entries[1..], side, g, q);
    }
  }

  /** On a book with distinct prices on each side, a delta leaves at every
      bid bucket the level its bids fold to, and at every ask bucket the
      level its asks fold to; an absent array folds nothing. */
  lemma OnDeltaLevels(book: Book, msg: Message, g: GroupSize, q: int)
    requires msg.feed == DeltaFeed
    requires UniquePrices(EntriesOf(book.buy)) && UniquePrices(EntriesOf(book.sell))
    ensures var r := OnMessage(book, msg, g);
      && LadderLemmas.LevelAt(EntriesOf(r.buy), q) == FoldLevel(LadderLemmas.LevelAt(EntriesOf(book.buy), q), msg.bids.GetOr([]), q, g)
      && LadderLemmas.LevelAt(EntriesOf(r.sell), q) == FoldLevel(LadderLemmas.LevelAt(EntriesOf(book.sell), q), msg.asks.GetOr([]), q, g)
  {
    ApplyUpdatesLevels(book.buy, msg.bids.GetOr([]), Buy, g, q);
    ApplyUpdatesLevels(book.sell, msg.asks.GetOr([]), Sell, g, q);
  }

  /** Bids sorted descending and asks ascending, each with distinct prices. */
  ghost predicate WellShaped(book: Book) {
    && Sorted(Buy, EntriesOf(book.buy)) && UniquePrices(EntriesOf(book.buy))
    && Sorted(Sell, EntriesOf(book.sell)) && UniquePrices(EntriesOf(book.sell))
  }

  /** Deltas and unknown feeds keep a well-shaped book well shaped. */
  lemma OnMessageKeepsShape(book: Book, msg: Message, g: GroupSize)
    requires WellShaped(book)
    requires msg.feed != SnapshotFeed
    ensures WellShaped(OnMessage(book, msg, g))
  {
    if msg.feed == DeltaFeed {
      ApplyUpdatesKeepsShape(book.buy, msg.bids.GetOr([]), Buy, g);
      ApplyUpdatesKeepsShape(book.sell, msg.asks.GetOr([]), Sell, g);
    }
  }

  // ---------------------------------------------------------------------
  // Depth scale

  /** The last level's total, or 0 for an empty side. */
  function LastTotal(s: seq<Order>): int {
    if |s| > 0 then s[|s| - 1].total else 0
  }

  /** The larger of the two sides' last totals. */
  function GetMaxTotal(book: Book): (m: int)
    ensures m >= LastTotal(book.buy) && m >= LastTotal(book.sell)
    ensures m == LastTotal(book.buy) || m == LastTotal(book.sell)
    ensures book.buy == [] && book.sell == [] ==> m == 0
  {
    var b, s := LastTotal(book.buy), LastTotal(book.sell);
    if b >= s then b else s
  }

  /** With running totals, a side's last total is its whole size. */
  lemma LastTotalIsSizeSum(s: seq<Order>)
    requires RunningTotals(s)
    ensures LastTotal(s) == SizeSum(EntriesOf(s))
  {
    if s != [] {
      assert EntriesOf(s)[..|s|] == EntriesOf(s);
    }
  }

  /** With running totals on both sides, the depth scale is the larger of
      the two sides' whole sizes. */
  lemma MaxTotalIsDeeperSide(book: Book)
    requires RunningTotals(book.buy) && RunningTotals(book.sell)
    ensures var b, s := SizeSum(EntriesOf(book.buy)), SizeSum(EntriesOf(book.sell));
      GetMaxTotal(book) == if b >= s then b else s
  {
    LastTotalIsSizeSum(book.buy);
    LastTotalIsSizeSum(book.sell);
  }

  /** Straight after a snapshot the depth scale is 0. */
  lemma SnapshotMaxTotalIsZero(book: Book, msg: Message, g: GroupSize)
    requires msg.feed == SnapshotFeed
    ensures GetMaxTotal(OnMessage(book, msg, g)) == 0
  {
    var r := OnMessage(book, msg, g);
    assert |r.buy| > 0 ==> r.buy[|r.buy| - 1].total == 0;
    assert |r.sell| > 0 ==> r.sell[|r.sell| - 1].total == 0;
  }

  // ---------------------------------------------------------------------
  // Markets and bucket widths

  const Xbt := "PI_XBTUSD"
  const Eth := "PI_ETHUSD"

  /** A market with the bucket width in force for it. */
  datatype MarketChoice = MarketChoice(market: string, groupSize: GroupSize)

  /** The bucket widths offered for a market, in ticks, default first:
      0.50, 1.00, 2.50 for the bitcoin contract and 0.05, 0.10, 0.25 for any
      other. */
  function GroupOptions(market: string): (r: seq<GroupSize>)
    ensures |r| == 3 && r[0] < r[1] < r[2]
    ensures forall i :: 0 <= i < |r| ==> OnGrid(r[i], r[0])
  {
    if market == Xbt then
      assert OnGrid(100, 50) && OnGrid(250, 50);
      [50, 100, 250]
    else
      assert OnGrid(10, 5) && OnGrid(25, 5);
      [5, 10, 25]
  }

  /** The session starts on the bitcoin contract at width 0.50. */
  const Initial := MarketChoice(Xbt, 50)

  /** Switches between the two contracts and resets the width to the new
      market's default. */
  function ToggleMarket(current: string): (r: MarketChoice)
    ensures r.market != current
    ensures r.market == Xbt || r.market == Eth
    ensures r.groupSize == GroupOptions(r.market)[0]
  {
    var next := if current == Xbt then Eth else Xbt;
    MarketChoice(next, if next == Xbt then 50 else 5)
  }

  /** Toggling twice returns to either known market; an unknown market is
      left for the bitcoin contract. */
  lemma ToggleTwice(m: string)
    ensures m == Xbt || m == Eth ==> ToggleMarket(ToggleMarket(m).market).market == m
    ensures m != Xbt && m != Eth ==> ToggleMarket(m).market == Xbt
  {
  }

  /** The starting width is the starting market's default. */
  lemma InitialIsDefault()
    ensures Initial.groupSize == GroupOptions(Initial.market)[0]
  {
  }
}
