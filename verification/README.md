# Order-book ladder engine, modelled in Dafny

This project models the order-book logic of a live order-book view for a
crypto futures feed. The view keeps one ladder per side of the book (bids,
asks). Each ladder is a list of price levels `{price, size, total}`. The
model covers:

- **Bucketing.** `groupPrice` maps a raw price to the boundary of its bucket.
- **The update rule.** `updateOrderBook` applies one `(price, size)` change
  to one side.
  - A zero size removes the bucket.
  - Any other size is added to the bucket, or opens it. The ladder is then
    re-sorted: bids descending, asks ascending.
  - In both cases the cumulative `total`s are recomputed as a running sum.
- **The message handler.**
  - A snapshot replaces both sides.
  - A delta folds the update rule over its bid array, then its ask array.
  - Any other feed is ignored.
- **The depth scale.** `getMaxTotal` takes the larger of the two sides' last totals.
- **The market toggle.** It switches between the two contracts and resets
  the bucket width to the new market's default.

Modules:

- `Options` (`options.dfy`): the `Option` type, for a lookup that can miss and an absent message field.
- `Ladder` (`ladder.dfy`): the data model (`Entry`, `Order`, `Side`, `GroupSize`), bucketing, lookup, removal, merge, the stable sort, running totals and `UpdateOrderBook`.
- `LadderLemmas` (`ladder_lemmas.dfy`): what one update does, case by case, and the invariants it keeps. These are sortedness and distinct prices. The module also proves that, on a ladder with distinct prices, updates to different buckets commute.
- `Feed` (`feed.dfy`): snapshot ingestion, the delta fold, the message handler, the depth scale, the market toggle and its bucket widths.
- `Scenarios` (`scenarios.dfy`): worked examples.

Numbers:

- Prices are integer ticks of one hundredth, so the widths 0.05 and 0.5 are
  5 and 50 ticks.
- Sizes and totals are integers.
- Floor division by a positive width is Dafny's `/` on `int`, which rounds
  toward minus infinity for a positive divisor, as `Math.floor` does.

The update rule works on the `(price, size)` pairs of the ladder (`Entry`).
The source copies each level with its old `total` and then overwrites every
`total` in the final map. So carrying only price and size through the
removal, merge and sort gives the same result. Any stale totals from the
input play no part. JavaScript's `Array.prototype.sort` is stable, so it is
modelled by a stable insertion sort. Its contract says the result is sorted,
is a permutation of the input, and keeps the levels of any one price in
their input order.

Some of the code's behaviour is easy to miss; the model follows the code:

- A snapshot is not bucketed, sorted, filtered for zero sizes or totalled.
  Each pair becomes a level with `total: 0` (`OnMessage`, `SnapshotKeepsTotalsZero`).
- A merged level whose size reaches 0 stays in the ladder. Only an explicit zero size removes a bucket.
- Switching markets does not clear the ladders. They stay until the next snapshot arrives.
- A non-zero update sorts the whole ladder. A zero-size update does not
  sort, so it keeps a ladder sorted only if it was sorted before, and a
  snapshot is taken as sent. The model proves that every update keeps a
  sorted ladder sorted and keeps prices distinct (`UpdateKeepsSorted`,
  `UpdateKeepsUnique`).
- A snapshot may hold two levels at one price. A later delta there adds to
  the first of them where it stands, and the stable sort keeps that order
  (`MergeOrPush`, `DuplicateLevelsMergeFirst`).

## Model

| member | source | states |
|---|---|---|
| Ladder.Bucket | src/Pages/component.tsx:10-12 | the bucket is a multiple of the width, not above the price, and less than one width below it |
| Ladder.BucketUnique | src/Pages/component.tsx:10-12 | any multiple of the width within one width below the price is the bucket, so the bucket is the floor boundary |
| Ladder.BucketIdempotent | src/Pages/component.tsx:10-12 | bucketing a bucket price gives the same bucket |
| Ladder.FindIndex | src/Pages/component.tsx:36-38 | returns the first position holding the price, and none exactly when no level holds it |
| Ladder.RemoveBucket | src/Pages/component.tsx:31-34 | the filter keeps the other levels in order, drops every level at the bucket, shrinks by the number of such levels, and keeps exactly the levels at other prices |
| Ladder.MergeOrPush | src/Pages/component.tsx:36-43 | with a level at the bucket, that first level grows by the delta in place and every other level keeps its position; otherwise the old levels stay as they were and one level (bucket, size) is appended at the end |
| Ladder.SortLadder | src/Pages/component.tsx:44-46 | the result is sorted best price first for the side, is a permutation of the input, and keeps each price's levels in input order |
| Ladder.Accumulate | src/Pages/component.tsx:49-53 | each level keeps its price and size and gets the carried amount plus the sum of sizes up to and including it |
| Ladder.WithTotals | src/Pages/component.tsx:49-53 | the totals are running sums of the sizes, and the price/size pairs come back unchanged |
| Ladder.UpdateOrderBook | src/Pages/component.tsx:22-56 | every result carries running-sum totals, a non-zero update leaves the ladder sorted for its side, and at most one level is added |
| LadderLemmas.UpdateZeroRemovesBucket | src/Pages/component.tsx:31-34 | a zero size removes exactly the bucket's levels, and the rest keep price, size and relative order with no re-sort |
| LadderLemmas.UpdateZeroIdempotent | src/Pages/component.tsx:31-34 | applying the same zero-size update twice gives the result of applying it once |
| LadderLemmas.UpdateMergesIntoBucket | src/Pages/component.tsx:36-40 | on an occupied bucket the first level there gains the delta; the length is unchanged, a level reaching size 0 is kept, and every other level is unchanged |
| LadderLemmas.UpdateOpensBucket | src/Pages/component.tsx:41-43 | on an empty bucket exactly one level (bucket, size) appears, and all old levels remain with their price and size |
| LadderLemmas.UpdateKeepsSorted | src/Pages/component.tsx:31-47 | a sorted ladder stays sorted under any update, zero or not |
| LadderLemmas.UpdateKeepsUnique | src/Pages/component.tsx:31-46 | a ladder with distinct prices keeps them distinct |
| LadderLemmas.UpdateSetsBucket | src/Pages/component.tsx:28-46 | on distinct prices the bucket's size becomes old size (0 if absent) plus delta, or the bucket goes when the delta is 0; every other level stays |
| LadderLemmas.UpdateKeepsOtherSizes | src/Pages/component.tsx:28-46 | on a ladder with distinct prices, an update leaves the size at every other bucket unchanged |
| LadderLemmas.UpdateLevelAt | src/Pages/component.tsx:28-46 | on distinct prices, read as a map from bucket to size, one update clears its bucket on size 0, otherwise adds the size to it (from 0 when absent), and leaves every other bucket's level as it was |
| LadderLemmas.UpdatesCommute | src/Pages/component.tsx:22-56 | on distinct prices, updates to two different buckets give the same ladder in either order |
| LadderLemmas.SortedUniqueDetermined | src/Pages/component.tsx:44-46 | a sorted ladder with distinct prices is determined by its set of levels, whatever sort algorithm produced it |
| LadderLemmas.RemoveCommute | src/Pages/component.tsx:32-34 | removing two buckets gives the same ladder in either order |
| Feed.Ingest | src/Pages/component.tsx:104-118 | snapshot pairs come back unchanged in the same order (no bucketing, sorting or zero filtering) with every total 0; an absent array gives an empty side |
| Feed.ApplyUpdates | src/Pages/component.tsx:121-131 | after at least one entry the side carries running-sum totals, and it grows by at most one level per entry; what it does to each bucket is `ApplyUpdatesLevels` |
| Feed.ApplyUpdatesAppend | src/Pages/component.tsx:122-125 | folding two runs of entries one after the other is folding their concatenation |
| Feed.ApplyUpdatesKeepsShape | src/Pages/component.tsx:121-131 | a run of deltas keeps a sorted ladder with distinct prices sorted and distinct |
| Feed.ApplySide | src/Pages/component.tsx:122-131 | an absent array leaves its side unchanged; a non-empty one leaves running-sum totals; a side grows by at most one level per entry (see `ApplyUpdatesLevels` for the contents and `ApplyUpdatesAppend` for the order) |
| Feed.OnMessage | src/Pages/component.tsx:101-133 | a snapshot replaces both sides pair for pair with totals 0; a delta leaves a side with an absent array unchanged and a side with a non-empty one re-totalled, each growing by at most one level per entry; any other feed leaves the book unchanged (see `OnDeltaLevels` for the contents, `DeltaSplits`, `OnMessageKeepsShape`) |
| Feed.FoldLevel | src/Pages/component.tsx:122-131 | the reference meaning of a delta side at one bucket: each entry in turn clears or adds to its bucket, and a run with no entry in the bucket leaves its level as it was |
| Feed.ApplyUpdatesLevels | src/Pages/component.tsx:121-131 | on distinct prices, after a run of entries every bucket holds the level the entries fold to, each applied in order by the update rule |
| Feed.ApplyUpdatesKeepsOtherSizes | src/Pages/component.tsx:121-131 | on distinct prices, a run of entries none of which falls in a bucket leaves that bucket's size unchanged |
| Feed.OnDeltaLevels | src/Pages/component.tsx:121-132 | on a book with distinct prices, a delta leaves every bid bucket at the level its bids fold to and every ask bucket at the level its asks fold to, an absent array folding nothing |
| Feed.DeltaSplits | src/Pages/component.tsx:121-132 | applying a delta in two halves, bids and asks alike, gives the same book as applying it whole |
| Feed.OnMessageKeepsShape | src/Pages/component.tsx:121-132 | deltas keep bids sorted descending and asks ascending, each with distinct prices |
| Feed.GetMaxTotal | src/Pages/component.tsx:179-187 | the result is the larger of the two sides' last totals, an empty side counting 0, and 0 for an empty book |
| Feed.LastTotalIsSizeSum | src/Pages/component.tsx:180-182 | with running totals, a side's last total is the sum of all its sizes |
| Feed.MaxTotalIsDeeperSide | src/Pages/component.tsx:179-187 | with running totals on both sides, the depth scale is the larger side's total size |
| Feed.SnapshotMaxTotalIsZero | src/Pages/component.tsx:104-119 | straight after a snapshot the depth scale is 0 |
| Feed.ToggleMarket | src/Pages/component.tsx:78-91 | the new market differs from the current one, is one of the two contracts, and its width is the first option offered for it |
| Feed.ToggleTwice | src/Pages/component.tsx:78-79 | toggling twice returns to either known market; an unknown market goes to the bitcoin contract |
| Feed.GroupOptions | src/Pages/component.tsx:201-213 | the widths offered per market, default first: 0.50, 1.00, 2.50 for the bitcoin contract, 0.05, 0.10, 0.25 otherwise; three strictly ascending widths, each a multiple of the default |
| Feed.InitialIsDefault | src/Pages/component.tsx:17-18 | the starting width 0.50 is the default option of the starting market |
| Scenarios.FirstBidOpensBucket | src/Pages/component.tsx:22-56 | an empty bid ladder at width 0.50 given (50000.30, 10) becomes one level at 50000.00 with size and total 10 |
| Scenarios.SameBucketAdds | src/Pages/component.tsx:36-40 | a further (50000.40, 5) merges into that level, giving size and total 15 |
| Scenarios.ZeroClearsBucket | src/Pages/component.tsx:31-34 | (50000.00, 0) then empties the ladder |
| Scenarios.DuplicateLevelsMergeFirst | src/Pages/component.tsx:36-53 | bids (100, 1), (100, 2) given (100, 5) become (100, 6) then (100, 2), with totals 6 and 8 |
| Scenarios.SnapshotKeepsTotalsZero | src/Pages/component.tsx:104-119 | a snapshot of bids [[100, 2], [99, 3]] gives the levels (100, 2) and (99, 3) with totals 0 |

## Left out

- WebSocket transport. This covers connection setup, the subscribe and
  unsubscribe messages, and the error alert (`component.tsx` lines 58-76,
  94-99 and 135-139). It is I/O against an external server.
- Kill/restart and auto-reconnect (lines 141-177). Their behaviour depends on
  React state captured in closures and on socket events.
- React state plumbing and rendering (lines 14-20, 151-157, 191-267), apart
  from the starting market and width (lines 17-18) and the width options
  (lines 201-213), which are modelled. The
  delta fold treats the queued `setX(prev => ...)` updaters as one left fold
  per side, bids first, which is the order React applies them in. The colour
  intensity `total / maxTotal` and the price formatting are not modelled.
- Floating point. Prices are exact integer hundredths, so a price finer than
  0.01 is not representable, and the exact bucketing is an idealisation of
  the source's IEEE double arithmetic. In doubles `1234.35 / 0.05` is
  `24686.999999999996`, so `Math.floor(1234.35 / 0.05) * 0.05` is
  `1234.3000000000002`, and `2000.1` buckets to `2000.0500000000002`. At
  width 0.05 the source thus puts some on-grid prices one tick low, and its
  bucket prices need not equal any raw price a snapshot sends. The model
  buckets those prices to themselves.
- The bucket width seen by the message handler is a parameter. In the source
  it is whatever `groupSize` the handler's closure captured when the socket
  was set up, and the width select (line 199) changes state without
  re-bucketing.
- Only positive widths are modelled. Every width the source offers is positive.
- In-place aliasing at line 40, where the shallow copy lets the merge mutate
  the previous state's level object. The model uses immutable values.
- A message that `JSON.parse` rejects, or pairs that are not numbers. The
  model starts from a parsed message.
