# A verified model of a single-instrument limit order book

This project models the in-memory limit order book of `cpp-limit-order-book`.
The book keeps two price-ordered ledgers. Bids are ordered highest price first
and asks lowest price first. Each price level holds a FIFO queue of resting
orders. Beside the ledgers the book keeps an index from order identity to
(price, side), an append-only trade log and an identity counter that starts
at 1.

- An incoming limit order is first matched against the opposite ledger under
  price-time priority: best level first, front order of the level first. The
  unfilled remainder then rests at the back of its own price level and is
  indexed.
- A market order is matched the same way at a sentinel price (1e9 for a buy,
  0 for a sell) and never rests.
- A cancel looks the order up through the index and scans its level.
- A clear empties everything except the identity counter.

The model has two layers:

- **Reference functions on values.** `BookState.Book` is the whole state as a
  value. `Matching.Fill` is one pairwise fill and `Matching.Sweep` a whole
  match. `Operations.AddLimit`, `AddMarket`, `Cancel`, `Clear` and
  `TotalOrders` are the public operations. `BookState.Inv` is the consistency
  the book keeps:
  - every level is non-empty;
  - resting quantities are positive;
  - each order sits at its level's price;
  - within a level, identities increase from front to back, so the level is
    in arrival order;
  - the index and the ledgers agree both ways;
  - the index size equals the number of resting orders;
  - identities lie between 1 and the counter;
  - every trade has a positive quantity.
- **The mutable object.** `Engine.OrderBook` is a class with the five fields of
  the source class. Its methods update those fields in place, with the same
  loops as the source: the nested fill loops of `match` and the linear scan of
  `cancel`. Each method is proved to leave the object in exactly the state the
  reference function computes from the old state. The public methods, the
  constructor, and the fill and match steps also keep the invariant whenever
  it held before. The two steps that rest an order (`Submit` and
  `RestRemainder`) do not, on their own: resting keeps the invariant only for
  an order that holds a new identity, which `AddLimit` supplies.

Prices are `real`: they are only compared and used as keys, never computed
with. Identities are `nat`, quantities `int`.

Module layout:

- `records.dfy`: `Order` and `Trade`.
- `ledgers.dfy`: one side of the book, its best price, the level scan, the order count and the resting quantity.
- `book_state.dfy`: the whole book and its invariant, preserved by the three elementary edits.
- `matching.dfy`: the matching algorithm and its properties.
- `operations.dfy`: the public operations.
- `engine.dfy`: the class.
- `scenarios.dfy`: concrete runs from the repository's test program.

## Model

| member | source | states |
|---|---|---|
| Ledgers.BestPrice | orderbook.hpp:30-31 | the first key of a non-empty side is one of its keys and ranks before every other key: the highest bid, the lowest ask |
| Ledgers.BestUnique | orderbook.hpp:30-31 | a key that ranks before all others is the first key, so the first key is unique |
| Ledgers.Find | orderbook.cpp:86-87 | the scan of a level returns the first position holding the identity, and finds nothing exactly when no order in the level has it |
| Ledgers.RemoveAt | orderbook.cpp:88 | erasing one order from a level keeps the others in their order and shortens the level by one |
| Ledgers.CountPut | orderbook.cpp:20-25 | storing a level back changes the number of resting orders by the change in the level's length, also when an emptied level is erased |
| Ledgers.Put | orderbook.cpp:20-25 | storing a level back at a price keeps it there exactly when it is non-empty, and leaves every other price and level as it was |
| Ledgers.ReduceFront | orderbook.cpp:18 | lowering the front order's quantity keeps the level's length, its other orders and the front order's identity and price, and lowers the front quantity by exactly the amount traded |
| Ledgers.Withdraw | orderbook.cpp:88-89 | taking the i-th order out of a level keeps the level exactly when others remain, leaves the rest of it in order, leaves every other price and level as it was, and lowers the number of resting orders by one |
| Ledgers.Append | orderbook.cpp:63-68 | queueing an order puts it at the back of its price's level, creating the level if needed, and leaves every other price untouched |
| Ledgers.VolumePut | orderbook.cpp:18-25 | storing a level back changes the quantity resting on the side by the change in the level's quantity, also when an emptied level is erased |
| Ledgers.CountAppend | orderbook.cpp:63-68 | queueing an order at the back of its level adds exactly one resting order |
| BookState.FreshInv | orderbook.hpp:29-34 | the empty book with counter 1 satisfies the invariant |
| BookState.WithdrawInv | orderbook.cpp:86-91 | taking one resting order out of its level and the index keeps the invariant; a level that empties is erased |
| BookState.ResizeInv | orderbook.cpp:17-18 | lowering the quantity of a resting order, keeping it positive, keeps the invariant |
| BookState.RestCounts | orderbook.cpp:63-71 | resting an order with a new identity adds one index entry and one resting order, so the index size still equals the number of resting orders, and every identity stays between 1 and the counter |
| BookState.RestInv | orderbook.cpp:63-71 | resting an order with a new identity at the back of its level and indexing it keeps the invariant |
| Matching.Crosses | orderbook.cpp:8-32 | a level crosses the incoming order exactly when its price ranks at or before the incoming price in the opposite side's own order: at or below a bid's price, at or above an ask's |
| Matching.TradeWith | orderbook.cpp:15-39 | a trade carries the level's price and the traded quantity, with the incoming order as buyer for a bid and as seller for an ask, and the resting order on the other side |
| Matching.FillIncoming | orderbook.cpp:12-17 | a fill changes only the incoming order's quantity, which goes down but stays non-negative, and reaches 0 exactly when the front order can absorb all of it |
| Matching.FillTakesEarliest | orderbook.cpp:11-15 | a fill trades with the front order of its level, which has the smallest identity there: the earliest arrival at that price |
| Matching.Fill | orderbook.cpp:11-23 | one fill keeps the opposite side well formed, leaves the own side and the counter alone, appends exactly one trade to the old log, and only ever removes levels and index entries |
| Matching.FillFront | orderbook.cpp:11-23 | a fill trades min(incoming, front) units with the front order at the level's price; a used-up front order leaves the level and the index; a partly filled one stays in front with its quantity lowered, and then the incoming order is used up; other levels are untouched |
| Matching.Sweep | orderbook.cpp:3-53 | the match keeps the incoming order except for its quantity, which goes down but stays non-negative; a non-positive quantity changes nothing; the own side and the counter are unchanged; old trades are kept as a prefix; the opposite side stays well formed; levels and index entries are only removed |
| Matching.SweepStep | orderbook.cpp:8-10 | while the best opposite level crosses and quantity is left, the match is one fill at that level followed by the match of what is left |
| Matching.FillInv | orderbook.cpp:11-23 | one fill keeps the book invariant |
| Matching.SweepInv | orderbook.cpp:3-53 | a whole match keeps the book invariant |
| Matching.FillLogsLoss | orderbook.cpp:12-17 | the trade one fill logs is for exactly the quantity the incoming order loses in that fill |
| Matching.SweepConserves | orderbook.cpp:12-18 | the total quantity of the trades made by a match equals the quantity the incoming order lost |
| Matching.FillVolume | orderbook.cpp:12-25 | one fill takes off the opposite side exactly the quantity of the trade it logs |
| Matching.SweepVolume | orderbook.cpp:3-53 | the total quantity of the trades made by a match equals the quantity the opposite side lost: resting orders give up exactly what they trade |
| Matching.SweepTradesCross | orderbook.cpp:8-15 | every trade of a match crosses the incoming limit, is priced at a level that was resting, has a positive quantity and names the incoming order on its own side |
| Matching.SweepPriority | orderbook.cpp:7-26 | no level left on the opposite side after a match ranks before the price of any trade it made |
| Matching.SweepDrainsPassedLevels | orderbook.cpp:25 | a level ranking strictly before a price the match traded at was drained and erased |
| Matching.SweepStops | orderbook.cpp:8 | a match that leaves quantity over stops only because no level left on the opposite side crosses the incoming limit |
| Operations.Rest | orderbook.cpp:63-71 | resting an order puts it at the back of its level, behind the orders already there, and leaves every other level of its side alone; the index gains exactly its entry (price, side) and keeps every other entry; the other side, the trades and the counter are untouched |
| Operations.AddLimit | orderbook.cpp:55-73 | a non-positive quantity returns 0 and changes nothing, the counter included; otherwise the order gets the old counter as identity and the counter goes up by one; old trades are kept |
| Operations.AddMarket | orderbook.cpp:113-118 | a non-positive quantity returns 0 and changes nothing; otherwise it uses up the next identity, never adds to its own side and never adds an index entry; old trades are kept |
| Operations.Cancel | orderbook.cpp:75-111 | an unknown identity fails and changes nothing; otherwise the index entry goes in every case; trades and counter are untouched |
| Operations.Clear | orderbook.cpp:145-150 | a clear keeps the counter, empties the trade log, leaves no resting order anywhere and counts zero orders |
| Operations.TotalOrders | orderbook.cpp:152-154 | in a consistent book the index size is the number of orders resting on both sides |
| Operations.NextIdInv | orderbook.cpp:57 | raising the counter keeps the invariant |
| Operations.AddLimitInv | orderbook.cpp:55-73 | a limit submission keeps the invariant |
| Operations.LimitOutcome | orderbook.cpp:55-73 | an accepted limit order keeps the trades of its match, and its remainder is indexed and appended to its own side exactly when it is positive |
| Operations.AddLimitRests | orderbook.cpp:60-71 | the traded amount lies between 0 and the quantity; the identity is positive and new; the order is indexed exactly when quantity is left, and then it is indexed at its price and side and sits at the back of its old level with exactly the unfilled quantity |
| Operations.AddLimitTrades | orderbook.cpp:8-15 | every trade of a limit submission respects its limit, is priced at a level that was resting, and names the new order as buyer (bid) or seller (ask) |
| Operations.AddLimitLeavesNoCross | orderbook.cpp:8-61 | a limit order that rests leaves no opposite level that crosses its price |
| Operations.AddMarketInv | orderbook.cpp:113-118 | a market submission keeps the invariant |
| Operations.AddMarketSweeps | orderbook.cpp:113-118 | a market order's traded amount lies between 0 and its quantity, it never rests, and quantity is left over only when no opposite level is within the sentinel |
| Operations.AddMarketTrades | orderbook.cpp:8-39 | every trade of a market order is priced at a level that was resting and names the market order on its own side |
| Operations.CancelInv | orderbook.cpp:75-111 | a cancel keeps the invariant |
| Operations.CancelResting | orderbook.cpp:86-104 | cancelling an indexed order succeeds: the scan of the level its index entry names finds it, the result is the book with that order withdrawn and its index entry erased, and the index shrinks by one |
| Operations.CancelRemoves | orderbook.cpp:75-111 | after a cancel the identity rests nowhere in the book |
| Operations.CancelTwice | orderbook.cpp:77-78 | a second cancel of the same identity fails and changes nothing |
| Operations.ClearInv | orderbook.cpp:145-150 | a clear of any book whose counter is at least 1 gives a consistent book |
| Engine.OrderBook.constructor | orderbook.hpp:29-34 | a new object is the empty book with counter 1 and satisfies the invariant |
| Engine.OrderBook.TradeFront | orderbook.cpp:10-23 | one pass of the inner fill loop on the fields leaves the object in the state of one reference fill and returns the incoming order with the quantity it has left; the invariant is kept |
| Engine.OrderBook.Match | orderbook.cpp:3-53 | the nested loops leave the object in the state of the reference match and return the remainder it computes; the invariant is kept |
| Engine.OrderBook.AddLimit | orderbook.cpp:55-73 | the new state and the returned identity are those of the reference limit submission, and the invariant is kept |
| Engine.OrderBook.Submit | orderbook.cpp:61-71 | matching an order and resting its remainder leaves the object in the state of the reference match followed, when quantity is left, by the reference rest |
| Engine.OrderBook.RestRemainder | orderbook.cpp:63-71 | appending the remainder to its level and indexing it leaves the object in the state of the reference rest |
| Engine.OrderBook.AddMarket | orderbook.cpp:113-118 | the new state and the returned identity are those of the reference market submission, and the invariant is kept |
| Engine.OrderBook.Cancel | orderbook.cpp:75-111 | the scan loop and the erasures give the new state and the result of the reference cancel, and the invariant is kept |
| Engine.OrderBook.Clear | orderbook.cpp:145-150 | the new state is the reference clear, and the invariant holds afterwards whenever it held before |
| Engine.OrderBook.TotalOrders | orderbook.cpp:152-154 | the index size is the number of resting orders on both sides |
| Engine.OrderBook.GetTrades | orderbook.hpp:46 | the read-only trade log, in which every trade of a consistent book has a positive quantity |
| Scenarios.Uncrossed | orderbook.cpp:55-73 | a limit order that crosses nothing rests whole under the next identity |
| Scenarios.LastFill | orderbook.cpp:10-23 | a match whose best level can absorb the incoming order ends after one fill there |
| Scenarios.NextFill | orderbook.cpp:10-23 | a match that uses up the front order of its best level goes on from the book after that fill |
| Scenarios.BasicAskRests | test.cpp:10-11 | an ask on an empty book rests under identity 1 |
| Scenarios.BasicBidFills | test.cpp:14-23 | a bid for 30 at the ask's price trades 30 at 100.5 with it, and the ask rests on with 20 |
| Scenarios.BasicObserved | test.cpp:11-23 | one resting order before and after, and one trade of 30 at 100.5 |
| Scenarios.SpreadBidRests | test.cpp:34 | a bid on an empty book rests |
| Scenarios.SpreadAskRests | test.cpp:35 | an ask above the only bid rests without trading |
| Scenarios.SpreadObserved | test.cpp:37-38 | two resting orders and no trade |
| Scenarios.MultiSecondAsk | test.cpp:49-54 | after two bids and an ask, an ask at 101 rests at a level of its own: four resting orders |
| Scenarios.MultiFirstFill | test.cpp:58-60 | the sweeping bid's first fill uses up the ask at 100.5 and erases its level |
| Scenarios.MultiSecondFill | test.cpp:58-60 | its second fill takes 50 of the 100 resting at 101 |
| Scenarios.MultiSweepHead | test.cpp:58-60 | the sweep of the bid for 150 goes on past the ask at 100.5 with 50 left |
| Scenarios.MultiSweepTail | test.cpp:58-60 | with 50 left, the sweep takes 50 of the 100 at 101 and ends there |
| Scenarios.MultiSweep | test.cpp:58-60 | the sweep of the bid for 150 uses up the ask at 100.5 and ends inside the level at 101 |
| Scenarios.MultiBidSweeps | test.cpp:57-62 | a bid for 150 at 101 trades 100 at 100.5 and 50 at 101, and does not rest |
| Scenarios.MultiObserved | test.cpp:54-62 | four resting orders, then two trades and three resting orders |
| Scenarios.FifoFirstAsk | test.cpp:73 | the first ask at 100 rests under identity 1 |
| Scenarios.FifoSecondAsk | test.cpp:74 | the second ask at 100 queues behind the first |
| Scenarios.FifoThirdAsk | test.cpp:75 | the third ask at 100 queues behind both |
| Scenarios.FifoFill | test.cpp:80 | the bid's one fill uses up the front ask, identity 1, and leaves the two behind it |
| Scenarios.FifoBidTakesFirst | test.cpp:80 | a bid for 50 trades with the earliest ask only |
| Scenarios.FifoObserved | test.cpp:77-87 | three resting orders, then two, and one trade whose seller is the first ask |
| Scenarios.PartialAskRests | test.cpp:97 | an ask for 1000 rests |
| Scenarios.PartialFirstBid | test.cpp:100 | a bid for 100 leaves the ask with 900 |
| Scenarios.PartialSecondBid | test.cpp:101 | a bid for 200 leaves the ask with 700 |
| Scenarios.PartialThirdBid | test.cpp:102 | a bid for 300 leaves the ask with 400 |
| Scenarios.PartialObserved | test.cpp:104-105 | three trades and one resting ask of 400 |
| Scenarios.MarketFirstAsk | test.cpp:143 | an ask at 100 rests on an empty book under identity 1 |
| Scenarios.MarketSecondAsk | test.cpp:144 | an ask at 100.5 rests at a level of its own under identity 2 |
| Scenarios.MarketThirdAsk | test.cpp:145 | an ask at 101 rests at a third level under identity 3 |
| Scenarios.MarketFirstFill | test.cpp:148 | the market buy's first fill uses up the ask at 100 and erases its level |
| Scenarios.MarketSecondFill | test.cpp:148 | its second fill uses up the ask at 100.5 |
| Scenarios.MarketThirdFill | test.cpp:148 | its third fill takes 50 of the 100 at 101 |
| Scenarios.MarketSweepFirst | test.cpp:148 | the market buy's sweep goes on past the ask at 100 with 150 left |
| Scenarios.MarketSweepSecond | test.cpp:148 | it goes on past the ask at 100.5 with 50 left |
| Scenarios.MarketSweepLast | test.cpp:148 | with 50 left it takes 50 of the 100 at 101 and ends there |
| Scenarios.MarketBuySweeps | test.cpp:147-151 | a market buy for 250 trades 100, 100 and 50 across three levels, never rests, and leaves 50 at 101 |
| Scenarios.MarketObserved | test.cpp:150-151 | three trades and one resting ask of 50 at 101 |
| Scenarios.EdgeCases | test.cpp:161-171 | limit orders for 0 and -10 return identity 0 and change nothing; cancelling 999 on an empty book fails |
| Scenarios.RestingFirstBid | test.cpp:116 | a bid at 99 rests |
| Scenarios.RestingSecondBid | test.cpp:117 | a bid at 99.5 rests at a level of its own |
| Scenarios.RestingAsk | test.cpp:118 | an ask at 100.5 does not reach the best bid and rests |
| Scenarios.CancelMiddle | test.cpp:123-125 | cancelling the middle order succeeds and erases its level |
| Scenarios.CancelAgain | test.cpp:120-133 | three resting orders, then two; cancelling the same identity again, or 999, fails and changes nothing |
| Scenarios.ClearFirstBid | test.cpp:181 | a bid rests |
| Scenarios.ClearAsk | test.cpp:182 | an ask above it rests |
| Scenarios.ClearSecondBid | test.cpp:183 | a bid at 100.5 does not reach the ask at 101 and rests |
| Scenarios.ClearThenBid | test.cpp:188-195 | after the clear the next bid rests alone under identity 4 |
| Scenarios.ClearObserved | test.cpp:185-195 | three resting orders and no trade before the clear, none of either after it, one order after the last bid |

## Left out

- Timestamps (`ts` in `Order` and `Trade`) are not modelled. They read the wall clock and never influence matching.
- `print_top`, `print_trades`, `benchmark` and the demo driver `main.cpp` are not modelled. They only print or time.
- Prices are exact reals, not IEEE doubles: no rounding, NaN or signed zero.
- Integer widths are not modelled. The 64-bit identity counter never wraps. Quantities are unbounded integers: the source only subtracts the minimum of two positive values, so `int` overflow cannot occur there.
- `std::map`, `std::deque` and `std::unordered_map` are modelled as Dafny maps and sequences, not as trees, deques or hash tables.
- The C++ iterator `it` of `match` is replaced by recomputing the best key of the opposite side on each pass of the outer loop. In the source, the `++it` branch runs only when the incoming order is used up, and then the loop ends, so the two agree.
- Engine.OrderBook.TradeFront: erases a level as soon as its last order is popped, where the source erases it after the inner loop. No state between the two points is observable.
- Engine.OrderBook.Match: the inner loop tests whether the level is still present instead of testing the level's deque for emptiness. By the previous item these agree.
- Engine.OrderBook.Match, Engine.OrderBook.AddLimit, Engine.OrderBook.AddMarket: require only that the opposite side is well formed, which every consistent book meets. They keep the full invariant whenever it held before.
- Engine.OrderBook.Cancel: the scan loop only searches; the erasure happens after the loop at the position found. The source erases inside the loop and returns from there.
- Operations.Cancel: models the source's fallback path, in which the index names an order that is not in its level. `Operations.CancelResting` shows that this path is unreachable in a consistent book.
- The market sentinel is kept as in the source. A market buy does not cross asks above 1e9 and a market sell does not cross bids below 0. `Operations.AddMarketSweeps` states exactly this.
- The stress test (test.cpp:200 onward) is not modelled. It only times submissions.
