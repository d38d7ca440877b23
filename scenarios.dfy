/**
 Scenarios of the repository's test program, replayed on the reference
 functions. The constants are the books a scenario passes through; each lemma
 states one operation from one of them to the next, with the identities,
 resting-order counts and trades the test observes. The order book object is
 proved to compute these functions, so the same values hold for it.
 */
module Scenarios {
  import opened Records
  import opened Ledgers
  import opened BookState
  import opened Matching
  import opened Operations

  /** A limit order that crosses nothing on the opposite side rests whole under the next identity. */
  lemma Uncrossed(b: Book, price: real, qty: int, isBid: bool)
    requires LedgerOk(Opposite(b, isBid)) && qty > 0
    requires Opposite(b, isBid) == map[] || !Crosses(BestPrice(Opposite(b, isBid).Keys, !isBid), price, isBid)
    ensures AddLimit(b, price, qty, isBid) == Placed(Rest(b.(nextId := b.nextId + 1), Order(b.nextId, price, qty), isBid), b.nextId)
  {
    AddLimitSteps(b, price, qty, isBid);
  }

  /** A limit order whose sweep uses it up does not rest. */
  lemma Filled(b: Book, price: real, qty: int, isBid: bool, s: Swept)
    requires LedgerOk(Opposite(b, isBid)) && qty > 0
    requires Sweep(b.(nextId := b.nextId + 1), Order(b.nextId, price, qty), isBid) == s && s.incoming.qty == 0
    ensures AddLimit(b, price, qty, isBid) == Placed(s.book, b.nextId)
  {
    AddLimitSteps(b, price, qty, isBid);
  }

  /** A sweep whose best level the incoming order uses up ends there. */
  lemma LastFill(b: Book, inc: Order, isBid: bool, p: real, r: Book)
    requires LedgerOk(Opposite(b, isBid)) && p in Opposite(b, isBid) && inc.qty > 0
    requires Crosses(p, inc.price, isBid) && NoneBefore(p, Opposite(b, isBid), !isBid)
    requires Fill(b, inc, p, isBid) == r && inc.qty <= Opposite(b, isBid)[p][0].qty
    ensures Sweep(b, inc, isBid) == Swept(r, inc.(qty := 0))
  {
    SweepStep(b, inc, isBid, p);
  }

  /** A sweep that uses up the front order of its best level goes on from the book after the fill. */
  lemma NextFill(b: Book, inc: Order, isBid: bool, p: real, r: Book)
    requires LedgerOk(Opposite(b, isBid)) && p in Opposite(b, isBid) && inc.qty > 0
    requires Crosses(p, inc.price, isBid) && NoneBefore(p, Opposite(b, isBid), !isBid)
    requires Fill(b, inc, p, isBid) == r && Opposite(b, isBid)[p][0].qty < inc.qty
    ensures Sweep(b, inc, isBid) == Sweep(r, inc.(qty := inc.qty - Opposite(b, isBid)[p][0].qty), isBid)
  {
    SweepStep(b, inc, isBid, p);
  }

  // ---- a crossing bid against one resting ask ----

  const Basic1: Book := Book(map[], map[100.5 := [Order(1, 100.5, 50)]], map[1 := (100.5, false)], [], 2)
  const Basic2: Book := Book(map[], map[100.5 := [Order(1, 100.5, 20)]], map[1 := (100.5, false)], [Trade(2, 1, 100.5, 30)], 3)

  /** An ask on an empty book rests under identity 1. */
  lemma BasicAskRests()
    ensures AddLimit(Fresh, 100.5, 50, false) == Placed(Basic1, 1)
  {
    Uncrossed(Fresh, 100.5, 50, false);
    assert [] + [Order(1, 100.5, 50)] == [Order(1, 100.5, 50)];
  }

  /** A bid for 30 at the ask's price trades 30 at 100.5 with it; the ask rests on with 20 and the bid does not rest. */
  lemma BasicBidFills()
    ensures AddLimit(Basic1, 100.5, 30, true) == Placed(Basic2, 2)
  {
    assert [Order(1, 100.5, 50)][0 := Order(1, 100.5, 20)] == [Order(1, 100.5, 20)];
    assert Fill(Basic1.(nextId := 3), Order(2, 100.5, 30), 100.5, true) == Basic2;
    LastFill(Basic1.(nextId := 3), Order(2, 100.5, 30), true, 100.5, Basic2);
    Filled(Basic1, 100.5, 30, true, Swept(Basic2, Order(2, 100.5, 0)));
  }

  /** What the test observes: one resting order before and after, one trade of 30 at 100.5. */
  lemma BasicObserved()
    ensures |Basic1.index| == 1 && |Basic2.index| == 1
    ensures Basic2.trades == [Trade(2, 1, 100.5, 30)]
  {
  }

  // ---- a bid below the ask ----

  const Spread1: Book := Book(map[100.0 := [Order(1, 100.0, 50)]], map[], map[1 := (100.0, true)], [], 2)
  const Spread2: Book := Book(map[100.0 := [Order(1, 100.0, 50)]], map[101.0 := [Order(2, 101.0, 50)]],
                              map[1 := (100.0, true), 2 := (101.0, false)], [], 3)

  /** A bid on an empty book rests under identity 1. */
  lemma SpreadBidRests()
    ensures AddLimit(Fresh, 100.0, 50, true) == Placed(Spread1, 1)
  {
    Uncrossed(Fresh, 100.0, 50, true);
    assert [] + [Order(1, 100.0, 50)] == [Order(1, 100.0, 50)];
  }

  /** An ask above the only bid does not trade: both orders rest and the trade log stays empty. */
  lemma SpreadAskRests()
    ensures AddLimit(Spread1, 101.0, 50, false) == Placed(Spread2, 2)
  {
    BestUnique({100.0}, 100.0, true);
    Uncrossed(Spread1, 101.0, 50, false);
    assert [] + [Order(2, 101.0, 50)] == [Order(2, 101.0, 50)];
  }

  /** What the test observes: two resting orders and no trade. */
  lemma SpreadObserved()
    ensures |Spread2.index| == 2 && Spread2.trades == []
  {
  }

  // ---- a bid sweeping two ask levels ----

  const Multi4: Book := Book(map[99.0 := [Order(1, 99.0, 100)], 99.5 := [Order(2, 99.5, 100)]],
                             map[100.5 := [Order(3, 100.5, 100)], 101.0 := [Order(4, 101.0, 100)]],
                             map[1 := (99.0, true), 2 := (99.5, true), 3 := (100.5, false), 4 := (101.0, false)], [], 5)
  /** The book after the sweeping bid has used up the ask at 100.5. */
  const MultiMid: Book := Book(Multi4.bids, map[101.0 := [Order(4, 101.0, 100)]],
                               map[1 := (99.0, true), 2 := (99.5, true), 4 := (101.0, false)],
                               [Trade(5, 3, 100.5, 100)], 6)
  const Multi5: Book := Book(Multi4.bids, map[101.0 := [Order(4, 101.0, 50)]],
                             map[1 := (99.0, true), 2 := (99.5, true), 4 := (101.0, false)],
                             [Trade(5, 3, 100.5, 100), Trade(5, 4, 101.0, 50)], 6)

  /** The test builds `Resting3` (two bids, one ask) and then adds an ask at 101 behind the best ask: four orders, two levels per side. */
  lemma MultiSecondAsk()
    ensures AddLimit(Resting3, 101.0, 100, false) == Placed(Multi4, 4)
  {
    BestUnique({99.0, 99.5}, 99.5, true);
    Uncrossed(Resting3, 101.0, 100, false);
    assert [] + [Order(4, 101.0, 100)] == [Order(4, 101.0, 100)];
  }

  /** The sweeping bid's first fill uses up the ask at 100.5 and erases its level. */
  lemma MultiFirstFill()
    ensures Fill(Multi4.(nextId := 6), Order(5, 101.0, 150), 100.5, true) == MultiMid
  {
    assert Multi4.asks - {100.5} == MultiMid.asks;
  }

  /** Its second fill takes 50 of the 100 at 101. */
  lemma MultiSecondFill()
    ensures Fill(MultiMid, Order(5, 101.0, 50), 101.0, true) == Multi5
  {
    assert [Order(4, 101.0, 100)][0 := Order(4, 101.0, 50)] == [Order(4, 101.0, 50)];
  }

  /** The sweep of the bid for 150 at 101 goes on past the ask at 100.5 with 50 left. */
  lemma MultiSweepHead()
    ensures Sweep(Multi4.(nextId := 6), Order(5, 101.0, 150), true) == Sweep(MultiMid, Order(5, 101.0, 50), true)
  {
    var b0 := Multi4.(nextId := 6);
    assert b0.asks[100.5][0].qty == 100;
    MultiFirstFill();
    NextFill(b0, Order(5, 101.0, 150), true, 100.5, MultiMid);
  }

  /** With 50 left, the sweep takes 50 of the 100 at 101 and ends there. */
  lemma MultiSweepTail()
    ensures Sweep(MultiMid, Order(5, 101.0, 50), true) == Swept(Multi5, Order(5, 101.0, 0))
  {
    assert NoneBefore(101.0, MultiMid.asks, false);
    MultiSecondFill();
    LastFill(MultiMid, Order(5, 101.0, 50), true, 101.0, Multi5);
  }

  /** The sweep of the bid for 150 at 101 uses up the ask at 100.5 and ends inside the level at 101. */
  lemma MultiSweep()
    ensures Sweep(Multi4.(nextId := 6), Order(5, 101.0, 150), true) == Swept(Multi5, Order(5, 101.0, 0))
  {
    MultiSweepHead();
    MultiSweepTail();
  }

  /** A bid for 150 at 101 takes all 100 at 100.5, erasing that level, then 50 of the 100 at 101, and does not rest. */
  lemma MultiBidSweeps()
    ensures AddLimit(Multi4, 101.0, 150, true) == Placed(Multi5, 5)
  {
    MultiSweep();
    Filled(Multi4, 101.0, 150, true, Swept(Multi5, Order(5, 101.0, 0)));
  }

  /** What the test observes: four resting orders, then two trades and three resting orders. */
  lemma MultiObserved()
    ensures |Multi4.index| == 4
    ensures |Multi5.trades| == 2 && |Multi5.index| == 3
  {
  }

  // ---- time priority within a level ----

  const Fifo1: Book := Book(map[], map[100.0 := [Order(1, 100.0, 50)]], map[1 := (100.0, false)], [], 2)
  const Fifo2: Book := Book(map[], map[100.0 := [Order(1, 100.0, 50), Order(2, 100.0, 50)]],
                            map[1 := (100.0, false), 2 := (100.0, false)], [], 3)
  const Fifo3: Book := Book(map[], map[100.0 := [Order(1, 100.0, 50), Order(2, 100.0, 50), Order(3, 100.0, 50)]],
                            map[1 := (100.0, false), 2 := (100.0, false), 3 := (100.0, false)], [], 4)
  const Fifo4: Book := Book(map[], map[100.0 := [Order(2, 100.0, 50), Order(3, 100.0, 50)]],
                            map[2 := (100.0, false), 3 := (100.0, false)], [Trade(4, 1, 100.0, 50)], 5)

  /** The first ask at 100 rests under identity 1. */
  lemma FifoFirstAsk()
    ensures AddLimit(Fresh, 100.0, 50, false) == Placed(Fifo1, 1)
  {
    Uncrossed(Fresh, 100.0, 50, false);
    assert [] + [Order(1, 100.0, 50)] == [Order(1, 100.0, 50)];
  }

  /** The second ask at the same price queues behind the first. */
  lemma FifoSecondAsk()
    ensures AddLimit(Fifo1, 100.0, 50, false) == Placed(Fifo2, 2)
  {
    assert [Order(1, 100.0, 50)] + [Order(2, 100.0, 50)] == Fifo2.asks[100.0];
    Uncrossed(Fifo1, 100.0, 50, false);
  }

  /** The third ask queues behind both: three orders rest. */
  lemma FifoThirdAsk()
    ensures AddLimit(Fifo2, 100.0, 50, false) == Placed(Fifo3, 3)
  {
    assert Fifo2.asks[100.0] + [Order(3, 100.0, 50)] == Fifo3.asks[100.0];
    Uncrossed(Fifo2, 100.0, 50, false);
  }

  /** The bid's one fill uses up the front ask, identity 1, and leaves the two behind it. */
  lemma FifoFill()
    ensures Fill(Fifo3.(nextId := 5), Order(4, 100.0, 50), 100.0, true) == Fifo4
  {
    assert Fifo3.asks[100.0][1..] == Fifo4.asks[100.0];
  }

  /** A bid for 50 trades with the earliest ask only, whose identity is 1; two asks rest on. */
  lemma FifoBidTakesFirst()
    ensures AddLimit(Fifo3, 100.0, 50, true) == Placed(Fifo4, 4)
  {
    FifoFill();
    LastFill(Fifo3.(nextId := 5), Order(4, 100.0, 50), true, 100.0, Fifo4);
    Filled(Fifo3, 100.0, 50, true, Swept(Fifo4, Order(4, 100.0, 0)));
  }

  /** What the test observes: three resting asks, then two, and one trade whose seller is the first ask. */
  lemma FifoObserved()
    ensures |Fifo3.index| == 3 && |Fifo4.index| == 2
    ensures |Fifo4.trades| == 1 && Fifo4.trades[0].sellerId == 1
  {
  }

  // ---- one large ask filled by small bids ----

  const Partial1: Book := Book(map[], map[100.0 := [Order(1, 100.0, 1000)]], map[1 := (100.0, false)], [], 2)
  const Partial2: Book := Book(map[], map[100.0 := [Order(1, 100.0, 900)]], map[1 := (100.0, false)],
                               [Trade(2, 1, 100.0, 100)], 3)
  const Partial3: Book := Book(map[], map[100.0 := [Order(1, 100.0, 700)]], map[1 := (100.0, false)],
                               [Trade(2, 1, 100.0, 100), Trade(3, 1, 100.0, 200)], 4)
  const Partial4: Book := Book(map[], map[100.0 := [Order(1, 100.0, 400)]], map[1 := (100.0, false)],
                               [Trade(2, 1, 100.0, 100), Trade(3, 1, 100.0, 200), Trade(4, 1, 100.0, 300)], 5)

  /** A large ask for 1000 rests. */
  lemma PartialAskRests()
    ensures AddLimit(Fresh, 100.0, 1000, false) == Placed(Partial1, 1)
  {
    Uncrossed(Fresh, 100.0, 1000, false);
    assert [] + [Order(1, 100.0, 1000)] == [Order(1, 100.0, 1000)];
  }

  /** A bid for 100 takes 100 off the ask, which keeps its place with 900. */
  lemma PartialFirstBid()
    ensures AddLimit(Partial1, 100.0, 100, true) == Placed(Partial2, 2)
  {
    assert [Order(1, 100.0, 1000)][0 := Order(1, 100.0, 900)] == [Order(1, 100.0, 900)];
    assert Fill(Partial1.(nextId := 3), Order(2, 100.0, 100), 100.0, true) == Partial2;
    LastFill(Partial1.(nextId := 3), Order(2, 100.0, 100), true, 100.0, Partial2);
    Filled(Partial1, 100.0, 100, true, Swept(Partial2, Order(2, 100.0, 0)));
  }

  /** A bid for 200 leaves the ask with 700. */
  lemma PartialSecondBid()
    ensures AddLimit(Partial2, 100.0, 200, true) == Placed(Partial3, 3)
  {
    assert [Order(1, 100.0, 900)][0 := Order(1, 100.0, 700)] == [Order(1, 100.0, 700)];
    assert Fill(Partial2.(nextId := 4), Order(3, 100.0, 200), 100.0, true) == Partial3;
    LastFill(Partial2.(nextId := 4), Order(3, 100.0, 200), true, 100.0, Partial3);
    Filled(Partial2, 100.0, 200, true, Swept(Partial3, Order(3, 100.0, 0)));
  }

  /** A bid for 300 leaves the ask with 400: three trades, one resting order. */
  lemma PartialThirdBid()
    ensures AddLimit(Partial3, 100.0, 300, true) == Placed(Partial4, 4)
  {
    assert [Order(1, 100.0, 700)][0 := Order(1, 100.0, 400)] == [Order(1, 100.0, 400)];
    assert Fill(Partial3.(nextId := 5), Order(4, 100.0, 300), 100.0, true) == Partial4;
    LastFill(Partial3.(nextId := 5), Order(4, 100.0, 300), true, 100.0, Partial4);
    Filled(Partial3, 100.0, 300, true, Swept(Partial4, Order(4, 100.0, 0)));
  }

  /** What the test observes: three trades and the one resting ask, left with 400. */
  lemma PartialObserved()
    ensures |Partial4.trades| == 3 && |Partial4.index| == 1
    ensures Partial4.asks[100.0] == [Order(1, 100.0, 400)]
  {
  }

  // ---- a market buy sweeping three ask levels ----

  const Market1: Book := Book(map[], map[100.0 := [Order(1, 100.0, 100)]], map[1 := (100.0, false)], [], 2)
  const Market2: Book := Book(map[], map[100.0 := [Order(1, 100.0, 100)], 100.5 := [Order(2, 100.5, 100)]],
                              map[1 := (100.0, false), 2 := (100.5, false)], [], 3)
  const Market3: Book := Book(map[], map[100.0 := [Order(1, 100.0, 100)], 100.5 := [Order(2, 100.5, 100)], 101.0 := [Order(3, 101.0, 100)]],
                              map[1 := (100.0, false), 2 := (100.5, false), 3 := (101.0, false)], [], 4)
  /** After the market buy has used up the ask at 100. */
  const MarketMid1: Book := Book(map[], map[100.5 := [Order(2, 100.5, 100)], 101.0 := [Order(3, 101.0, 100)]],
                                 map[2 := (100.5, false), 3 := (101.0, false)], [Trade(4, 1, 100.0, 100)], 5)
  /** After the market buy has used up the ask at 100.5 as well. */
  const MarketMid2: Book := Book(map[], map[101.0 := [Order(3, 101.0, 100)]],
                                 map[3 := (101.0, false)], [Trade(4, 1, 100.0, 100), Trade(4, 2, 100.5, 100)], 5)
  const Market4: Book := Book(map[], map[101.0 := [Order(3, 101.0, 50)]], map[3 := (101.0, false)],
                              [Trade(4, 1, 100.0, 100), Trade(4, 2, 100.5, 100), Trade(4, 3, 101.0, 50)], 5)

  /** An ask at 100 rests on an empty book. */
  lemma MarketFirstAsk()
    ensures AddLimit(Fresh, 100.0, 100, false) == Placed(Market1, 1)
  {
    Uncrossed(Fresh, 100.0, 100, false);
    assert [] + [Order(1, 100.0, 100)] == [Order(1, 100.0, 100)];
  }

  /** An ask at 100.5 rests at a level of its own behind it. */
  lemma MarketSecondAsk()
    ensures AddLimit(Market1, 100.5, 100, false) == Placed(Market2, 2)
  {
    Uncrossed(Market1, 100.5, 100, false);
    assert [] + [Order(2, 100.5, 100)] == [Order(2, 100.5, 100)];
  }

  /** An ask at 101 rests at a third level. */
  lemma MarketThirdAsk()
    ensures AddLimit(Market2, 101.0, 100, false) == Placed(Market3, 3)
  {
    Uncrossed(Market2, 101.0, 100, false);
    assert [] + [Order(3, 101.0, 100)] == [Order(3, 101.0, 100)];
  }

  /** The market buy's first fill uses up the ask at 100 and erases its level. */
  lemma MarketFirstFill()
    ensures Fill(Market3.(nextId := 5), Order(4, MarketBuyPrice, 250), 100.0, true) == MarketMid1
  {
    assert Market3.asks - {100.0} == MarketMid1.asks;
  }

  /** Its second fill uses up the ask at 100.5. */
  lemma MarketSecondFill()
    ensures Fill(MarketMid1, Order(4, MarketBuyPrice, 150), 100.5, true) == MarketMid2
  {
    assert MarketMid1.asks - {100.5} == MarketMid2.asks;
  }

  /** Its third fill takes 50 of the 100 at 101. */
  lemma MarketThirdFill()
    ensures Fill(MarketMid2, Order(4, MarketBuyPrice, 50), 101.0, true) == Market4
  {
    assert [Order(3, 101.0, 100)][0 := Order(3, 101.0, 50)] == [Order(3, 101.0, 50)];
  }

  /** The market buy's sweep goes on past the ask at 100 with 150 left. */
  lemma MarketSweepFirst()
    ensures Sweep(Market3.(nextId := 5), Order(4, MarketBuyPrice, 250), true) == Sweep(MarketMid1, Order(4, MarketBuyPrice, 150), true)
  {
    var b0 := Market3.(nextId := 5);
    assert b0.asks[100.0][0].qty == 100;
    MarketFirstFill();
    NextFill(b0, Order(4, MarketBuyPrice, 250), true, 100.0, MarketMid1);
  }

  /** It goes on past the ask at 100.5 with 50 left. */
  lemma MarketSweepSecond()
    ensures Sweep(MarketMid1, Order(4, MarketBuyPrice, 150), true) == Sweep(MarketMid2, Order(4, MarketBuyPrice, 50), true)
  {
    assert NoneBefore(100.5, MarketMid1.asks, false);
    MarketSecondFill();
    NextFill(MarketMid1, Order(4, MarketBuyPrice, 150), true, 100.5, MarketMid2);
  }

  /** With 50 left, it takes 50 of the 100 at 101 and ends there. */
  lemma MarketSweepLast()
    ensures Sweep(MarketMid2, Order(4, MarketBuyPrice, 50), true) == Swept(Market4, Order(4, MarketBuyPrice, 0))
  {
    MarketThirdFill();
    LastFill(MarketMid2, Order(4, MarketBuyPrice, 50), true, 101.0, Market4);
  }

  /** A market buy for 250 takes 100 at 100, 100 at 100.5 and 50 at 101; 50 rest on at 101 and the buy itself never rests. */
  lemma MarketBuySweeps()
    ensures AddMarket(Market3, 250, true) == Placed(Market4, 4)
  {
    MarketSweepFirst();
    MarketSweepSecond();
    MarketSweepLast();
  }

  /** What the test observes: three trades and one resting order, the ask left with 50 at 101. */
  lemma MarketObserved()
    ensures |Market4.trades| == 3 && |Market4.index| == 1
    ensures Market4.asks[101.0] == [Order(3, 101.0, 50)]
  {
  }

  // ---- rejected input ----

  /** A limit order for 0 or -10 returns identity 0 and leaves the book as it was; cancelling 999 on an empty book fails. */
  lemma EdgeCases()
    ensures AddLimit(Fresh, 100.0, 0, true) == Placed(Fresh, 0)
    ensures AddLimit(Fresh, 100.0, -10, true) == Placed(Fresh, 0)
    ensures Cancel(Fresh, 999) == Cancelled(Fresh, false)
    ensures TotalOrders(Fresh) == 0
  {
  }

  // ---- cancelling by identity ----

  const Resting1: Book := Book(map[99.0 := [Order(1, 99.0, 100)]], map[], map[1 := (99.0, true)], [], 2)
  const Resting2: Book := Book(map[99.0 := [Order(1, 99.0, 100)], 99.5 := [Order(2, 99.5, 100)]], map[],
                               map[1 := (99.0, true), 2 := (99.5, true)], [], 3)
  const Resting3: Book := Book(map[99.0 := [Order(1, 99.0, 100)], 99.5 := [Order(2, 99.5, 100)]], map[100.5 := [Order(3, 100.5, 100)]],
                               map[1 := (99.0, true), 2 := (99.5, true), 3 := (100.5, false)], [], 4)
  const Cancelled2: Book := Book(map[99.0 := [Order(1, 99.0, 100)]], map[100.5 := [Order(3, 100.5, 100)]],
                                 map[1 := (99.0, true), 3 := (100.5, false)], [], 4)

  /** A bid at 99 rests. */
  lemma RestingFirstBid()
    ensures AddLimit(Fresh, 99.0, 100, true) == Placed(Resting1, 1)
  {
    Uncrossed(Fresh, 99.0, 100, true);
    assert [] + [Order(1, 99.0, 100)] == [Order(1, 99.0, 100)];
  }

  /** A bid at 99.5 rests at a level of its own. */
  lemma RestingSecondBid()
    ensures AddLimit(Resting1, 99.5, 100, true) == Placed(Resting2, 2)
  {
    Uncrossed(Resting1, 99.5, 100, true);
    assert [] + [Order(2, 99.5, 100)] == [Order(2, 99.5, 100)];
  }

  /** An ask at 100.5 does not reach the best bid, 99.5, and rests. */
  lemma RestingAsk()
    ensures AddLimit(Resting2, 100.5, 100, false) == Placed(Resting3, 3)
  {
    BestUnique({99.0, 99.5}, 99.5, true);
    Uncrossed(Resting2, 100.5, 100, false);
    assert [] + [Order(3, 100.5, 100)] == [Order(3, 100.5, 100)];
  }

  /** Cancelling the middle one of three resting orders succeeds, erases its level and leaves two. */
  lemma CancelMiddle()
    ensures Cancel(Resting3, 2) == Cancelled(Cancelled2, true)
  {
    assert Find([Order(2, 99.5, 100)], 2) == Some(0);
    assert RemoveAt([Order(2, 99.5, 100)], 0) == [];
  }

  /** Cancelling the same identity again, or one never handed out, fails and changes nothing; the test observes three resting orders, then two. */
  lemma CancelAgain()
    ensures |Resting3.index| == 3 && |Cancelled2.index| == 2
    ensures Cancel(Cancelled2, 2) == Cancelled(Cancelled2, false)
    ensures Cancel(Cancelled2, 999) == Cancelled(Cancelled2, false)
  {
  }

  // ---- clearing ----

  const Clear1: Book := Book(map[100.0 := [Order(1, 100.0, 100)]], map[], map[1 := (100.0, true)], [], 2)
  const Clear2: Book := Book(map[100.0 := [Order(1, 100.0, 100)]], map[101.0 := [Order(2, 101.0, 100)]],
                             map[1 := (100.0, true), 2 := (101.0, false)], [], 3)
  const Clear3: Book := Book(map[100.0 := [Order(1, 100.0, 100)], 100.5 := [Order(3, 100.5, 50)]], map[101.0 := [Order(2, 101.0, 100)]],
                             map[1 := (100.0, true), 2 := (101.0, false), 3 := (100.5, true)], [], 4)
  const Clear4: Book := Book(map[100.0 := [Order(4, 100.0, 50)]], map[], map[4 := (100.0, true)], [], 5)

  /** A bid rests. */
  lemma ClearFirstBid()
    ensures AddLimit(Fresh, 100.0, 100, true) == Placed(Clear1, 1)
  {
    Uncrossed(Fresh, 100.0, 100, true);
    assert [] + [Order(1, 100.0, 100)] == [Order(1, 100.0, 100)];
  }

  /** An ask above it rests. */
  lemma ClearAsk()
    ensures AddLimit(Clear1, 101.0, 100, false) == Placed(Clear2, 2)
  {
    BestUnique({100.0}, 100.0, true);
    Uncrossed(Clear1, 101.0, 100, false);
    assert [] + [Order(2, 101.0, 100)] == [Order(2, 101.0, 100)];
  }

  /** A bid at 100.5 does not reach the ask at 101: three orders rest, nothing has traded. */
  lemma ClearSecondBid()
    ensures AddLimit(Clear2, 100.5, 50, true) == Placed(Clear3, 3)
  {
    BestUnique({101.0}, 101.0, false);
    Uncrossed(Clear2, 100.5, 50, true);
    assert [] + [Order(3, 100.5, 50)] == [Order(3, 100.5, 50)];
  }

  /** Clearing empties the book and the trade log; the next order rests alone, under identity 4. */
  lemma ClearThenBid()
    ensures AddLimit(Operations.Clear(Clear3), 100.0, 50, true) == Placed(Clear4, 4)
  {
    Uncrossed(Operations.Clear(Clear3), 100.0, 50, true);
    assert [] + [Order(4, 100.0, 50)] == [Order(4, 100.0, 50)];
  }

  /** What the test observes: three resting orders and no trade before the clear, none of either after it, one order after the last bid. */
  lemma ClearObserved()
    ensures |Clear3.index| == 3 && Clear3.trades == []
    ensures var c := Operations.Clear(Clear3); |c.index| == 0 && c.trades == [] && c.nextId == 4
    ensures |Clear4.index| == 1
  {
  }
}
