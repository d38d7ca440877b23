/**
 The public operations of the order book as functions from the old book to the
 new one: submitting a limit or a market order, cancelling, clearing and
 counting. These are the reference definitions the class in module Engine is
 proved to implement; the lemmas state what each operation promises.
 */
module Operations {
  import opened Records
  import opened Ledgers
  import opened BookState
  import opened Matching

  /** The price a market buy is matched at: it crosses every ask up to this price. */
  const MarketBuyPrice: real := 1000000000.0
  /** The price a market sell is matched at: it crosses every bid at or above this price. */
  const MarketSellPrice: real := 0.0

  /** The book after a submission and the identity the submission returned. */
  datatype Placed = Placed(book: Book, id: nat)

  /** The book after a cancel and whether the cancel removed an order. */
  datatype Cancelled = Cancelled(book: Book, ok: bool)

  /** Queue the remainder of a limit order on its own side and record it in the index. */
  function Rest(b: Book, o: Order, isBid: bool): (r: Book)
    ensures Rests(Side(r, isBid), o.price, o.id) && o.id in r.index && r.index[o.id] == (o.price, isBid)
    ensures var level := Side(r, isBid)[o.price]; level[|level| - 1] == o
    ensures r.index.Keys == b.index.Keys + {o.id}
    ensures Side(r, isBid) == Append(Side(b, isBid), o) && r.index == b.index[o.id := (o.price, isBid)]
    ensures Side(r, !isBid) == Side(b, !isBid) && r.trades == b.trades && r.nextId == b.nextId
  {
    var l := Append(Side(b, isBid), o);
    assert l[o.price][|l[o.price]| - 1] == o;
    WithSide(b, isBid, l).(index := b.index[o.id := (o.price, isBid)])
  }

  /** A limit order: rejected unless its quantity is positive; otherwise it takes the next identity, matches, and rests what is left. */
  function AddLimit(b: Book, price: real, qty: int, isBid: bool): (r: Placed)
    requires LedgerOk(Opposite(b, isBid))
    ensures qty <= 0 ==> r == Placed(b, RejectedId)
    ensures qty > 0 ==> r.id == b.nextId && r.book.nextId == b.nextId + 1
    ensures |b.trades| <= |r.book.trades| && r.book.trades[..|b.trades|] == b.trades
  {
    if qty <= 0 then Placed(b, RejectedId)
    else
      var inc := Order(b.nextId, price, qty);
      var s := Sweep(b.(nextId := b.nextId + 1), inc, isBid);
      if s.incoming.qty > 0 then Placed(Rest(s.book, s.incoming, isBid), inc.id)
      else Placed(s.book, inc.id)
  }

  /** A market order: a limit order at a sentinel price that never rests. */
  function AddMarket(b: Book, qty: int, isBid: bool): (r: Placed)
    requires LedgerOk(Opposite(b, isBid))
    ensures qty <= 0 ==> r == Placed(b, RejectedId)
    ensures qty > 0 ==> r.id == b.nextId && r.book.nextId == b.nextId + 1
    ensures |b.trades| <= |r.book.trades| && r.book.trades[..|b.trades|] == b.trades
    ensures Side(r.book, isBid) == Side(b, isBid)
    ensures r.book.index.Keys <= b.index.Keys
  {
    if qty <= 0 then Placed(b, RejectedId)
    else
      var inc := Order(b.nextId, if isBid then MarketBuyPrice else MarketSellPrice, qty);
      Placed(Sweep(b.(nextId := b.nextId + 1), inc, isBid).book, inc.id)
  }

  /** Cancel by identity: locate the order through the index, scan its level, remove it; the index entry goes in every case. */
  function Cancel(b: Book, id: nat): (r: Cancelled)
    ensures id !in b.index ==> r == Cancelled(b, false)
    ensures r.book.index == b.index - {id}
    ensures r.book.trades == b.trades && r.book.nextId == b.nextId
  {
    if id !in b.index then
      assert b.index - {id} == b.index;
      Cancelled(b, false)
    else
      var (price, isBid) := b.index[id];
      var l := Side(b, isBid);
      if price in l then
        match Find(l[price], id)
        case Some(i) => Cancelled(WithSide(b, isBid, Withdraw(l, price, i)).(index := b.index - {id}), true)
        case None => Cancelled(b.(index := b.index - {id}), false)
      else
        Cancelled(b.(index := b.index - {id}), false)
  }

  /** Empty both sides, the index and the trade log; the identity counter is kept. */
  function Clear(b: Book): (r: Book)
    ensures r.nextId == b.nextId && r.trades == [] && TotalOrders(r) == 0
    ensures forall s: bool, p: real, id: nat :: !Rests(Side(r, s), p, id)
  {
    Book(map[], map[], map[], [], b.nextId)
  }

  /** The number of resting orders, read off the index. */
  function TotalOrders(b: Book): (n: nat)
    ensures Inv(b) ==> n == Count(b.bids) + Count(b.asks)
  {
    |b.index|
  }

  // ---- submitting orders ----

  /** A submission keeps the invariant; raising the counter alone already does. */
  lemma NextIdInv(b: Book)
    requires Inv(b)
    ensures Inv(b.(nextId := b.nextId + 1))
  {
  }

  /** An accepted limit order as its two steps: the sweep with the next identity, then resting what is left. */
  lemma AddLimitSteps(b: Book, price: real, qty: int, isBid: bool)
    requires LedgerOk(Opposite(b, isBid)) && qty > 0
    ensures var s := Sweep(b.(nextId := b.nextId + 1), Order(b.nextId, price, qty), isBid);
            AddLimit(b, price, qty, isBid) ==
              if s.incoming.qty > 0 then Placed(Rest(s.book, s.incoming, isBid), b.nextId)
              else Placed(s.book, b.nextId)
  {
  }

  lemma AddLimitInv(b: Book, price: real, qty: int, isBid: bool)
    requires Inv(b)
    ensures Inv(AddLimit(b, price, qty, isBid).book)
  {
    if qty > 0 {
      var b1 := b.(nextId := b.nextId + 1);
      var inc := Order(b.nextId, price, qty);
      NextIdInv(b);
      SweepInv(b1, inc, isBid);
      AddLimitSteps(b, price, qty, isBid);
      var s := Sweep(b1, inc, isBid);
      if s.incoming.qty > 0 {
        assert s.incoming.id !in s.book.index;
        RestInv(s.book, isBid, s.incoming);
      }
    }
  }

  /** The outcome of an accepted limit order in terms of its sweep: the remainder rests, appended to its level, exactly when it is positive. */
  lemma LimitOutcome(b: Book, price: real, qty: int, isBid: bool)
    requires LedgerOk(Opposite(b, isBid)) && qty > 0 && b.nextId !in b.index
    ensures var r := AddLimit(b, price, qty, isBid);
            var s := Sweep(b.(nextId := b.nextId + 1), Order(b.nextId, price, qty), isBid);
            && r.book.trades == s.book.trades
            && s.incoming == Order(b.nextId, price, s.incoming.qty)
            && (r.id in r.book.index <==> s.incoming.qty > 0)
            && (s.incoming.qty > 0 ==>
                  && r.book.index[r.id] == (price, isBid)
                  && Side(r.book, isBid) == Append(Side(b, isBid), s.incoming))
  {
    var b1 := b.(nextId := b.nextId + 1);
    AddLimitSteps(b, price, qty, isBid);
    var s := Sweep(b1, Order(b.nextId, price, qty), isBid);
    if s.incoming.qty <= 0 {
      assert b.nextId !in s.book.index;
    }
  }

  /** A limit order first trades, then rests exactly its unfilled remainder at the back of its level under its own identity. */
  lemma AddLimitRests(b: Book, price: real, qty: int, isBid: bool)
    requires Inv(b) && qty > 0
    ensures var r := AddLimit(b, price, qty, isBid);
            var traded := Traded(r.book.trades[|b.trades|..]);
            && 0 <= traded <= qty
            && 0 < r.id && r.id !in b.index
            && (r.id in r.book.index <==> traded < qty)
            && (traded < qty ==>
                  && r.book.index[r.id] == (price, isBid)
                  && price in Side(r.book, isBid)
                  && Side(r.book, isBid)[price] ==
                       (if price in Side(b, isBid) then Side(b, isBid)[price] else []) + [Order(r.id, price, qty - traded)])
  {
    var r := AddLimit(b, price, qty, isBid);
    var b1 := b.(nextId := b.nextId + 1);
    var inc := Order(b.nextId, price, qty);
    assert b.nextId !in b.index;
    LimitOutcome(b, price, qty, isBid);
    SweepConserves(b1, inc, isBid);
    var s := Sweep(b1, inc, isBid);
    var traded := Traded(r.book.trades[|b.trades|..]);
    assert traded == qty - s.incoming.qty;
    if traded < qty {
      assert s.incoming == Order(r.id, price, qty - traded);
      assert Side(r.book, isBid) == Append(Side(b, isBid), s.incoming);
    }
  }

  /** Every trade of a limit order respects its limit price, is priced at a level that was resting, and has the new order as the aggressor. */
  lemma AddLimitTrades(b: Book, price: real, qty: int, isBid: bool, j: nat)
    requires LedgerOk(Opposite(b, isBid))
    requires |b.trades| <= j < |AddLimit(b, price, qty, isBid).book.trades|
    ensures var r := AddLimit(b, price, qty, isBid);
            && Crosses(r.book.trades[j].price, price, isBid)
            && r.book.trades[j].price in Opposite(b, isBid)
            && (if isBid then r.book.trades[j].buyerId == r.id else r.book.trades[j].sellerId == r.id)
  {
    var b1 := b.(nextId := b.nextId + 1);
    var inc := Order(b.nextId, price, qty);
    AddLimitSteps(b, price, qty, isBid);
    var s := Sweep(b1, inc, isBid);
    assert AddLimit(b, price, qty, isBid).book.trades == s.book.trades;
    SweepTradesCross(b1, inc, isBid, j);
  }

  /** A limit order that rests leaves no crossing level on the other side: a resting bid is below every ask, a resting ask above every bid. */
  lemma AddLimitLeavesNoCross(b: Book, price: real, qty: int, isBid: bool)
    requires Inv(b) && qty > 0
    ensures var r := AddLimit(b, price, qty, isBid);
            r.id in r.book.index ==> forall k :: k in Opposite(r.book, isBid) ==> !Crosses(k, price, isBid)
  {
    var b1 := b.(nextId := b.nextId + 1);
    var inc := Order(b.nextId, price, qty);
    SweepStops(b1, inc, isBid);
    AddLimitSteps(b, price, qty, isBid);
    var s := Sweep(b1, inc, isBid);
    if s.incoming.qty > 0 {
      assert Opposite(AddLimit(b, price, qty, isBid).book, isBid) == Opposite(s.book, isBid);
    }
  }

  lemma AddMarketInv(b: Book, qty: int, isBid: bool)
    requires Inv(b)
    ensures Inv(AddMarket(b, qty, isBid).book)
  {
    if qty > 0 {
      var b1 := b.(nextId := b.nextId + 1);
      var inc := Order(b.nextId, if isBid then MarketBuyPrice else MarketSellPrice, qty);
      NextIdInv(b);
      SweepInv(b1, inc, isBid);
      assert AddMarket(b, qty, isBid).book == Sweep(b1, inc, isBid).book;
    }
  }

  /** A market order trades what the opposite side offers up to the sentinel and never rests; when quantity is left over, nothing that crosses the sentinel is left behind. */
  lemma AddMarketSweeps(b: Book, qty: int, isBid: bool)
    requires LedgerOk(Opposite(b, isBid)) && b.nextId !in b.index && qty > 0
    ensures var r := AddMarket(b, qty, isBid);
            var traded := Traded(r.book.trades[|b.trades|..]);
            && 0 <= traded <= qty
            && r.id !in r.book.index
            && (traded < qty && isBid ==> forall k :: k in r.book.asks ==> k > MarketBuyPrice)
            && (traded < qty && !isBid ==> forall k :: k in r.book.bids ==> k < MarketSellPrice)
  {
    var b1 := b.(nextId := b.nextId + 1);
    var inc := Order(b.nextId, if isBid then MarketBuyPrice else MarketSellPrice, qty);
    SweepConserves(b1, inc, isBid);
    SweepStops(b1, inc, isBid);
    var s := Sweep(b1, inc, isBid);
    assert AddMarket(b, qty, isBid) == Placed(s.book, b.nextId);
  }

  /** Every trade of a market order has the market order as the aggressor and is priced at a level that was resting. */
  lemma AddMarketTrades(b: Book, qty: int, isBid: bool, j: nat)
    requires LedgerOk(Opposite(b, isBid))
    requires |b.trades| <= j < |AddMarket(b, qty, isBid).book.trades|
    ensures var r := AddMarket(b, qty, isBid);
            && r.book.trades[j].price in Opposite(b, isBid)
            && (if isBid then r.book.trades[j].buyerId == r.id else r.book.trades[j].sellerId == r.id)
  {
    var b1 := b.(nextId := b.nextId + 1);
    var inc := Order(b.nextId, if isBid then MarketBuyPrice else MarketSellPrice, qty);
    var s := Sweep(b1, inc, isBid);
    assert AddMarket(b, qty, isBid) == Placed(s.book, b.nextId);
    SweepTradesCross(b1, inc, isBid, j);
  }

  // ---- cancelling ----

  /** An order that is not in the index rests nowhere in a consistent book. */
  lemma UnindexedIsGone(b: Book, id: nat, s: bool, p: real)
    requires Inv(b) && id !in b.index
    ensures !Rests(Side(b, s), p, id)
  {
  }

  lemma CancelInv(b: Book, id: nat)
    requires Inv(b)
    ensures Inv(Cancel(b, id).book)
  {
    if id in b.index {
      var price: real, isBid: bool := b.index[id].0, b.index[id].1;
      assert Rests(Side(b, isBid), price, id);
      var l: Ledger := Side(b, isBid);
      var k :| 0 <= k < |l[price]| && l[price][k].id == id;
      var i := Find(l[price], id).value;
      WithdrawInv(b, isBid, price, i);
    }
  }

  /** Cancelling a resting order succeeds: it is found in the level its index entry names and withdrawn from it (the level goes when it empties), and its index entry goes. */
  lemma CancelResting(b: Book, id: nat)
    requires Located(b) && id in b.index
    ensures var r := Cancel(b, id);
            var price, isBid := b.index[id].0, b.index[id].1;
            && r.ok
            && price in Side(b, isBid)
            && Find(Side(b, isBid)[price], id).Some?
            && r.book == WithSide(b, isBid, Withdraw(Side(b, isBid), price, Find(Side(b, isBid)[price], id).value)).(index := b.index - {id})
            && |r.book.index| == |b.index| - 1
  {
    var price: real, isBid: bool := b.index[id].0, b.index[id].1;
    var l: Ledger := Side(b, isBid);
    assert Rests(l, price, id);
    var k :| 0 <= k < |l[price]| && l[price][k].id == id;
    var f := Find(l[price], id);
    assert f.Some?;
    assert Cancel(b, id) == Cancelled(WithSide(b, isBid, Withdraw(l, price, f.value)).(index := b.index - {id}), true);
    assert (b.index - {id}).Keys == b.index.Keys - {id};
  }

  /** After a cancel the identity rests nowhere in the book. */
  lemma CancelRemoves(b: Book, id: nat, s: bool, p: real)
    requires Inv(b)
    ensures !Rests(Side(Cancel(b, id).book, s), p, id)
  {
    CancelInv(b, id);
    UnindexedIsGone(Cancel(b, id).book, id, s, p);
  }

  /** Cancelling twice: the second cancel of the same identity fails and changes nothing. */
  lemma CancelTwice(b: Book, id: nat)
    ensures var once := Cancel(b, id).book;
            Cancel(once, id) == Cancelled(once, false)
  {
  }

  // ---- clearing and counting ----

  /** After a clear the book is empty and consistent, and identities continue where they were. */
  lemma ClearInv(b: Book)
    requires b.nextId >= 1
    ensures Inv(Clear(b))
    ensures TotalOrders(Clear(b)) == 0 && Clear(b).trades == [] && Clear(b).nextId == b.nextId
  {
    assert Count(map[]) == 0;
  }
}
