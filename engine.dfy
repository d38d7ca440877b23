/**
 The order book as the mutable object it is: both ledgers, the order index,
 the trade log and the identity counter are fields, the operations update them
 in place, and each operation is proved to leave the object in the state the
 matching reference function in module Operations computes. `Valid` is the
 invariant of the book read off the fields.
 */
module Engine {
  import opened Records
  import opened Ledgers
  import opened BookState
  import opened Matching
  import Operations

  class OrderBook {
    /** Bid levels; the best bid is the highest price. */
    var bids: Ledger
    /** Ask levels; the best ask is the lowest price. */
    var asks: Ledger
    /** Identity of every resting order to its (price, is-bid) location. */
    var orderIndex: Index
    /** Every execution since the last clear, oldest first. */
    var trades: seq<Trade>
    /** The identity the next accepted order receives. */
    var nextId: nat

    function Model(): Book
      reads this
    {
      Book(bids, asks, orderIndex, trades, nextId)
    }

    ghost predicate Valid()
      reads this
    {
      Inv(Model())
    }

    /** An empty book whose first order will receive identity 1. */
    constructor ()
      ensures Model() == Fresh && Valid()
    {
      bids := map[];
      asks := map[];
      orderIndex := map[];
      trades := [];
      nextId := 1;
      FreshInv();
    }

    /**
     One pass of the matcher's inner loop: the incoming order trades with the
     front order of the opposite level at `p`; a resting order that is used up
     leaves the level and the index, and a level that empties leaves its side.
     Returns the incoming order with the quantity it has left.
     */
    method TradeFront(inc: Order, p: real, isBid: bool) returns (rest: Order)
      requires inc.qty > 0 && LedgerOk(Opposite(Model(), isBid)) && p in Opposite(Model(), isBid)
      modifies this
      ensures Model() == Fill(old(Model()), inc, p, isBid)
      ensures rest == FillIncoming(old(Model()), inc, p, isBid)
      ensures old(Valid()) ==> Valid()
    {
      if Valid() {
        FillInv(Model(), inc, p, isBid);
      }
      var level := if isBid then asks[p] else bids[p];
      assert LevelOk(p, level);
      var resting := level[0];
      var q := Min(inc.qty, resting.qty);
      trades := trades + [TradeWith(inc, resting, p, q, isBid)];
      rest := inc.(qty := inc.qty - q);
      if resting.qty - q == 0 {
        orderIndex := orderIndex - {resting.id};
        level := level[1..];
      } else {
        level := ReduceFront(level, q);
      }
      bids, asks := if isBid then bids else Put(bids, p, level), if isBid then Put(asks, p, level) else asks;
    }

    /**
     Match an incoming order against the opposite side: take the best level while
     it crosses, fill against its front order until the level or the incoming
     order runs out, and go on with the next level. Returns the incoming order
     with the quantity it has left.
     */
    method Match(inc: Order, isBid: bool) returns (rest: Order)
      requires LedgerOk(Opposite(Model(), isBid))
      modifies this
      ensures Swept(Model(), rest) == Sweep(old(Model()), inc, isBid)
      ensures old(Valid()) ==> Valid()
    {
      if Valid() {
        SweepInv(Model(), inc, isBid);
      }
      ghost var target := Sweep(Model(), inc, isBid);
      rest := inc;
      while rest.qty > 0 && (if isBid then asks else bids) != map[]
            && Crosses(BestPrice((if isBid then asks else bids).Keys, !isBid), rest.price, isBid)
        invariant LedgerOk(Opposite(Model(), isBid))
        invariant rest.price == inc.price
        invariant Sweep(Model(), rest, isBid) == target
        decreases if rest.qty > 0 then rest.qty else 0
      {
        var p := BestPrice((if isBid then asks else bids).Keys, !isBid);
        ghost var q0 := rest.qty;
        while rest.qty > 0 && p in (if isBid then asks else bids)
          invariant LedgerOk(Opposite(Model(), isBid))
          invariant rest.price == inc.price && Crosses(p, rest.price, isBid)
          invariant NoneBefore(p, Opposite(Model(), isBid), !isBid)
          invariant rest.qty < q0 || (rest.qty == q0 && p in Opposite(Model(), isBid))
          invariant Sweep(Model(), rest, isBid) == target
          decreases if rest.qty > 0 then rest.qty else 0
        {
          SweepStep(Model(), rest, isBid, p);
          FillFront(Model(), rest, p, isBid);
          rest := TradeFront(rest, p, isBid);
        }
      }
      SweepUnfold(Model(), rest, isBid);
    }

    /**
     Submit a limit order. A non-positive quantity is rejected with identity 0;
     otherwise the order takes the next identity, matches, and any remainder
     rests at the back of its price level and is indexed.
     */
    method AddLimit(price: real, qty: int, isBid: bool) returns (id: nat)
      requires LedgerOk(Opposite(Model(), isBid))
      modifies this
      ensures Operations.Placed(Model(), id) == Operations.AddLimit(old(Model()), price, qty, isBid)
      ensures old(Valid()) ==> Valid()
    {
      ghost var b := Model();
      ghost var wasValid := Valid();
      if wasValid {
        Operations.AddLimitInv(b, price, qty, isBid);
      }
      if qty <= 0 {
        return RejectedId;
      }
      Operations.AddLimitSteps(b, price, qty, isBid);
      var inc := Order(nextId, price, qty);
      nextId := nextId + 1;
      id := inc.id;
      assert Model() == b.(nextId := b.nextId + 1);
      Submit(inc, isBid);
    }

    /** Match an order that has its identity, then rest what is left of it. */
    method Submit(inc: Order, isBid: bool)
      requires LedgerOk(Opposite(Model(), isBid))
      modifies this
      ensures var s := Sweep(old(Model()), inc, isBid);
              Model() == if s.incoming.qty > 0 then Operations.Rest(s.book, s.incoming, isBid) else s.book
    {
      var rest := Match(inc, isBid);
      if rest.qty > 0 {
        RestRemainder(rest, isBid);
      }
    }

    /** Queue the unfilled remainder of a limit order at the back of its price level and index it under its price and side. */
    method RestRemainder(inc: Order, isBid: bool)
      modifies this
      ensures Model() == Operations.Rest(old(Model()), inc, isBid)
    {
      if isBid {
        bids := Append(bids, inc);
      } else {
        asks := Append(asks, inc);
      }
      orderIndex := orderIndex[inc.id := (inc.price, isBid)];
    }

    /**
     Submit a market order: a non-positive quantity is rejected with identity 0;
     otherwise it matches at the sentinel price of its side and whatever does
     not fill is discarded.
     */
    method AddMarket(qty: int, isBid: bool) returns (id: nat)
      requires LedgerOk(Opposite(Model(), isBid))
      modifies this
      ensures Operations.Placed(Model(), id) == Operations.AddMarket(old(Model()), qty, isBid)
      ensures old(Valid()) ==> Valid()
    {
      ghost var b := Model();
      if Valid() {
        Operations.AddMarketInv(b, qty, isBid);
      }
      if qty <= 0 {
        return RejectedId;
      }
      var inc := Order(nextId, if isBid then Operations.MarketBuyPrice else Operations.MarketSellPrice, qty);
      ghost var s := Sweep(b.(nextId := b.nextId + 1), inc, isBid);
      assert Operations.AddMarket(b, qty, isBid) == Operations.Placed(s.book, b.nextId);
      nextId := nextId + 1;
      id := inc.id;
      assert Model() == b.(nextId := b.nextId + 1);
      var rest := Match(inc, isBid);
    }

    /**
     Cancel by identity. An unknown identity fails. Otherwise the level the index
     names is scanned from the front; the order is erased when found, the level
     with it when it empties, and the index entry is erased in every case.
     */
    method Cancel(id: nat) returns (ok: bool)
      modifies this
      ensures Operations.Cancelled(Model(), ok) == Operations.Cancel(old(Model()), id)
      ensures old(Valid()) ==> Valid()
    {
      if Valid() {
        Operations.CancelInv(Model(), id);
      }
      if id !in orderIndex {
        return false;
      }
      var price := orderIndex[id].0;
      var isBid := orderIndex[id].1;
      var side := if isBid then bids else asks;
      if price in side {
        var level := side[price];
        var i := 0;
        while i < |level| && level[i].id != id
          invariant 0 <= i <= |level|
          invariant forall j :: 0 <= j < i ==> level[j].id != id
        {
          i := i + 1;
        }
        if i < |level| {
          assert Find(level, id) == Some(i);
          if isBid {
            bids := Withdraw(side, price, i);
          } else {
            asks := Withdraw(side, price, i);
          }
          orderIndex := orderIndex - {id};
          return true;
        }
      }
      orderIndex := orderIndex - {id};
      return false;
    }

    /** Empty the book and the trade log; identities keep counting from where they were. */
    method Clear()
      modifies this
      ensures Model() == Operations.Clear(old(Model()))
      ensures old(Valid()) ==> Valid()
    {
      if Valid() {
        Operations.ClearInv(Model());
      }
      bids := map[];
      asks := map[];
      orderIndex := map[];
      trades := [];
    }

    /** The number of resting orders, read off the index; it is the number of orders on both sides. */
    function TotalOrders(): (n: nat)
      reads this
      ensures Valid() ==> n == Count(bids) + Count(asks)
    {
      |orderIndex|
    }

    /** The trade log; every trade in a consistent book executed a positive quantity. */
    function GetTrades(): (ts: seq<Trade>)
      reads this
      ensures Valid() ==> forall i :: 0 <= i < |ts| ==> ts[i].qty > 0
    {
      trades
    }
  }
}
