/**
 The matching algorithm as a reference definition: an incoming order sweeps the
 opposite ledger best level first and, within a level, front order first. `Fill`
 is one pairwise fill; `Sweep` repeats fills while the incoming order has
 quantity left, the opposite side has a level and its best price crosses.
 */
module Matching {
  import opened Records
  import opened Ledgers
  import opened BookState

  /** A level at `levelPrice` may trade with an incoming order: at or below a bid's limit, at or above an ask's. */
  predicate Crosses(levelPrice: real, incPrice: real, isBid: bool)
    ensures Crosses(levelPrice, incPrice, isBid) <==> RanksFirst(levelPrice, incPrice, !isBid)
  {
    if isBid then levelPrice <= incPrice else levelPrice >= incPrice
  }

  /** The book after a sweep and the incoming order with its remaining quantity. */
  datatype Swept = Swept(book: Book, incoming: Order)

  /** The trade between an incoming and a resting order: an incoming bid buys, an incoming ask sells. */
  function TradeWith(inc: Order, resting: Order, price: real, q: int, isBid: bool): (t: Trade)
    ensures t.price == price && t.qty == q
    ensures t.buyerId == (if isBid then inc.id else resting.id)
    ensures t.sellerId == (if isBid then resting.id else inc.id)
  {
    if isBid then Trade(inc.id, resting.id, price, q) else Trade(resting.id, inc.id, price, q)
  }

  /** The book with trade `t` appended to its log. */
  function Logged(b: Book, t: Trade): Book
  {
    b.(trades := b.trades + [t])
  }

  /** One fill of the incoming order against the front order of the opposite level at `p`. */
  function Fill(b: Book, inc: Order, p: real, isBid: bool): (r: Book)
    requires inc.qty > 0 && LedgerOk(Opposite(b, isBid)) && p in Opposite(b, isBid)
    ensures LedgerOk(Opposite(r, isBid))
    ensures Side(r, isBid) == Side(b, isBid) && r.nextId == b.nextId
    ensures Opposite(r, isBid).Keys <= Opposite(b, isBid).Keys
    ensures |r.trades| == |b.trades| + 1 && r.trades[..|b.trades|] == b.trades
    ensures r.index.Keys <= b.index.Keys
  {
    var book := Opposite(b, isBid);
    var level := book[p];
    var resting := level[0];
    assert LevelOk(p, level);
    var q := Min(inc.qty, resting.qty);
    var b' := Logged(b, TradeWith(inc, resting, p, q, isBid));
    assert b'.trades[..|b.trades|] == b.trades;
    if resting.qty - q == 0 then
      assert RemoveAt(level, 0) == level[1..];
      WithdrawLedgerOk(book, p, 0);
      WithSide(b', !isBid, Put(book, p, level[1..])).(index := b.index - {resting.id})
    else
      ResizeLedgerOk(book, p, ReduceFront(level, q));
      Resize(b', !isBid, p, ReduceFront(level, q))
  }

  /** The sweep goes on: the incoming order has quantity left, the opposite side a level, and the best such level crosses. */
  predicate Continues(b: Book, inc: Order, isBid: bool)
  {
    && inc.qty > 0
    && Opposite(b, isBid).Keys != {}
    && Crosses(BestPrice(Opposite(b, isBid).Keys, !isBid), inc.price, isBid)
  }

  /** The price of the level a continuing sweep fills against next. */
  function NextPrice(b: Book, inc: Order, isBid: bool): real
    requires Continues(b, inc, isBid)
  {
    BestPrice(Opposite(b, isBid).Keys, !isBid)
  }

  /** The incoming order after one fill against the front order of the level at `p`. */
  function FillIncoming(b: Book, inc: Order, p: real, isBid: bool): (r: Order)
    requires inc.qty > 0 && LedgerOk(Opposite(b, isBid)) && p in Opposite(b, isBid)
    ensures r == inc.(qty := r.qty) && 0 <= r.qty < inc.qty
    ensures r.qty == 0 <==> inc.qty <= Opposite(b, isBid)[p][0].qty
  {
    assert LevelOk(p, Opposite(b, isBid)[p]);
    inc.(qty := inc.qty - Min(inc.qty, Opposite(b, isBid)[p][0].qty))
  }

  /** The incoming order after the next fill. */
  function NextIncoming(b: Book, inc: Order, isBid: bool): Order
    requires Continues(b, inc, isBid) && LedgerOk(Opposite(b, isBid))
  {
    FillIncoming(b, inc, NextPrice(b, inc, isBid), isBid)
  }

  /** The whole match: fills until the incoming order is used up, the opposite side is empty, or its best price does not cross. */
  function Sweep(b: Book, inc: Order, isBid: bool): (r: Swept)
    requires LedgerOk(Opposite(b, isBid))
    ensures r.incoming == inc.(qty := r.incoming.qty)
    ensures inc.qty > 0 ==> 0 <= r.incoming.qty <= inc.qty
    ensures inc.qty <= 0 ==> r == Swept(b, inc)
    ensures Side(r.book, isBid) == Side(b, isBid) && r.book.nextId == b.nextId
    ensures |b.trades| <= |r.book.trades| && r.book.trades[..|b.trades|] == b.trades
    ensures LedgerOk(Opposite(r.book, isBid))
    ensures r.book.index.Keys <= b.index.Keys
    ensures Opposite(r.book, isBid).Keys <= Opposite(b, isBid).Keys
    decreases if inc.qty > 0 then inc.qty else 0
  {
    if !Continues(b, inc, isBid) then Swept(b, inc)
    else
      var p := NextPrice(b, inc, isBid);
      assert LevelOk(p, Opposite(b, isBid)[p]);
      var b1 := Fill(b, inc, p, isBid);
      var r := Sweep(b1, NextIncoming(b, inc, isBid), isBid);
      assert r.book.trades[..|b.trades|] == r.book.trades[..|b1.trades|][..|b.trades|];
      r
  }

  /** No level on `l` ranks before `price`. */
  ghost predicate NoneBefore(price: real, l: Ledger, highestFirst: bool)
  {
    forall k :: k in l ==> RanksFirst(price, k, highestFirst)
  }

  /** A sweep that goes on is one fill at the best level followed by the sweep of what is left. */
  lemma SweepStep(b: Book, inc: Order, isBid: bool, p: real)
    requires LedgerOk(Opposite(b, isBid)) && p in Opposite(b, isBid) && inc.qty > 0
    requires Crosses(p, inc.price, isBid) && NoneBefore(p, Opposite(b, isBid), !isBid)
    ensures Continues(b, inc, isBid) && NextPrice(b, inc, isBid) == p
    ensures Sweep(b, inc, isBid) == Sweep(Fill(b, inc, p, isBid), NextIncoming(b, inc, isBid), isBid)
  {
    BestUnique(Opposite(b, isBid).Keys, p, !isBid);
  }

  /** A sweep that cannot go on leaves the book and the incoming order as they are. */
  lemma SweepUnfold(b: Book, inc: Order, isBid: bool)
    requires LedgerOk(Opposite(b, isBid))
    ensures !Continues(b, inc, isBid) ==> Sweep(b, inc, isBid) == Swept(b, inc)
  {
  }

  // ---- one fill ----

  /** A fill trades min(incoming, front) units at the level's price with the level's front order, and takes that amount off both. */
  lemma FillFront(b: Book, inc: Order, p: real, isBid: bool)
    requires inc.qty > 0 && LedgerOk(Opposite(b, isBid)) && p in Opposite(b, isBid)
    ensures var level := Opposite(b, isBid)[p];
            var front := level[0];
            var q := Min(inc.qty, front.qty);
            var r := Fill(b, inc, p, isBid);
            && 0 < q <= front.qty && q <= inc.qty
            && r.trades == b.trades + [TradeWith(inc, front, p, q, isBid)]
            && (q == front.qty ==>
                  && r.index == b.index - {front.id}
                  && (|level| == 1 ==> p !in Opposite(r, isBid))
                  && (|level| > 1 ==> Opposite(r, isBid)[p] == level[1..]))
            && (q < front.qty ==>
                  && q == inc.qty
                  && r.index == b.index
                  && Opposite(r, isBid)[p] == [front.(qty := front.qty - q)] + level[1..])
            && (forall k :: k in Opposite(b, isBid) && k != p ==> k in Opposite(r, isBid) && Opposite(r, isBid)[k] == Opposite(b, isBid)[k])
  {
    var level := Opposite(b, isBid)[p];
    assert LevelOk(p, level);
    var front := level[0];
    var q := Min(inc.qty, front.qty);
    if q < front.qty {
      assert level[0 := front.(qty := front.qty - q)] == [front.(qty := front.qty - q)] + level[1..];
    }
  }

  /** Time priority: in a consistent book a fill trades with the earliest order of the level, the one placed before every other order resting there. */
  lemma FillTakesEarliest(b: Book, inc: Order, p: real, isBid: bool)
    requires Inv(b) && inc.qty > 0 && p in Opposite(b, isBid)
    ensures var level := Opposite(b, isBid)[p];
            var t := Fill(b, inc, p, isBid).trades[|b.trades|];
            var counterparty := if isBid then t.sellerId else t.buyerId;
            && counterparty == level[0].id
            && forall i :: 0 < i < |level| ==> counterparty < level[i].id
  {
    var level := Opposite(b, isBid)[p];
    assert LevelOk(p, level);
    FillFront(b, inc, p, isBid);
  }

  /** Logging a trade with positive quantity keeps the invariant of the book. */
  lemma LogInv(b: Book, t: Trade)
    requires Inv(b) && t.qty > 0
    ensures Inv(Logged(b, t))
  {
    var b' := Logged(b, t);
    assert Located(b') by {
      assert Side(b', true) == Side(b, true) && Side(b', false) == Side(b, false);
    }
  }

  /** A fill that uses up the front order logs its trade and withdraws the front order. */
  lemma FillDrains(b: Book, inc: Order, p: real, isBid: bool)
    requires inc.qty > 0 && LedgerOk(Opposite(b, isBid)) && p in Opposite(b, isBid)
    requires Opposite(b, isBid)[p][0].qty <= inc.qty
    ensures var front := Opposite(b, isBid)[p][0];
            var b' := b.(trades := b.trades + [TradeWith(inc, front, p, front.qty, isBid)]);
            Fill(b, inc, p, isBid) == WithSide(b', !isBid, Withdraw(Side(b', !isBid), p, 0)).(index := b.index - {front.id})
  {
    var level := Opposite(b, isBid)[p];
    assert LevelOk(p, level);
    assert RemoveAt(level, 0) == level[1..];
  }

  /** A fill that uses up the front order keeps the invariant of the book. */
  lemma FillDrainInv(b: Book, inc: Order, p: real, isBid: bool)
    requires Inv(b) && inc.qty > 0 && p in Opposite(b, isBid)
    requires Opposite(b, isBid)[p][0].qty <= inc.qty
    ensures Inv(Fill(b, inc, p, isBid))
  {
    var front := Opposite(b, isBid)[p][0];
    assert LevelOk(p, Opposite(b, isBid)[p]);
    var t := TradeWith(inc, front, p, front.qty, isBid);
    LogInv(b, t);
    FillDrains(b, inc, p, isBid);
    WithdrawInv(Logged(b, t), !isBid, p, 0);
  }

  /** A fill that leaves the front order with quantity keeps the invariant of the book. */
  lemma FillReduceInv(b: Book, inc: Order, p: real, isBid: bool)
    requires Inv(b) && inc.qty > 0 && p in Opposite(b, isBid)
    requires Opposite(b, isBid)[p][0].qty > inc.qty
    ensures Inv(Fill(b, inc, p, isBid))
  {
    var level := Opposite(b, isBid)[p];
    assert LevelOk(p, level);
    var front := level[0];
    var t := TradeWith(inc, front, p, inc.qty, isBid);
    LogInv(b, t);
    var level' := ReduceFront(level, inc.qty);
    assert SameOrders(level, level');
    ResizeInv(Logged(b, t), !isBid, p, level');
  }

  /** A fill keeps the invariant of the book. */
  lemma FillInv(b: Book, inc: Order, p: real, isBid: bool)
    requires Inv(b) && inc.qty > 0 && p in Opposite(b, isBid)
    ensures Inv(Fill(b, inc, p, isBid))
  {
    if Opposite(b, isBid)[p][0].qty <= inc.qty {
      FillDrainInv(b, inc, p, isBid);
    } else {
      FillReduceInv(b, inc, p, isBid);
    }
  }

  // ---- the whole sweep ----

  /** A sweep keeps the invariant of the book. */
  lemma {:induction false} SweepInv(b: Book, inc: Order, isBid: bool)
    requires Inv(b)
    ensures Inv(Sweep(b, inc, isBid).book)
    decreases if inc.qty > 0 then inc.qty else 0
  {
    if Continues(b, inc, isBid) {
      var p := NextPrice(b, inc, isBid);
      FillInv(b, inc, p, isBid);
      SweepInv(Fill(b, inc, p, isBid), NextIncoming(b, inc, isBid), isBid);
    }
  }

  /** The one trade a fill logs is for the quantity the incoming order loses in it. */
  lemma FillLogsLoss(b: Book, inc: Order, p: real, isBid: bool)
    requires inc.qty > 0 && LedgerOk(Opposite(b, isBid)) && p in Opposite(b, isBid)
    ensures Fill(b, inc, p, isBid).trades[|b.trades|].qty == inc.qty - FillIncoming(b, inc, p, isBid).qty
  {
    assert LevelOk(p, Opposite(b, isBid)[p]);
  }

  /** The total of a suffix of the log is its first trade's quantity plus the total of the rest. */
  lemma TradedFrom(ts: seq<Trade>, k: nat)
    requires k < |ts|
    ensures Traded(ts[k..]) == ts[k].qty + Traded(ts[k + 1..])
  {
    assert ts[k..][1..] == ts[k + 1..];
  }

  /** What one sweep traded, in total, is the quantity the incoming order lost. */
  lemma {:induction false} SweepConserves(b: Book, inc: Order, isBid: bool)
    requires LedgerOk(Opposite(b, isBid))
    ensures var r := Sweep(b, inc, isBid);
            Traded(r.book.trades[|b.trades|..]) == inc.qty - r.incoming.qty
    decreases if inc.qty > 0 then inc.qty else 0
  {
    var r := Sweep(b, inc, isBid);
    var n := |b.trades|;
    if Continues(b, inc, isBid) {
      var p := NextPrice(b, inc, isBid);
      var b1 := Fill(b, inc, p, isBid);
      var inc1 := NextIncoming(b, inc, isBid);
      assert r == Sweep(b1, inc1, isBid);
      FillLogsLoss(b, inc, p, isBid);
      SweepConserves(b1, inc1, isBid);
      assert r.book.trades[n] == b1.trades[n] by {
        assert r.book.trades[..|b1.trades|] == b1.trades;
      }
      TradedFrom(r.book.trades, n);
    } else {
      assert r.book.trades[n..] == [];
    }
  }

  /** One fill takes off the opposite side exactly the quantity of the trade it logs. */
  lemma FillVolume(b: Book, inc: Order, p: real, isBid: bool)
    requires inc.qty > 0 && LedgerOk(Opposite(b, isBid)) && p in Opposite(b, isBid)
    ensures var r := Fill(b, inc, p, isBid);
            Volume(Opposite(r, isBid)) == Volume(Opposite(b, isBid)) - r.trades[|b.trades|].qty
  {
    var book := Opposite(b, isBid);
    var level := book[p];
    assert LevelOk(p, level);
    var q := Min(inc.qty, level[0].qty);
    var r := Fill(b, inc, p, isBid);
    if q == level[0].qty {
      assert Opposite(r, isBid) == Put(book, p, level[1..]);
      VolumePut(book, p, level[1..]);
    } else {
      var level' := ReduceFront(level, q);
      assert Opposite(r, isBid) == Put(book, p, level');
      assert level'[1..] == level[1..];
      VolumePut(book, p, level');
    }
  }

  /** What one sweep traded, in total, is the quantity the opposite side lost: no resting order gives more than it held. */
  lemma {:induction false} SweepVolume(b: Book, inc: Order, isBid: bool)
    requires LedgerOk(Opposite(b, isBid))
    ensures var r := Sweep(b, inc, isBid);
            Volume(Opposite(r.book, isBid)) == Volume(Opposite(b, isBid)) - Traded(r.book.trades[|b.trades|..])
    decreases if inc.qty > 0 then inc.qty else 0
  {
    var r := Sweep(b, inc, isBid);
    var n := |b.trades|;
    if Continues(b, inc, isBid) {
      var p := NextPrice(b, inc, isBid);
      var b1 := Fill(b, inc, p, isBid);
      var inc1 := NextIncoming(b, inc, isBid);
      assert r == Sweep(b1, inc1, isBid);
      FillVolume(b, inc, p, isBid);
      SweepVolume(b1, inc1, isBid);
      assert r.book.trades[n] == b1.trades[n] by {
        assert r.book.trades[..|b1.trades|] == b1.trades;
      }
      TradedFrom(r.book.trades, n);
    } else {
      assert r.book.trades[n..] == [];
    }
  }

  /** Every trade of a sweep crosses the incoming limit, is priced at a level that was resting, executes a positive quantity and names the incoming order on its own side. */
  lemma {:induction false} SweepTradesCross(b: Book, inc: Order, isBid: bool, j: nat)
    requires LedgerOk(Opposite(b, isBid))
    requires |b.trades| <= j < |Sweep(b, inc, isBid).book.trades|
    ensures var t := Sweep(b, inc, isBid).book.trades[j];
            && Crosses(t.price, inc.price, isBid)
            && t.price in Opposite(b, isBid)
            && t.qty > 0
            && (if isBid then t.buyerId == inc.id else t.sellerId == inc.id)
    decreases if inc.qty > 0 then inc.qty else 0
  {
    var p := NextPrice(b, inc, isBid);
    FillFront(b, inc, p, isBid);
    var b1 := Fill(b, inc, p, isBid);
    var inc1 := NextIncoming(b, inc, isBid);
    var r := Sweep(b1, inc1, isBid);
    assert r == Sweep(b, inc, isBid);
    if j == |b.trades| {
      assert r.book.trades[..|b1.trades|] == b1.trades;
      assert r.book.trades[j] == b1.trades[j];
    } else {
      SweepTradesCross(b1, inc1, isBid, j);
      assert Opposite(b1, isBid).Keys <= Opposite(b, isBid).Keys;
    }
  }

  /** Price priority: no level left on the opposite side ranks before the price of any trade the sweep made. */
  lemma {:induction false} SweepPriority(b: Book, inc: Order, isBid: bool, j: nat)
    requires LedgerOk(Opposite(b, isBid))
    requires |b.trades| <= j < |Sweep(b, inc, isBid).book.trades|
    ensures var r := Sweep(b, inc, isBid);
            NoneBefore(r.book.trades[j].price, Opposite(r.book, isBid), !isBid)
    decreases if inc.qty > 0 then inc.qty else 0
  {
    var p := NextPrice(b, inc, isBid);
    FillFront(b, inc, p, isBid);
    var b1 := Fill(b, inc, p, isBid);
    var inc1 := NextIncoming(b, inc, isBid);
    var r := Sweep(b1, inc1, isBid);
    assert r == Sweep(b, inc, isBid);
    if j == |b.trades| {
      assert r.book.trades[..|b1.trades|] == b1.trades;
      assert r.book.trades[j] == b1.trades[j];
      forall k | k in Opposite(r.book, isBid)
        ensures RanksFirst(p, k, !isBid)
      {
        assert k in Opposite(b, isBid);
      }
    } else {
      SweepPriority(b1, inc1, isBid, j);
    }
  }

  /** A level that ranks strictly before a price the sweep traded at was drained and erased. */
  lemma SweepDrainsPassedLevels(b: Book, inc: Order, isBid: bool, j: nat, k: real)
    requires LedgerOk(Opposite(b, isBid))
    requires |b.trades| <= j < |Sweep(b, inc, isBid).book.trades|
    requires k in Opposite(b, isBid)
    requires RanksFirst(k, Sweep(b, inc, isBid).book.trades[j].price, !isBid)
    requires k != Sweep(b, inc, isBid).book.trades[j].price
    ensures k !in Side(Sweep(b, inc, isBid).book, !isBid)
  {
    SweepPriority(b, inc, isBid, j);
  }

  /** A sweep that leaves quantity over stops only because no level left on the opposite side crosses. */
  lemma {:induction false} SweepStops(b: Book, inc: Order, isBid: bool)
    requires LedgerOk(Opposite(b, isBid))
    ensures var r := Sweep(b, inc, isBid);
            r.incoming.qty > 0 ==> forall k :: k in Opposite(r.book, isBid) ==> !Crosses(k, inc.price, isBid)
    decreases if inc.qty > 0 then inc.qty else 0
  {
    if Continues(b, inc, isBid) {
      var p := NextPrice(b, inc, isBid);
      SweepStops(Fill(b, inc, p, isBid), NextIncoming(b, inc, isBid), isBid);
    }
  }
}
