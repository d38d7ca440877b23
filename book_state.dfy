/**
 The whole state of one order book as a value: both ledgers, the order index,
 the trade log and the identity counter. `Inv` is the consistency the book keeps
 between these fields; the lemmas here show that the three elementary edits the
 operations are built from (withdrawing one resting order, changing resting
 quantities in place, resting a new order) preserve it.
 */
module BookState {
  import opened Records
  import opened Ledgers

  /** Identity of a resting order to its (price, is-bid) location. */
  type Index = map<nat, Location>

  datatype Book = Book(bids: Ledger, asks: Ledger, index: Index, trades: seq<Trade>, nextId: nat)

  /** A fresh book: nothing rests, nothing has traded, the first identity handed out is 1. */
  const Fresh: Book := Book(map[], map[], map[], [], 1)

  function Side(b: Book, isBid: bool): Ledger
  {
    if isBid then b.bids else b.asks
  }

  /** The side an incoming order on side `isBid` trades against. */
  function Opposite(b: Book, isBid: bool): Ledger
  {
    if isBid then b.asks else b.bids
  }

  function WithSide(b: Book, isBid: bool, l: Ledger): Book
  {
    if isBid then b.(bids := l) else b.(asks := l)
  }

  /** Every order resting on side `isBid` is in the index under its own level. */
  ghost predicate Indexed(l: Ledger, index: Index, isBid: bool)
  {
    forall p, i :: p in l && 0 <= i < |l[p]| ==> l[p][i].id in index && index[l[p][i].id] == (p, isBid)
  }

  /** Every index entry names an order resting at the level it records. */
  ghost predicate Located(b: Book)
  {
    forall id :: id in b.index ==> Rests(Side(b, b.index[id].1), b.index[id].0, id)
  }

  /** The invariant of a book, holding before and after every public operation. */
  ghost predicate Inv(b: Book)
  {
    && LedgerOk(b.bids)
    && LedgerOk(b.asks)
    && Indexed(b.bids, b.index, true)
    && Indexed(b.asks, b.index, false)
    && Located(b)
    && |b.index| == Count(b.bids) + Count(b.asks)
    && b.nextId >= 1
    && (forall id :: id in b.index ==> 0 < id < b.nextId)
    && (forall i :: 0 <= i < |b.trades| ==> b.trades[i].qty > 0)
  }

  lemma FreshInv()
    ensures Inv(Fresh)
  {
    assert Count(map[]) == 0;
  }

  // ---- withdrawing one resting order (a completed fill or a cancel) ----

  lemma WithdrawLevelOk(p: real, level: Level, i: nat)
    requires LevelOk(p, level) && i < |level| && |level| > 1
    ensures LevelOk(p, RemoveAt(level, i))
  {
    var r := RemoveAt(level, i);
    forall a, c | 0 <= a < c < |r|
      ensures r[a].id < r[c].id
    {
      var a' := if a < i then a else a + 1;
      var c' := if c < i then c else c + 1;
      assert r[a] == level[a'] && r[c] == level[c'] && a' < c';
    }
  }

  lemma WithdrawLedgerOk(l: Ledger, p: real, i: nat)
    requires LedgerOk(l) && p in l && i < |l[p]|
    ensures LedgerOk(Withdraw(l, p, i))
  {
    if |l[p]| > 1 {
      WithdrawLevelOk(p, l[p], i);
    }
  }

  /** The orders left on the side after a withdrawal keep their index entries. */
  lemma WithdrawIndexed(l: Ledger, index: Index, s: bool, p: real, i: nat)
    requires LedgerOk(l) && Indexed(l, index, s) && p in l && i < |l[p]|
    ensures Indexed(Withdraw(l, p, i), index - {l[p][i].id}, s)
  {
    var x: nat := l[p][i].id;
    var l': Ledger := Withdraw(l, p, i);
    var r := RemoveAt(l[p], i);
    forall p', j | p' in l' && 0 <= j < |l'[p']|
      ensures l'[p'][j].id in index - {x} && (index - {x})[l'[p'][j].id] == (p', s)
    {
      if p' == p {
        var j' := if j < i then j else j + 1;
        assert l'[p] == r && r[j] == l[p][j'];
        assert j' != i;
      } else {
        assert l'[p'] == l[p'];
        assert index[x] == (p, s);
      }
    }
  }

  /** The other side keeps its index entries: their locations differ from the withdrawn one's. */
  lemma OtherSideIndexed(l: Ledger, other: Ledger, index: Index, s: bool, p: real, i: nat)
    requires Indexed(l, index, s) && Indexed(other, index, !s) && p in l && i < |l[p]|
    ensures Indexed(other, index - {l[p][i].id}, !s)
  {
    var x: nat := l[p][i].id;
    assert index[x] == (p, s);
  }

  lemma WithdrawLocated(b: Book, s: bool, p: real, i: nat)
    requires Located(b) && p in Side(b, s) && i < |Side(b, s)[p]|
    ensures Located(WithSide(b, s, Withdraw(Side(b, s), p, i)).(index := b.index - {Side(b, s)[p][i].id}))
  {
    var l: Ledger := Side(b, s);
    var x: nat := l[p][i].id;
    var l': Ledger := Withdraw(l, p, i);
    var b' := WithSide(b, s, l').(index := b.index - {x});
    var r := RemoveAt(l[p], i);
    forall id | id in b'.index
      ensures Rests(Side(b', b'.index[id].1), b'.index[id].0, id)
    {
      var (p', s') := b.index[id];
      assert b'.index[id] == (p', s');
      assert Rests(Side(b, s'), p', id);
      var k :| 0 <= k < |Side(b, s')[p']| && Side(b, s')[p'][k].id == id;
      if s' == s && p' == p {
        assert k != i;
        assert |r| > 0;
        var k' := if k < i then k else k - 1;
        assert Side(b', s')[p'] == r && r[k'].id == id;
      } else if s' == s {
        assert Side(b', s')[p'] == Side(b, s')[p'];
      } else {
        assert Side(b', s') == Side(b, s');
      }
    }
  }

  /** Withdrawing a resting order and its index entry keeps the invariant. */
  lemma WithdrawInv(b: Book, s: bool, p: real, i: nat)
    requires Inv(b) && p in Side(b, s) && i < |Side(b, s)[p]|
    ensures Inv(WithSide(b, s, Withdraw(Side(b, s), p, i)).(index := b.index - {Side(b, s)[p][i].id}))
  {
    var l: Ledger := Side(b, s);
    var x: nat := l[p][i].id;
    var l': Ledger := Withdraw(l, p, i);
    var b' := WithSide(b, s, l').(index := b.index - {x});
    WithdrawLedgerOk(l, p, i);
    WithdrawIndexed(l, b.index, s, p, i);
    OtherSideIndexed(l, Side(b, !s), b.index, s, p, i);
    WithdrawLocated(b, s, p, i);
    CountPut(l, p, RemoveAt(l[p], i));
    assert x in b.index;
    assert |b'.index| == |b.index| - 1 by {
      assert b'.index.Keys == b.index.Keys - {x};
    }
    if s {
      assert b'.bids == l' && b'.asks == b.asks;
    } else {
      assert b'.asks == l' && b'.bids == b.bids;
    }
  }

  // ---- changing quantities in place (a partial fill) ----

  /** `level'` holds the same orders as `level`, position by position, with positive quantities. */
  ghost predicate SameOrders(level: Level, level': Level)
  {
    && |level'| == |level|
    && forall j :: 0 <= j < |level| ==>
         level'[j].id == level[j].id && level'[j].price == level[j].price && level'[j].qty > 0
  }

  lemma ResizeLedgerOk(l: Ledger, p: real, level': Level)
    requires LedgerOk(l) && p in l && SameOrders(l[p], level')
    ensures LedgerOk(l[p := level'])
  {
    assert LevelOk(p, l[p]);
    assert LevelOk(p, level');
  }

  lemma ResizeIndexed(l: Ledger, index: Index, s: bool, p: real, level': Level)
    requires Indexed(l, index, s) && p in l && SameOrders(l[p], level')
    ensures Indexed(l[p := level'], index, s)
  {
    var l': Ledger := l[p := level'];
    forall p', j | p' in l' && 0 <= j < |l'[p']|
      ensures l'[p'][j].id in index && index[l'[p'][j].id] == (p', s)
    {
      if p' == p {
        assert l'[p][j].id == l[p][j].id;
      } else {
        assert l'[p'] == l[p'];
      }
    }
  }

  lemma ResizeLocated(b: Book, s: bool, p: real, level': Level)
    requires Located(b) && p in Side(b, s) && SameOrders(Side(b, s)[p], level')
    ensures Located(WithSide(b, s, Side(b, s)[p := level']))
  {
    var b' := WithSide(b, s, Side(b, s)[p := level']);
    forall id | id in b'.index
      ensures Rests(Side(b', b'.index[id].1), b'.index[id].0, id)
    {
      var (p', s') := b.index[id];
      assert Rests(Side(b, s'), p', id);
      var k :| 0 <= k < |Side(b, s')[p']| && Side(b, s')[p'][k].id == id;
      if s' == s && p' == p {
        assert Side(b', s')[p'] == level' && level'[k].id == id;
      } else if s' == s {
        assert Side(b', s')[p'] == Side(b, s')[p'];
      } else {
        assert Side(b', s') == Side(b, s');
      }
    }
  }

  /** The book with level `p` of side `s` replaced by `level'`. */
  function Resize(b: Book, s: bool, p: real, level': Level): Book
  {
    WithSide(b, s, Side(b, s)[p := level'])
  }

  /** Replacing a level by the same orders with other positive quantities keeps the invariant. */
  lemma ResizeInv(b: Book, s: bool, p: real, level': Level)
    requires Inv(b) && p in Side(b, s) && SameOrders(Side(b, s)[p], level')
    ensures Inv(Resize(b, s, p, level'))
  {
    var l: Ledger := Side(b, s);
    var l': Ledger := l[p := level'];
    var b' := WithSide(b, s, l');
    ResizeLedgerOk(l, p, level');
    ResizeIndexed(l, b.index, s, p, level');
    ResizeLocated(b, s, p, level');
    CountReplace(l, p, level');
    if s {
      assert b'.bids == l' && b'.asks == b.asks;
    } else {
      assert b'.asks == l' && b'.bids == b.bids;
    }
  }

  // ---- resting a new order ----

  /** An order whose identity is not in the index rests nowhere. */
  lemma UnindexedRestsNowhere(l: Ledger, index: Index, s: bool, id: nat, p: real, j: nat)
    requires Indexed(l, index, s) && id !in index && p in l && j < |l[p]|
    ensures l[p][j].id != id
  {
  }

  /** An order whose identity is above every indexed one goes to the back of its level in arrival order. */
  lemma AppendLedgerOk(l: Ledger, index: Index, s: bool, o: Order)
    requires LedgerOk(l) && Indexed(l, index, s) && o.qty > 0
    requires forall id :: id in index ==> id < o.id
    ensures LedgerOk(Append(l, o))
  {
    var l': Ledger := Append(l, o);
    var level' := l'[o.price];
    var old_ := if o.price in l then l[o.price] else [];
    assert level' == old_ + [o];
    forall a, c | 0 <= a < c < |level'|
      ensures level'[a].id < level'[c].id
    {
      if c == |old_| {
        assert l[o.price][a].id in index;
      } else {
        assert o.price in l;
        assert LevelOk(o.price, l[o.price]);
      }
    }
    assert LevelOk(o.price, level');
  }

  lemma AppendIndexed(l: Ledger, index: Index, s: bool, o: Order)
    requires Indexed(l, index, s) && o.id !in index
    ensures Indexed(Append(l, o), index[o.id := (o.price, s)], s)
  {
    var l': Ledger := Append(l, o);
    var index' := index[o.id := (o.price, s)];
    var old_ := if o.price in l then l[o.price] else [];
    assert l'[o.price] == old_ + [o];
    forall p', j | p' in l' && 0 <= j < |l'[p']|
      ensures l'[p'][j].id in index' && index'[l'[p'][j].id] == (p', s)
    {
      if p' == o.price && j == |old_| {
      } else {
        assert p' in l && j < |l[p']| && l'[p'][j] == l[p'][j];
        UnindexedRestsNowhere(l, index, s, o.id, p', j);
      }
    }
  }

  /** A new index entry leaves the entries of resting orders as they are. */
  lemma ExtendIndexed(l: Ledger, index: Index, s: bool, id: nat, loc: Location)
    requires Indexed(l, index, s) && id !in index
    ensures Indexed(l, index[id := loc], s)
  {
    forall p', j | p' in l && 0 <= j < |l[p']|
      ensures l[p'][j].id in index[id := loc] && index[id := loc][l[p'][j].id] == (p', s)
    {
      UnindexedRestsNowhere(l, index, s, id, p', j);
    }
  }

  lemma AppendLocated(b: Book, s: bool, o: Order)
    requires Located(b) && o.id !in b.index
    ensures Located(WithSide(b, s, Append(Side(b, s), o)).(index := b.index[o.id := (o.price, s)]))
  {
    var l: Ledger := Side(b, s);
    var l': Ledger := Append(l, o);
    var index' := b.index[o.id := (o.price, s)];
    var b' := WithSide(b, s, l').(index := index');
    var old_ := if o.price in l then l[o.price] else [];
    assert l'[o.price] == old_ + [o];
    forall id | id in index'
      ensures Rests(Side(b', index'[id].1), index'[id].0, id)
    {
      if id == o.id {
        assert l'[o.price][|old_|].id == id;
        assert Side(b', s) == l';
      } else {
        var (p', s') := b.index[id];
        assert index'[id] == (p', s');
        assert Rests(Side(b, s'), p', id);
        var k :| 0 <= k < |Side(b, s')[p']| && Side(b, s')[p'][k].id == id;
        if s' == s {
          assert Side(b', s')[p'][k] == Side(b, s')[p'][k];
        } else {
          assert Side(b', s') == Side(b, s');
        }
      }
    }
  }

  /** Resting an order with a new identity adds one index entry and one resting order, and keeps identities below the counter. */
  lemma RestCounts(b: Book, s: bool, o: Order)
    requires Inv(b) && o.id !in b.index && 0 < o.id < b.nextId
    ensures var b' := WithSide(b, s, Append(Side(b, s), o)).(index := b.index[o.id := (o.price, s)]);
            && |b'.index| == Count(b'.bids) + Count(b'.asks)
            && (forall id :: id in b'.index ==> 0 < id < b'.nextId)
  {
    CountAppend(Side(b, s), o);
    assert |b.index[o.id := (o.price, s)]| == |b.index| + 1;
  }

  /** Resting an order with a new identity at the back of its level, and indexing it, keeps the invariant. */
  lemma RestInv(b: Book, s: bool, o: Order)
    requires Inv(b) && o.qty > 0 && o.id !in b.index && 0 < o.id && o.id + 1 == b.nextId
    ensures Inv(WithSide(b, s, Append(Side(b, s), o)).(index := b.index[o.id := (o.price, s)]))
  {
    var l: Ledger := Side(b, s);
    var index' := b.index[o.id := (o.price, s)];
    assert forall id :: id in b.index ==> id < o.id;
    AppendLedgerOk(l, b.index, s, o);
    AppendIndexed(l, b.index, s, o);
    ExtendIndexed(Side(b, !s), b.index, !s, o.id, (o.price, s));
    AppendLocated(b, s, o);
    RestCounts(b, s, o);
  }
}
