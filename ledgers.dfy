/**
 One side of the book: a map from price to the FIFO queue of orders resting at
 that price. The source keeps the bid side in a map ordered by descending price
 and the ask side in one ordered by ascending price; here the ordering is the
 `RanksFirst` relation and the first key of the map is `BestPrice`.
 */
module Ledgers {
  import opened Records

  type Level = seq<Order>
  type Ledger = map<real, Level>

  /** `p` comes no later than `q` on a side: the bid side puts the highest price first, the ask side the lowest. */
  predicate RanksFirst(p: real, q: real, highestFirst: bool)
  {
    if highestFirst then p >= q else p <= q
  }

  lemma Inhabited(ks: set<real>)
    requires ks != {}
    ensures exists k :: k in ks
  {
    assert (forall k :: k !in ks) ==> ks == {};
  }

  /** Every non-empty set of prices has a best element. */
  lemma {:induction false} BestExists(keys: set<real>, highestFirst: bool)
    requires keys != {}
    ensures exists p :: p in keys && forall k :: k in keys ==> RanksFirst(p, k, highestFirst)
    decreases keys
  {
    Inhabited(keys);
    var x :| x in keys;
    var rest := keys - {x};
    if rest == {} {
      forall k | k in keys
        ensures RanksFirst(x, k, highestFirst)
      {
        assert k !in rest;
      }
    } else {
      BestExists(rest, highestFirst);
      var r :| r in rest && forall k :: k in rest ==> RanksFirst(r, k, highestFirst);
      var best := if RanksFirst(x, r, highestFirst) then x else r;
      forall k | k in keys
        ensures RanksFirst(best, k, highestFirst)
      {
        if k != x {
          assert k in rest;
        }
      }
    }
  }

  /** The first key of the ordered map: the highest bid or the lowest ask. */
  function BestPrice(keys: set<real>, highestFirst: bool): (p: real)
    requires keys != {}
    ensures p in keys
    ensures forall k :: k in keys ==> RanksFirst(p, k, highestFirst)
  {
    BestExists(keys, highestFirst);
    var p :| p in keys && forall k :: k in keys ==> RanksFirst(p, k, highestFirst);
    p
  }

  /** The best price is the only one that ranks first. */
  lemma BestUnique(keys: set<real>, p: real, highestFirst: bool)
    requires p in keys && forall k :: k in keys ==> RanksFirst(p, k, highestFirst)
    ensures p == BestPrice(keys, highestFirst)
  {
    var b := BestPrice(keys, highestFirst);
    assert RanksFirst(p, b, highestFirst) && RanksFirst(b, p, highestFirst);
  }

  /**
   A level as the book keeps it: non-empty, every order with positive quantity
   and the level's price, and in arrival order. Identities are handed out in
   increasing order, so arrival order is increasing identity; in particular no
   identity occurs twice.
   */
  ghost predicate LevelOk(p: real, level: Level)
  {
    && |level| > 0
    && (forall i :: 0 <= i < |level| ==> level[i].qty > 0 && level[i].price == p)
    && (forall i, j :: 0 <= i < j < |level| ==> level[i].id < level[j].id)
  }

  ghost predicate LedgerOk(l: Ledger)
  {
    forall p :: p in l ==> LevelOk(p, l[p])
  }

  /** Some order with identity `id` rests in level `p`. */
  ghost predicate Rests(l: Ledger, p: real, id: nat)
  {
    p in l && exists i :: 0 <= i < |l[p]| && l[p][i].id == id
  }

  /** The position of the first order with identity `id` in a level: the linear scan of a cancel. */
  function Find(level: Level, id: nat): (r: Option<nat>)
    ensures r.Some? ==> r.value < |level| && level[r.value].id == id
    ensures r.Some? ==> forall j :: 0 <= j < r.value ==> level[j].id != id
    ensures r.None? <==> forall j :: 0 <= j < |level| ==> level[j].id != id
  {
    if |level| == 0 then None
    else if level[0].id == id then Some(0)
    else match Find(level[1..], id)
      case Some(k) => Some(k + 1)
      case None => None
  }

  /** The level with the order at position `i` taken out, the others keeping their order. */
  function RemoveAt(level: Level, i: nat): (r: Level)
    requires i < |level|
    ensures |r| == |level| - 1
    ensures forall j :: 0 <= j < i ==> r[j] == level[j]
    ensures forall j :: i <= j < |r| ==> r[j] == level[j + 1]
  {
    level[..i] + level[i + 1..]
  }

  /** The level with `q` units taken off the quantity of its front order; the order keeps its identity, price and place. */
  function ReduceFront(level: Level, q: int): (r: Level)
    requires |level| > 0
    ensures |r| == |level| && r[0] == level[0].(qty := level[0].qty - q) && r[1..] == level[1..]
    ensures r[0].id == level[0].id && r[0].price == level[0].price && r[0].qty == level[0].qty - q
  {
    level[0 := level[0].(qty := level[0].qty - q)]
  }

  /** Store a level back under its price, erasing the price when the level has become empty. */
  function Put(l: Ledger, p: real, level: Level): (r: Ledger)
    ensures p in r <==> |level| > 0
    ensures p in r ==> r[p] == level
    ensures forall k :: k != p ==> (k in r <==> k in l)
    ensures forall k :: k != p && k in l ==> r[k] == l[k]
  {
    if |level| == 0 then l - {p} else l[p := level]
  }

  /** Remove the order at position `i` of level `p`, and the level with it when it was the last one. */
  function Withdraw(l: Ledger, p: real, i: nat): (r: Ledger)
    requires p in l && i < |l[p]|
    ensures p in r <==> |l[p]| > 1
    ensures p in r ==> r[p] == RemoveAt(l[p], i)
    ensures forall k :: k != p ==> (k in r <==> k in l)
    ensures forall k :: k != p && k in l ==> r[k] == l[k]
    ensures Count(r) == Count(l) - 1
  {
    CountPut(l, p, RemoveAt(l[p], i));
    Put(l, p, RemoveAt(l[p], i))
  }

  /** Queue an order at the back of the level for its price, creating the level when absent. */
  function Append(l: Ledger, o: Order): (r: Ledger)
    ensures o.price in r && r[o.price] == (if o.price in l then l[o.price] else []) + [o]
    ensures forall k :: k != o.price ==> (k in r <==> k in l)
    ensures forall k :: k in l && k != o.price ==> r[k] == l[k]
  {
    l[o.price := (if o.price in l then l[o.price] else []) + [o]]
  }

  // ---- the number of resting orders on one side ----

  ghost function CountOver(l: Ledger, ks: set<real>): nat
    requires ks <= l.Keys
    decreases ks
  {
    if ks == {} then 0
    else
      Inhabited(ks);
      var k :| k in ks;
      |l[k]| + CountOver(l, ks - {k})
  }

  /** How many orders rest on a side, summed over its levels. */
  ghost function Count(l: Ledger): nat
  {
    CountOver(l, l.Keys)
  }

  /** The sum does not depend on which level is taken out first. */
  lemma {:induction false} CountOverPick(l: Ledger, ks: set<real>, k: real)
    requires ks <= l.Keys && k in ks
    ensures CountOver(l, ks) == |l[k]| + CountOver(l, ks - {k})
    decreases ks
  {
    var k0 :| k0 in ks && CountOver(l, ks) == |l[k0]| + CountOver(l, ks - {k0});
    if k0 != k {
      CountOverPick(l, ks - {k0}, k);
      CountOverPick(l, ks - {k}, k0);
      assert ks - {k0} - {k} == ks - {k} - {k0};
    }
  }

  /** Two sides that agree on the levels in `ks` have the same count over `ks`. */
  lemma {:induction false} CountOverFrame(l: Ledger, l': Ledger, ks: set<real>)
    requires ks <= l.Keys && ks <= l'.Keys
    requires forall k :: k in ks ==> |l[k]| == |l'[k]|
    ensures CountOver(l, ks) == CountOver(l', ks)
    decreases ks
  {
    if ks != {} {
      Inhabited(ks);
      var k :| k in ks;
      CountOverPick(l, ks, k);
      CountOverPick(l', ks, k);
      CountOverFrame(l, l', ks - {k});
    }
  }

  lemma CountReplace(l: Ledger, p: real, level: Level)
    requires p in l
    ensures Count(l[p := level]) == Count(l) - |l[p]| + |level|
  {
    var l' := l[p := level];
    assert l'.Keys == l.Keys;
    CountOverPick(l, l.Keys, p);
    CountOverPick(l', l.Keys, p);
    CountOverFrame(l, l', l.Keys - {p});
  }

  lemma CountErase(l: Ledger, p: real)
    requires p in l
    ensures Count(l - {p}) == Count(l) - |l[p]|
  {
    var l' := l - {p};
    assert l'.Keys == l.Keys - {p};
    CountOverPick(l, l.Keys, p);
    CountOverFrame(l, l', l.Keys - {p});
  }

  lemma CountInsert(l: Ledger, p: real, level: Level)
    requires p !in l
    ensures Count(l[p := level]) == Count(l) + |level|
  {
    var l' := l[p := level];
    assert l'.Keys - {p} == l.Keys;
    CountOverPick(l', l'.Keys, p);
    CountOverFrame(l, l', l.Keys);
  }

  /** Putting a level back changes the count by the change in the level's length. */
  lemma CountPut(l: Ledger, p: real, level: Level)
    requires p in l
    ensures Count(Put(l, p, level)) == Count(l) - |l[p]| + |level|
  {
    if |level| == 0 {
      CountErase(l, p);
    } else {
      CountReplace(l, p, level);
    }
  }

  /** Appending an order adds exactly one resting order. */
  lemma CountAppend(l: Ledger, o: Order)
    ensures Count(Append(l, o)) == Count(l) + 1
  {
    if o.price in l {
      CountReplace(l, o.price, l[o.price] + [o]);
    } else {
      assert [] + [o] == [o];
      CountInsert(l, o.price, [o]);
    }
  }

  // ---- the quantity resting on one side ----

  /** The quantity resting in one level. */
  function LevelVolume(level: Level): int
  {
    if |level| == 0 then 0 else level[0].qty + LevelVolume(level[1..])
  }

  ghost function VolumeOver(l: Ledger, ks: set<real>): int
    requires ks <= l.Keys
    decreases ks
  {
    if ks == {} then 0
    else
      Inhabited(ks);
      var k :| k in ks;
      LevelVolume(l[k]) + VolumeOver(l, ks - {k})
  }

  /** The quantity resting on a side, summed over its levels. */
  ghost function Volume(l: Ledger): int
  {
    VolumeOver(l, l.Keys)
  }

  /** The sum does not depend on which level is taken out first. */
  lemma {:induction false} VolumeOverPick(l: Ledger, ks: set<real>, k: real)
    requires ks <= l.Keys && k in ks
    ensures VolumeOver(l, ks) == LevelVolume(l[k]) + VolumeOver(l, ks - {k})
    decreases ks
  {
    var k0 :| k0 in ks && VolumeOver(l, ks) == LevelVolume(l[k0]) + VolumeOver(l, ks - {k0});
    if k0 != k {
      VolumeOverPick(l, ks - {k0}, k);
      VolumeOverPick(l, ks - {k}, k0);
      assert ks - {k0} - {k} == ks - {k} - {k0};
    }
  }

  /** Two sides whose levels in `ks` hold the same quantities have the same volume over `ks`. */
  lemma {:induction false} VolumeOverFrame(l: Ledger, l': Ledger, ks: set<real>)
    requires ks <= l.Keys && ks <= l'.Keys
    requires forall k :: k in ks ==> LevelVolume(l[k]) == LevelVolume(l'[k])
    ensures VolumeOver(l, ks) == VolumeOver(l', ks)
    decreases ks
  {
    if ks != {} {
      Inhabited(ks);
      var k :| k in ks;
      VolumeOverPick(l, ks, k);
      VolumeOverPick(l', ks, k);
      VolumeOverFrame(l, l', ks - {k});
    }
  }

  /** Putting a level back changes the resting quantity by the change in the level's quantity. */
  lemma VolumePut(l: Ledger, p: real, level: Level)
    requires p in l
    ensures Volume(Put(l, p, level)) == Volume(l) - LevelVolume(l[p]) + LevelVolume(level)
  {
    var r := Put(l, p, level);
    VolumeOverPick(l, l.Keys, p);
    if |level| == 0 {
      assert r.Keys == l.Keys - {p};
    } else {
      assert r.Keys == l.Keys;
      VolumeOverPick(r, r.Keys, p);
    }
    VolumeOverFrame(l, r, l.Keys - {p});
  }
}
