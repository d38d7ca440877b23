/**
 The value records of the order book: orders, trades and the location stored
 in the order index. Timestamps are not modelled; they never influence matching.
 */
module Records {

  /** A result that may be absent, used for "not found". */
  datatype Option<T> = None | Some(value: T)

  /** The identity 0 is never assigned; operations that reject their input return it. */
  const RejectedId: nat := 0

  /** An order: its identity, its limit price and its remaining quantity. */
  datatype Order = Order(id: nat, price: real, qty: int)

  /** One execution between an incoming and a resting order. */
  datatype Trade = Trade(buyerId: nat, sellerId: nat, price: real, qty: int)

  /** Where a resting order lives: the price of its level and whether that level is on the bid side. */
  type Location = (real, bool)

  function Min(a: int, b: int): int
  {
    if a <= b then a else b
  }

  /** Total quantity of a sequence of trades. */
  function Traded(ts: seq<Trade>): int
  {
    if |ts| == 0 then 0 else ts[0].qty + Traded(ts[1..])
  }
}
