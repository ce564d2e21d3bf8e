/** The domain types every component shares. */
module Types {
  // Fixed widths of the source. A price is a 64-bit signed tick index.
  const MAX_PRICE: int := 0x7FFF_FFFF_FFFF_FFFF
  const MIN_PRICE: int := -0x8000_0000_0000_0000
  // The id of a default-constructed ExecResult.
  const NULL_ORDER_ID: nat := 0

  datatype Side = Buy | Sell {
    function Opposite(): Side {
      if Buy? then Sell else Buy
    }
  }

  datatype OrderType = Limit | Market | Ioc | Fok

  datatype TimeInForce = GTC | DAY | GTD

  /** A resting order. Only PhotonBook reads `tif` and `expiry`; the other books carry them along. */
  datatype Order = Order(id: nat, side: Side, price: int, remaining: nat, owner: nat,
                         tif: TimeInForce, expiry: nat)

  /** The argument list of submit. */
  datatype Request = Request(id: nat, side: Side, kind: OrderType, price: int, qty: nat, owner: nat,
                             tif: TimeInForce, expiry: nat)

  datatype Trade = Trade(restingId: nat, incomingId: nat, price: int, quantity: nat, seqNo: nat)

  datatype ExecResult = ExecResult(id: nat, filled: nat, resting: nat, accepted: bool, fullyFilled: bool)

  datatype Option<+T> = None | Some(value: T)

  const NO_RESULT := ExecResult(NULL_ORDER_ID, 0, 0, false, false)

  function Min(a: nat, b: nat): nat {
    if a < b then a else b
  }
}
