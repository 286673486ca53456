/** Failure-carrying results and the business-rule error taxonomy shared by
    the pool allocator and the bank ledger. */
module Outcomes {

  type ShipId = string

  datatype Option<+T> = None | Some(value: T)

  datatype Result<+T> = Success(value: T) | Failure(error: Error)

  datatype Outcome = Pass | Fail(error: Error)

  /** One constructor per error the services raise; the HTTP layer tells
      them apart by message, the model by constructor. */
  datatype Error =
    | NoRoutes(ship: ShipId, year: int)            // getOrComputeCB: nothing to aggregate
    | PoolInfeasible                               // pool total CB is negative
    | DeficitWorseOff(ship: ShipId)                // post-allocation check 1
    | SurplusNegative(ship: ShipId)                // post-allocation check 2
    | NoSurplus                                    // banking a non-positive CB
    | InvalidAmount                                // applying a non-positive amount
    | NotADeficit                                  // applying to a year whose CB is not negative
    | InsufficientFunds(available: real, requested: real)

  function Min(a: real, b: real): (m: real)
    ensures m <= a && m <= b
    ensures m == a || m == b
  {
    if a <= b then a else b
  }
}
