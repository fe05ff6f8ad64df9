/** Shared result types; the errors are the ones the packages amm, dex and graph return. */
module Common {
  datatype Option<+T> = None | Some(value: T)

  datatype Error =
    | ZeroAmount
    | InvalidFee
    | InsufficientLiquidity
    | TickOutOfRange
    | TokenNotInPool
    | PoolStateMissing
    | UnknownProtocol
    | BadRequest
    | UnknownToken
    | NoRoute

  datatype Result<+T> = Ok(value: T) | Err(error: Error)
}
