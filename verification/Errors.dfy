/** How an instruction of the pool program ends. */
module Errors {
  import opened Machine
  import opened Outcomes

  datatype Error =
    | NotApproved | EmptySupply | InvalidInput | ExceededSlippage | ZeroTradingTokens
    | InvalidVault | InitLpAmountTooLess | TransferFeeCalculateNotMatch
    | MathOverflow | InsufficientVault | NoFeeCollect
    | RequireViolated   // a bare `require_gt`, `require_gte` or `require_eq`
    | GuardViolated     // the product guard of the swaps
    | TokenProgram      // a transfer, mint or burn the token program refuses
    | Panicked          // an `unwrap`, `assert` or overflow check

  type Result<+T> = Outcome<T, Error>

  /** `ok_or(error)?` on a computation that may also abort. */
  function OkOr<T>(c: Checked<T>, error: Error): Result<T> {
    match c
    case Some(v) => Success(v)
    case None => Failure(error)
    case Panic => Failure(Panicked)
  }

  /** `unwrap()`. */
  function Unwrap<T>(c: Checked<T>): Result<T> {
    OkOr(c, Panicked)
  }
}
