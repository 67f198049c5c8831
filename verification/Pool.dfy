/** The pool account of programs/cp-swap/src/states/pool.rs together with the balances it controls:
    the two vaults, the LP mint, the fee configuration and the oracle. */
module Pool {
  import opened Machine
  import opened Rounding
  import opened Outcomes
  import opened Errors
  import opened Calculator
  import Oracle

  const Q32: u128 := 0x1_0000_0000

  /** Seconds over which no pool price can overflow the oracle. */
  const TIME_BOUND: u64 := 0x1_0000_0000

  datatype Token = Token0 | Token1

  datatype TradeDirection = ZeroForOne | OneForZero

  datatype CreatorFeeOn = BothToken | OnlyToken0 | OnlyToken1

  datatype StatusBit = DepositBit | WithdrawBit | SwapBit

  datatype PoolState = PoolState(
    vault0: u64, vault1: u64,
    protocolFees0: u64, protocolFees1: u64,
    fundFees0: u64, fundFees1: u64,
    creatorFees0: u64, creatorFees1: u64,
    lpSupply: u64,
    lpMint: u64,
    creatorFeeOn: CreatorFeeOn,
    enableCreatorFee: bool,
    status: nat,
    openTime: u64,
    rates: FeeRates,
    oracle: Oracle.OracleState
  )

  /** An action is approved while its status bit is clear. */
  function Approved(status: nat, bit: StatusBit): bool {
    var weight := match bit case DepositBit => 1 case WithdrawBit => 2 case SwapBit => 4;
    status / weight % 2 == 0
  }

  /** The three low bits decode independently, whatever the higher bits hold. */
  lemma StatusBits(noDeposit: bool, noWithdraw: bool, noSwap: bool, high: nat)
    ensures var low := (if noDeposit then 1 else 0) + (if noWithdraw then 2 else 0) + (if noSwap then 4 else 0);
            var status := low + 8 * high;
            && Approved(status, DepositBit) == !noDeposit
            && Approved(status, WithdrawBit) == !noWithdraw
            && Approved(status, SwapBit) == !noSwap
  {
  }

  /** The vault balances with every accrued fee taken off: the reserves. */
  function VaultAmountWithoutFee(s: PoolState): Result<(u64, u64)> {
    var fees0 :- OkOr(CheckedAdd64(s.protocolFees0, s.fundFees0), MathOverflow);
    var fees0 :- OkOr(CheckedAdd64(fees0, s.creatorFees0), MathOverflow);
    var fees1 :- OkOr(CheckedAdd64(s.protocolFees1, s.fundFees1), MathOverflow);
    var fees1 :- OkOr(CheckedAdd64(fees1, s.creatorFees1), MathOverflow);
    var amount0 :- OkOr(CheckedSub64(s.vault0, fees0), InsufficientVault);
    var amount1 :- OkOr(CheckedSub64(s.vault1, fees1), InsufficientVault);
    Success((amount0, amount1))
  }

  /** A ratio of reserves in fixed point with 32 fractional bits; a zero divisor aborts. */
  function PriceX32(numerator: u64, denominator: u64): Checked<u128> {
    var scaled :- CheckedMul(numerator, Q32).Unwrap();
    CheckedDiv(scaled, denominator).Unwrap()
  }

  function TokenPriceX32(s: PoolState): Result<(u128, u128)> {
    var (amount0, amount1) :- VaultAmountWithoutFee(s);
    var price0 :- Unwrap(PriceX32(amount1, amount0));
    var price1 :- Unwrap(PriceX32(amount0, amount1));
    Success((price0, price1))
  }

  function IsCreatorFeeOnInput(feeOn: CreatorFeeOn, direction: TradeDirection): bool {
    match (feeOn, direction)
    case (BothToken, _) => true
    case (OnlyToken0, ZeroForOne) => true
    case (OnlyToken1, OneForZero) => true
    case _ => false
  }

  datatype SwapParams = SwapParams(
    direction: TradeDirection,
    inputReserve: u64,
    outputReserve: u64,
    price0: u128,
    price1: u128,
    creatorFeeOnInput: bool
  )

  function GetSwapParams(s: PoolState, inputVault: Token, outputVault: Token): Result<SwapParams> {
    if inputVault == Token0 && outputVault == Token1 then
      var (input, output) :- VaultAmountWithoutFee(s);
      var (price0, price1) :- TokenPriceX32(s);
      Success(SwapParams(ZeroForOne, input, output, price0, price1, IsCreatorFeeOnInput(s.creatorFeeOn, ZeroForOne)))
    else if inputVault == Token1 && outputVault == Token0 then
      var (output, input) :- VaultAmountWithoutFee(s);
      var (price0, price1) :- TokenPriceX32(s);
      Success(SwapParams(OneForZero, input, output, price0, price1, IsCreatorFeeOnInput(s.creatorFeeOn, OneForZero)))
    else
      Failure(InvalidVault)
  }

  /** The rates a swap is charged: no creator rate unless the pool enables it. */
  function SwapRates(s: PoolState): FeeRates {
    s.rates.(creator := if s.enableCreatorFee then s.rates.creator else 0)
  }

  function UpdateFees(s: PoolState, protocolFee: u64, fundFee: u64, creatorFee: u64, direction: TradeDirection)
    : Result<PoolState>
  {
    var _ :- Require(s.enableCreatorFee || creatorFee == 0, RequireViolated);
    var onInput := IsCreatorFeeOnInput(s.creatorFeeOn, direction);
    match direction
    case ZeroForOne =>
      var protocolFees :- Unwrap(CheckedAdd64(s.protocolFees0, protocolFee));
      var fundFees :- Unwrap(CheckedAdd64(s.fundFees0, fundFee));
      var booked := s.(protocolFees0 := protocolFees, fundFees0 := fundFees);
      if onInput then
        var creatorFees :- Unwrap(CheckedAdd64(s.creatorFees0, creatorFee));
        Success(booked.(creatorFees0 := creatorFees))
      else
        var creatorFees :- Unwrap(CheckedAdd64(s.creatorFees1, creatorFee));
        Success(booked.(creatorFees1 := creatorFees))
    case OneForZero =>
      var protocolFees :- Unwrap(CheckedAdd64(s.protocolFees1, protocolFee));
      var fundFees :- Unwrap(CheckedAdd64(s.fundFees1, fundFee));
      var booked := s.(protocolFees1 := protocolFees, fundFees1 := fundFees);
      if onInput then
        var creatorFees :- Unwrap(CheckedAdd64(s.creatorFees1, creatorFee));
        Success(booked.(creatorFees1 := creatorFees))
      else
        var creatorFees :- Unwrap(CheckedAdd64(s.creatorFees0, creatorFee));
        Success(booked.(creatorFees0 := creatorFees))
  }

  // ----- What the account means -----

  function Vault(s: PoolState, t: Token): nat {
    if t == Token0 then s.vault0 else s.vault1
  }

  function ProtocolFees(s: PoolState, t: Token): nat {
    if t == Token0 then s.protocolFees0 else s.protocolFees1
  }

  function FundFees(s: PoolState, t: Token): nat {
    if t == Token0 then s.fundFees0 else s.fundFees1
  }

  function CreatorFees(s: PoolState, t: Token): nat {
    if t == Token0 then s.creatorFees0 else s.creatorFees1
  }

  /** Everything a vault owes to fee recipients. */
  function FeesOwed(s: PoolState, t: Token): nat {
    ProtocolFees(s, t) + FundFees(s, t) + CreatorFees(s, t)
  }

  /** What belongs to the liquidity providers. */
  function Reserve(s: PoolState, t: Token): int {
    Vault(s, t) - FeesOwed(s, t)
  }

  predicate Solvent(s: PoolState) {
    Reserve(s, Token0) >= 0 && Reserve(s, Token1) >= 0
  }

  function InputToken(direction: TradeDirection): Token {
    if direction == ZeroForOne then Token0 else Token1
  }

  function OutputToken(direction: TradeDirection): Token {
    if direction == ZeroForOne then Token1 else Token0
  }

  /** The reserves can be read exactly when both vaults cover what they owe. */
  lemma ReservesReadableIffSolvent(s: PoolState)
    ensures VaultAmountWithoutFee(s).Success? <==> Solvent(s)
    ensures Solvent(s) ==> VaultAmountWithoutFee(s) == Success((Reserve(s, Token0), Reserve(s, Token1)))
  {
  }

  lemma PriceX32Value(a: u64, b: u64)
    ensures PriceX32(a, b) == if b == 0 then Panic else Some(a * Q32 / b)
    ensures b > 0 ==> 0 <= a * Q32 / b <= U64_MAX * Q32
  {
    MulBound(a, Q32, U64_MAX, Q32);
    if b > 0 { QuotientFits(a * Q32, b); }
  }

  /** Both prices are defined exactly when both reserves are positive, and then they are the
      reserve ratios scaled by 2^32, below 2^96. */
  lemma PricesDefinedIffReservesPositive(s: PoolState)
    ensures TokenPriceX32(s).Success? <==> Reserve(s, Token0) > 0 && Reserve(s, Token1) > 0
    ensures TokenPriceX32(s).Success? ==>
              var (p0, p1) := TokenPriceX32(s).value;
              && p0 == Reserve(s, Token1) * Q32 / Reserve(s, Token0)
              && p1 == Reserve(s, Token0) * Q32 / Reserve(s, Token1)
              && p0 <= U64_MAX * Q32 && p1 <= U64_MAX * Q32
  {
    ReservesReadableIffSolvent(s);
    if Solvent(s) {
      PriceX32Value(Reserve(s, Token1), Reserve(s, Token0));
      PriceX32Value(Reserve(s, Token0), Reserve(s, Token1));
    }
  }
}
