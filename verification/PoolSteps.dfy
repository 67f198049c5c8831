/** Every instruction of the pool program, and what outsiders can do to its accounts, as a partial
    step on the pool state. A failed step changes nothing, because the runtime discards it. */
module PoolSteps {
  import opened Machine
  import opened Rounding
  import opened Outcomes
  import opened Errors
  import opened Tokens
  import opened ConstantProduct
  import opened Calculator
  import opened Pool
  import AmmConfig
  import Oracle

  const LOCKED_LP: u64 := 100

  /** What an instruction runs with: the clock, the two mints, and what the payer holds of each. */
  datatype Context = Context(now: u64, mint0: Mint, mint1: Mint, payer0: u64, payer1: u64)

  function MintOf(ctx: Context, t: Token): Mint {
    if t == Token0 then ctx.mint0 else ctx.mint1
  }

  function PayerOf(ctx: Context, t: Token): u64 {
    if t == Token0 then ctx.payer0 else ctx.payer1
  }

  // ----- Creation -----

  /** A new pool over the amounts its vaults received: `initialize` passes BothToken and false,
      `initialize_with_permission` a chosen mode and true. */
  function Initialize(ctx: Context, rates: FeeRates, amount0: u64, amount1: u64, openTime: u64,
                      creatorFeeOn: CreatorFeeOn, enableCreatorFee: bool): Result<PoolState>
  {
    var opens :- if openTime <= ctx.now then Unwrap(Plus64(ctx.now, 1)) else Success(openTime);
    var vault0 :- TransferIn(ctx.mint0, ctx.payer0, 0, amount0);
    var vault1 :- TransferIn(ctx.mint1, ctx.payer1, 0, amount1);
    var _ :- Require(vault0 != 0 && vault1 != 0, EmptySupply);
    var product :- Unwrap(CheckedMul(vault0, vault1));
    RootFits(product);
    var liquidity :- Unwrap(ToU64(IntegerSqrt(product)));
    var minted :- OkOr(CheckedSub64(liquidity, LOCKED_LP), InitLpAmountTooLess);
    Success(PoolState(vault0, vault1, 0, 0, 0, 0, 0, 0, liquidity, minted,
                      creatorFeeOn, enableCreatorFee, 0, opens, rates, Oracle.Fresh()))
  }

  lemma RootFits(n: nat)
    ensures IntegerSqrt(n) <= n
  {
    var r := IntegerSqrt(n);
    if r > 0 { MulMono(1, r, r); }
  }

  // ----- Liquidity -----

  function Deposit(s: PoolState, ctx: Context, lpAmount: u64, maximum0: u64, maximum1: u64): Result<PoolState> {
    var _ :- Require(lpAmount > 0, RequireViolated);
    var _ :- Require(Approved(s.status, DepositBit), NotApproved);
    var (reserve0, reserve1) :- VaultAmountWithoutFee(s);
    var tokens :- OkOr(LpTokensToTradingTokens(lpAmount, s.lpSupply, reserve0, reserve1, Ceiling), ZeroTradingTokens);
    var _ :- Require(tokens.token0 != 0 && tokens.token1 != 0, ZeroTradingTokens);
    var amount0 :- Unwrap(ToU64(tokens.token0));
    var sent0 :- AmountToSend(ctx.mint0, amount0);
    var amount1 :- Unwrap(ToU64(tokens.token1));
    var sent1 :- AmountToSend(ctx.mint1, amount1);
    var _ :- Require(sent0 <= maximum0 && sent1 <= maximum1, ExceededSlippage);
    var vault0 :- TransferIn(ctx.mint0, ctx.payer0, s.vault0, sent0);
    var vault1 :- TransferIn(ctx.mint1, ctx.payer1, s.vault1, sent1);
    var lpSupply :- Unwrap(CheckedAdd64(s.lpSupply, lpAmount));
    var lpMint :- MintTo(s.lpMint, lpAmount);
    Success(s.(vault0 := vault0, vault1 := vault1, lpSupply := lpSupply, lpMint := lpMint))
  }

  /** `ownerLp` is the LP balance of the account the owner withdraws from. */
  function Withdraw(s: PoolState, ctx: Context, ownerLp: u64, lpAmount: u64, minimum0: u64, minimum1: u64)
    : Result<PoolState>
  {
    var _ :- Require(lpAmount > 0, RequireViolated);
    var _ :- Require(ownerLp >= lpAmount, RequireViolated);
    var _ :- Require(Approved(s.status, WithdrawBit), NotApproved);
    var (reserve0, reserve1) :- VaultAmountWithoutFee(s);
    var tokens :- OkOr(LpTokensToTradingTokens(lpAmount, s.lpSupply, reserve0, reserve1, Floor), ZeroTradingTokens);
    var _ :- Require(tokens.token0 != 0 && tokens.token1 != 0, ZeroTradingTokens);
    var amount0 :- Unwrap(ToU64(tokens.token0));
    var amount0 := if reserve0 <= amount0 then reserve0 else amount0;
    var amount1 :- Unwrap(ToU64(tokens.token1));
    var amount1 := if reserve1 <= amount1 then reserve1 else amount1;
    var received0 := Received(ctx.mint0, amount0);
    var received1 := Received(ctx.mint1, amount1);
    var _ :- Require(received0 >= minimum0 && received1 >= minimum1, ExceededSlippage);
    var lpSupply :- Unwrap(CheckedSub64(s.lpSupply, lpAmount));
    var lpMint :- Burn(s.lpMint, ownerLp, lpAmount);
    var vault0 :- TransferOut(s.vault0, amount0);
    var vault1 :- TransferOut(s.vault1, amount1);
    Success(s.(vault0 := vault0, vault1 := vault1, lpSupply := lpSupply, lpMint := lpMint))
  }

  // ----- Swaps -----

  /** The tail both swap instructions share: book the fees, check the product guard, move the
      tokens, and show the oracle the prices from before the swap. */
  function Settle(s: PoolState, ctx: Context, params: SwapParams, q: SwapResult,
                  before: u128, after: u128, sent: u64, paid: u64): Result<PoolState>
  {
    var protocolFee :- Unwrap(ToU64(q.protocolFee));
    var fundFee :- Unwrap(ToU64(q.fundFee));
    var creatorFee :- Unwrap(ToU64(q.creatorFee));
    var booked :- UpdateFees(s, protocolFee, fundFee, creatorFee, params.direction);
    var _ :- Unwrap(ToU64(q.tradeFee));
    var _ :- Require(after >= before, GuardViolated);
    var moved :- match params.direction
                 case ZeroForOne =>
                   var vault0 :- TransferIn(ctx.mint0, ctx.payer0, s.vault0, sent);
                   var vault1 :- TransferOut(s.vault1, paid);
                   Success(booked.(vault0 := vault0, vault1 := vault1))
                 case OneForZero =>
                   var vault1 :- TransferIn(ctx.mint1, ctx.payer1, s.vault1, sent);
                   var vault0 :- TransferOut(s.vault0, paid);
                   Success(booked.(vault0 := vault0, vault1 := vault1));
    var oracle :- Oracle.Update(s.oracle, ctx.now, params.price0, params.price1);
    Success(moved.(oracle := oracle))
  }

  predicate SwapOpen(s: PoolState, now: u64) {
    Approved(s.status, SwapBit) && now >= s.openTime
  }

  function SwapIn(s: PoolState, ctx: Context, inputVault: Token, outputVault: Token,
                  amountIn: u64, minimumOut: u64): Result<PoolState>
  {
    var _ :- Require(SwapOpen(s, ctx.now), NotApproved);
    var actualIn := Received(MintOf(ctx, inputVault), amountIn);
    var _ :- Require(actualIn > 0, RequireViolated);
    var params :- GetSwapParams(s, inputVault, outputVault);
    var before :- Unwrap(CheckedMul(params.inputReserve, params.outputReserve));
    var q :- OkOr(SwapBaseInput(actualIn, params.inputReserve, params.outputReserve, SwapRates(s),
                                params.creatorFeeOnInput),
                  ZeroTradingTokens);
    var after :- Unwrap(CheckedMul(q.newInputVault, q.newOutputVault));
    var quotedIn :- Unwrap(ToU64(q.inputAmount));
    var _ :- Require(quotedIn == actualIn, RequireViolated);
    var amountOut :- Unwrap(ToU64(q.outputAmount));
    var received := Received(MintOf(ctx, outputVault), amountOut);
    var _ :- Require(received > 0, RequireViolated);
    var _ :- Require(received >= minimumOut, ExceededSlippage);
    Settle(s, ctx, params, q, before, after, amountIn, amountOut)
  }

  function SwapOut(s: PoolState, ctx: Context, inputVault: Token, outputVault: Token,
                   maximumIn: u64, amountOut: u64): Result<PoolState>
  {
    var _ :- Require(amountOut > 0, RequireViolated);
    var _ :- Require(SwapOpen(s, ctx.now), NotApproved);
    var paid :- AmountToSend(MintOf(ctx, outputVault), amountOut);
    var params :- GetSwapParams(s, inputVault, outputVault);
    var before :- Unwrap(CheckedMul(params.inputReserve, params.outputReserve));
    var q :- OkOr(SwapBaseOutput(paid, params.inputReserve, params.outputReserve, SwapRates(s),
                                 params.creatorFeeOnInput),
                  ZeroTradingTokens);
    var after :- Unwrap(CheckedMul(q.newInputVault, q.newOutputVault));
    var quotedIn :- Unwrap(ToU64(q.inputAmount));
    var _ :- Require(quotedIn > 0, RequireViolated);
    var sent :- AmountToSend(MintOf(ctx, inputVault), quotedIn);
    var _ :- Require(maximumIn >= sent, ExceededSlippage);
    var quotedOut :- Unwrap(ToU64(q.outputAmount));
    var _ :- Require(quotedOut == paid, RequireViolated);
    Settle(s, ctx, params, q, before, after, sent, paid)
  }

  // ----- Fee collection -----

  function Min(a: u64, b: u64): u64 {
    if a <= b then a else b
  }

  function CollectProtocolFee(s: PoolState, requested0: u64, requested1: u64): Result<PoolState> {
    var amount0 := Min(requested0, s.protocolFees0);
    var amount1 := Min(requested1, s.protocolFees1);
    var _ :- Require(amount0 > 0 || amount1 > 0, NoFeeCollect);
    var vault0 :- TransferOut(s.vault0, amount0);
    var vault1 :- TransferOut(s.vault1, amount1);
    Success(s.(vault0 := vault0, vault1 := vault1,
               protocolFees0 := s.protocolFees0 - amount0, protocolFees1 := s.protocolFees1 - amount1))
  }

  function CollectFundFee(s: PoolState, requested0: u64, requested1: u64): Result<PoolState> {
    var amount0 := Min(requested0, s.fundFees0);
    var amount1 := Min(requested1, s.fundFees1);
    var _ :- Require(amount0 > 0 || amount1 > 0, NoFeeCollect);
    var vault0 :- TransferOut(s.vault0, amount0);
    var vault1 :- TransferOut(s.vault1, amount1);
    Success(s.(vault0 := vault0, vault1 := vault1,
               fundFees0 := s.fundFees0 - amount0, fundFees1 := s.fundFees1 - amount1))
  }

  function CollectCreatorFee(s: PoolState): Result<PoolState> {
    var _ :- Require(s.creatorFees0 != 0 || s.creatorFees1 != 0, NoFeeCollect);
    var vault0 :- TransferOut(s.vault0, s.creatorFees0);
    var vault1 :- TransferOut(s.vault1, s.creatorFees1);
    Success(s.(vault0 := vault0, vault1 := vault1, creatorFees0 := 0, creatorFees1 := 0))
  }

  // ----- Anyone else -----

  /** Tokens sent straight to a vault; `amount` is what arrives. */
  function Donate(s: PoolState, vault: Token, amount: u64): Result<PoolState> {
    var balance :- TransferIn(Classic, amount, if vault == Token0 then s.vault0 else s.vault1, amount);
    Success(if vault == Token0 then s.(vault0 := balance) else s.(vault1 := balance))
  }

  /** A holder burns LP tokens without withdrawing. */
  function BurnLp(s: PoolState, amount: u64): Result<PoolState> {
    var lpMint :- Burn(s.lpMint, s.lpMint, amount);
    Success(s.(lpMint := lpMint))
  }

  // ----- Runs -----

  datatype Instruction =
    | DepositIx(ctx: Context, lpAmount: u64, maximum0: u64, maximum1: u64)
    | WithdrawIx(ctx: Context, ownerLp: u64, lpAmount: u64, minimum0: u64, minimum1: u64)
    | SwapInIx(ctx: Context, inputVault: Token, outputVault: Token, amountIn: u64, minimumOut: u64)
    | SwapOutIx(ctx: Context, inputVault: Token, outputVault: Token, maximumIn: u64, amountOut: u64)
    | CollectProtocolIx(requested0: u64, requested1: u64)
    | CollectFundIx(requested0: u64, requested1: u64)
    | CollectCreatorIx
    | UpdateConfigIx(param: nat, value: u64, key: AmmConfig.RemainingKey)
    | UpdateStatusIx(newStatus: nat)
    | DonateIx(vault: Token, amount: u64)
    | BurnLpIx(amount: u64)

  function Step(s: PoolState, ix: Instruction): Result<PoolState> {
    match ix
    case DepositIx(ctx, lpAmount, maximum0, maximum1) => Deposit(s, ctx, lpAmount, maximum0, maximum1)
    case WithdrawIx(ctx, ownerLp, lpAmount, minimum0, minimum1) =>
      Withdraw(s, ctx, ownerLp, lpAmount, minimum0, minimum1)
    case SwapInIx(ctx, inputVault, outputVault, amountIn, minimumOut) =>
      SwapIn(s, ctx, inputVault, outputVault, amountIn, minimumOut)
    case SwapOutIx(ctx, inputVault, outputVault, maximumIn, amountOut) =>
      SwapOut(s, ctx, inputVault, outputVault, maximumIn, amountOut)
    case CollectProtocolIx(requested0, requested1) => CollectProtocolFee(s, requested0, requested1)
    case CollectFundIx(requested0, requested1) => CollectFundFee(s, requested0, requested1)
    case CollectCreatorIx => CollectCreatorFee(s)
    case UpdateConfigIx(param, value, key) =>
      var rates :- AmmConfig.Update(s.rates, param, value, key);
      Success(s.(rates := rates))
    case UpdateStatusIx(newStatus) => Success(s.(status := newStatus))
    case DonateIx(vault, amount) => Donate(s, vault, amount)
    case BurnLpIx(amount) => BurnLp(s, amount)
  }

  function Next(s: PoolState, ix: Instruction): PoolState {
    match Step(s, ix)
    case Success(s') => s'
    case Failure(_) => s
  }

  function Run(s: PoolState, ixs: seq<Instruction>): PoolState {
    if ixs == [] then s else Next(Run(s, ixs[..|ixs| - 1]), ixs[|ixs| - 1])
  }
}
