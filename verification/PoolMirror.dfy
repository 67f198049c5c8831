/** Swaps do not care which token is called 0: relabelling the two commutes with both swap
    instructions, so the one-for-zero branches mirror the zero-for-one branches exactly. */
module PoolMirror {
  import opened Machine
  import opened Outcomes
  import opened Errors
  import opened Calculator
  import opened Pool
  import opened PoolSteps
  import Oracle
  import Tokens

  function Other(t: Token): Token {
    if t == Token0 then Token1 else Token0
  }

  function Opposite(direction: TradeDirection): TradeDirection {
    if direction == ZeroForOne then OneForZero else ZeroForOne
  }

  function MirrorFeeOn(feeOn: CreatorFeeOn): CreatorFeeOn {
    match feeOn
    case BothToken => BothToken
    case OnlyToken0 => OnlyToken1
    case OnlyToken1 => OnlyToken0
  }

  function MirrorObservation(o: Oracle.Observation): Oracle.Observation {
    Oracle.Observation(o.timestamp, o.cumulative1, o.cumulative0)
  }

  function MirrorOracle(o: Oracle.OracleState): Oracle.OracleState {
    o.(observations := seq(|o.observations|,
                           i requires 0 <= i < |o.observations| => MirrorObservation(o.observations[i])))
  }

  function MirrorContext(ctx: Context): Context {
    Context(ctx.now, ctx.mint1, ctx.mint0, ctx.payer1, ctx.payer0)
  }

  function MirrorParams(params: SwapParams): SwapParams {
    SwapParams(Opposite(params.direction), params.inputReserve, params.outputReserve,
               params.price1, params.price0, params.creatorFeeOnInput)
  }

  function Mirror(s: PoolState): PoolState {
    PoolState(s.vault1, s.vault0, s.protocolFees1, s.protocolFees0, s.fundFees1, s.fundFees0,
              s.creatorFees1, s.creatorFees0, s.lpSupply, s.lpMint, MirrorFeeOn(s.creatorFeeOn),
              s.enableCreatorFee, s.status, s.openTime, s.rates, MirrorOracle(s.oracle))
  }

  function MirrorResult(r: Result<PoolState>): Result<PoolState> {
    match r
    case Success(s) => Success(Mirror(s))
    case Failure(e) => Failure(e)
  }

  lemma OracleMirrors(o: Oracle.OracleState, now: u64, price0: u128, price1: u128)
    ensures Oracle.Update(MirrorOracle(o), now, price1, price0) ==
            match Oracle.Update(o, now, price0, price1)
            case Success(o') => Success(MirrorOracle(o'))
            case Failure(e) => Failure(e)
  {
    hide Oracle.WrappingAdd;
    var r, m := Oracle.Update(o, now, price0, price1), Oracle.Update(MirrorOracle(o), now, price1, price0);
    if r.Success? {
      assert m.value.observations == MirrorOracle(r.value).observations;
    }
  }

  lemma PricesMirror(s: PoolState)
    ensures VaultAmountWithoutFee(Mirror(s)) ==
            match VaultAmountWithoutFee(s)
            case Success((a, b)) => Success((b, a))
            case Failure(e) => Failure(e)
    ensures TokenPriceX32(Mirror(s)) ==
            match TokenPriceX32(s)
            case Success((a, b)) => Success((b, a))
            case Failure(e) => Failure(e)
  {
    hide PriceX32;
    if VaultAmountWithoutFee(s).Success? {
      var (a, b) := VaultAmountWithoutFee(s).value;
      PriceX32Value(a, b);
      PriceX32Value(b, a);
    }
  }

  lemma ParamsMirror(s: PoolState, inputVault: Token, outputVault: Token)
    ensures GetSwapParams(Mirror(s), Other(inputVault), Other(outputVault)) ==
            match GetSwapParams(s, inputVault, outputVault)
            case Success(params) => Success(MirrorParams(params))
            case Failure(e) => Failure(e)
  {
    hide VaultAmountWithoutFee, TokenPriceX32;
    PricesMirror(s);
  }

  lemma UpdateFeesMirrors(s: PoolState, protocolFee: u64, fundFee: u64, creatorFee: u64, direction: TradeDirection)
    ensures UpdateFees(Mirror(s), protocolFee, fundFee, creatorFee, Opposite(direction)) ==
            MirrorResult(UpdateFees(s, protocolFee, fundFee, creatorFee, direction))
  {
    hide MirrorOracle;
  }

  lemma SettleMirrors(s: PoolState, ctx: Context, params: SwapParams, q: SwapResult,
                      before: u128, after: u128, sent: u64, paid: u64)
    ensures Settle(Mirror(s), MirrorContext(ctx), MirrorParams(params), q, before, after, sent, paid) ==
            MirrorResult(Settle(s, ctx, params, q, before, after, sent, paid))
  {
    hide UpdateFees, Oracle.Update, MirrorOracle;
    OracleMirrors(s.oracle, ctx.now, params.price0, params.price1);
    if q.protocolFee <= U64_MAX && q.fundFee <= U64_MAX && q.creatorFee <= U64_MAX {
      UpdateFeesMirrors(s, q.protocolFee, q.fundFee, q.creatorFee, params.direction);
    }
  }

  lemma MirrorFields(s: PoolState, ctx: Context, t: Token)
    ensures SwapRates(Mirror(s)) == SwapRates(s)
    ensures MirrorContext(ctx).now == ctx.now
    ensures SwapOpen(Mirror(s), ctx.now) == SwapOpen(s, ctx.now)
    ensures MintOf(MirrorContext(ctx), Other(t)) == MintOf(ctx, t)
  {
    hide MirrorOracle, Approved;
  }

  /** Relabelling the tokens commutes with an exact-in swap, errors included. */
  lemma SwapInMirrors(s: PoolState, ctx: Context, inputVault: Token, outputVault: Token, amountIn: u64, minimumOut: u64)
    ensures SwapIn(Mirror(s), MirrorContext(ctx), Other(inputVault), Other(outputVault), amountIn, minimumOut) ==
            MirrorResult(SwapIn(s, ctx, inputVault, outputVault, amountIn, minimumOut))
  {
    hide GetSwapParams, Settle, SwapBaseInput, Mirror, MirrorContext, Other, SwapRates, SwapOpen, MintOf, CheckedMul,
         Tokens.Received;
    MirrorFields(s, ctx, inputVault);
    MirrorFields(s, ctx, outputVault);
    ParamsMirror(s, inputVault, outputVault);
    if GetSwapParams(s, inputVault, outputVault).Success? {
      var params := GetSwapParams(s, inputVault, outputVault).value;
      var before := CheckedMul(params.inputReserve, params.outputReserve);
      var q := SwapBaseInput(Tokens.Received(MintOf(ctx, inputVault), amountIn), params.inputReserve,
                             params.outputReserve, SwapRates(s), params.creatorFeeOnInput);
      if before.Some? && q.Some? && q.value.outputAmount <= U64_MAX {
        var after := CheckedMul(q.value.newInputVault, q.value.newOutputVault);
        if after.Some? {
          SettleMirrors(s, ctx, params, q.value, before.value, after.value, amountIn, q.value.outputAmount);
        }
      }
    }
  }

  /** And with an exact-out swap. */
  lemma SwapOutMirrors(s: PoolState, ctx: Context, inputVault: Token, outputVault: Token, maximumIn: u64,
                       amountOut: u64)
    ensures SwapOut(Mirror(s), MirrorContext(ctx), Other(inputVault), Other(outputVault), maximumIn, amountOut) ==
            MirrorResult(SwapOut(s, ctx, inputVault, outputVault, maximumIn, amountOut))
  {
    hide GetSwapParams, Settle, SwapBaseOutput, Mirror, MirrorContext, Other, SwapRates, SwapOpen, MintOf, CheckedMul,
         Tokens.AmountToSend;
    MirrorFields(s, ctx, inputVault);
    MirrorFields(s, ctx, outputVault);
    ParamsMirror(s, inputVault, outputVault);
    var paid := Tokens.AmountToSend(MintOf(ctx, outputVault), amountOut);
    if paid.Success? && GetSwapParams(s, inputVault, outputVault).Success? {
      var params := GetSwapParams(s, inputVault, outputVault).value;
      var before := CheckedMul(params.inputReserve, params.outputReserve);
      var q := SwapBaseOutput(paid.value, params.inputReserve, params.outputReserve, SwapRates(s),
                              params.creatorFeeOnInput);
      if before.Some? && q.Some? && q.value.inputAmount <= U64_MAX {
        var after := CheckedMul(q.value.newInputVault, q.value.newOutputVault);
        var sent := Tokens.AmountToSend(MintOf(ctx, inputVault), q.value.inputAmount);
        if after.Some? && sent.Success? {
          SettleMirrors(s, ctx, params, q.value, before.value, after.value, sent.value, paid.value);
        }
      }
    }
  }
}
