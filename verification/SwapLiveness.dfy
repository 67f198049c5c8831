/** When swaps succeed: the checks that guard against impossible states never fire, so what is left
    are conditions a trader can read off before calling. */
module SwapLiveness {
  import opened Machine
  import opened Outcomes
  import opened Errors
  import opened Tokens
  import opened Fees
  import opened ConstantProduct
  import opened Calculator
  import opened QuoteLaws
  import opened Pool
  import opened PoolSteps
  import opened PoolInvariant
  import Oracle

  /** The seconds the next update would add to the price integrals. */
  function Pending(o: Oracle.OracleState, now: u64): u64
    requires o.index < |o.observations|
  {
    var last := o.observations[o.index].timestamp;
    if !o.initialized || now <= last then 0
    else Oracle.SaturatingSub(now, if o.lastUpdate == 0 then last else o.lastUpdate)
  }

  /** An update overflows exactly when a price times the seconds it adds leaves a u128; with pool
      prices and timestamps below 2^32 it never does. */
  lemma OracleAcceptsIff(o: Oracle.OracleState, now: u64, price0: u128, price1: u128)
    requires o.index < |o.observations| == Oracle.OBSERVATION_NUM
    ensures Oracle.Update(o, now, price0, price1).Success? <==>
            price0 * Pending(o, now) <= U128_MAX && price1 * Pending(o, now) <= U128_MAX
    ensures now < TIME_BOUND && price0 <= U64_MAX * Q32 && price1 <= U64_MAX * Q32 ==>
              Oracle.Update(o, now, price0, price1).Success?
  {
    hide Oracle.WrappingAdd;
    var since := Pending(o, now);
    if now < TIME_BOUND && price0 <= U64_MAX * Q32 && price1 <= U64_MAX * Q32 {
      MulBound(price0, since, U64_MAX * Q32, TIME_BOUND);
      MulBound(price1, since, U64_MAX * Q32, TIME_BOUND);
    }
  }

  /** The oracle has room for the pool's prices over the seconds since its last update. */
  predicate OracleReady(s: PoolState, now: u64) {
    && s.oracle.index < |s.oracle.observations|
    && Reserve(s, Token0) > 0 && Reserve(s, Token1) > 0
    && Reserve(s, Token1) * Q32 / Reserve(s, Token0) * Pending(s.oracle, now) <= U128_MAX
    && Reserve(s, Token0) * Q32 / Reserve(s, Token1) * Pending(s.oracle, now) <= U128_MAX
  }

  /** A sound pool's oracle takes every price while timestamps are below 2^32. */
  lemma OracleReadyBelowBound(s: PoolState, now: u64)
    requires Sound(s) && now < TIME_BOUND
    ensures OracleReady(s, now)
  {
    hide Oracle.Update, Pending, TokenPriceX32, Reserve, ReserveProduct;
    ReservesPositive(s);
    PricesDefinedIffReservesPositive(s);
    var (p0, p1) := TokenPriceX32(s).value;
    OracleAcceptsIff(s.oracle, now, p0, p1);
  }

  // ----- Open or closed -----

  /** A swap is refused as not approved exactly while the pool's third status bit is set or its opening
      time has not come, whatever else may be wrong with it. */
  lemma SwapInNotApprovedIff(s: PoolState, ctx: Context, inputVault: Token, outputVault: Token,
                             amountIn: u64, minimumOut: u64)
    ensures SwapIn(s, ctx, inputVault, outputVault, amountIn, minimumOut) == Failure(NotApproved) <==>
            s.status / 4 % 2 == 1 || ctx.now < s.openTime
  {
    hide SwapBaseInput, GetSwapParams, Settle, CheckedMul;
    ParamsErrors(s, inputVault, outputVault);
    forall params: SwapParams, q: SwapResult, before: u128, after: u128, sent: u64, paid: u64
      ensures Settle(s, ctx, params, q, before, after, sent, paid) != Failure(NotApproved) {
      SettleErrors(s, ctx, params, q, before, after, sent, paid);
    }
  }

  /** An exact-out swap likewise, after the amount has been checked to be positive. */
  lemma SwapOutNotApprovedIff(s: PoolState, ctx: Context, inputVault: Token, outputVault: Token,
                              maximumIn: u64, amountOut: u64)
    ensures SwapOut(s, ctx, inputVault, outputVault, maximumIn, amountOut) == Failure(NotApproved) <==>
            amountOut > 0 && (s.status / 4 % 2 == 1 || ctx.now < s.openTime)
  {
    hide SwapBaseOutput, GetSwapParams, Settle, CheckedMul;
    ParamsErrors(s, inputVault, outputVault);
    forall params: SwapParams, q: SwapResult, before: u128, after: u128, sent: u64, paid: u64
      ensures Settle(s, ctx, params, q, before, after, sent, paid) != Failure(NotApproved) {
      SettleErrors(s, ctx, params, q, before, after, sent, paid);
    }
  }

  lemma ParamsErrors(s: PoolState, inputVault: Token, outputVault: Token)
    ensures GetSwapParams(s, inputVault, outputVault) != Failure(NotApproved)
  {
    hide PriceX32;
  }

  lemma SettleErrors(s: PoolState, ctx: Context, params: SwapParams, q: SwapResult,
                     before: u128, after: u128, sent: u64, paid: u64)
    ensures Settle(s, ctx, params, q, before, after, sent, paid) != Failure(NotApproved)
  {
    hide Oracle.Update, UpdateFees;
    OracleErrors(s.oracle, ctx.now, params.price0, params.price1);
    if q.protocolFee <= U64_MAX && q.fundFee <= U64_MAX && q.creatorFee <= U64_MAX {
      BookingErrors(s, q.protocolFee, q.fundFee, q.creatorFee, params.direction);
    }
  }

  lemma OracleErrors(o: Oracle.OracleState, now: u64, price0: u128, price1: u128)
    ensures Oracle.Update(o, now, price0, price1) != Failure(NotApproved)
    ensures o.index < |o.observations| == Oracle.OBSERVATION_NUM && Oracle.Update(o, now, price0, price1).Failure? ==>
              Oracle.Update(o, now, price0, price1) == Failure(MathOverflow)
  {
    hide Oracle.WrappingAdd;
  }

  lemma BookingErrors(s: PoolState, protocolFee: u64, fundFee: u64, creatorFee: u64, direction: TradeDirection)
    ensures UpdateFees(s, protocolFee, fundFee, creatorFee, direction) != Failure(NotApproved)
  {
  }

  /** A created pool takes swaps from exactly its opening time on: the time asked for, or one second
      after its creation when that is not in the future. */
  lemma CreatedPoolOpens(creation: Context, rates: FeeRates, amount0: u64, amount1: u64, openTime: u64,
                         creatorFeeOn: CreatorFeeOn, enableCreatorFee: bool,
                         ctx: Context, inputVault: Token, outputVault: Token, amountIn: u64, minimumOut: u64)
    requires rates.Valid()
    requires Initialize(creation, rates, amount0, amount1, openTime, creatorFeeOn, enableCreatorFee).Success?
    ensures var s := Initialize(creation, rates, amount0, amount1, openTime, creatorFeeOn, enableCreatorFee).value;
            SwapIn(s, ctx, inputVault, outputVault, amountIn, minimumOut) != Failure(NotApproved) <==>
            if openTime > creation.now then ctx.now >= openTime else ctx.now > creation.now
  {
    hide Initialize, SwapIn, Sound;
    InitializeIsSound(creation, rates, amount0, amount1, openTime, creatorFeeOn, enableCreatorFee);
    var s := Initialize(creation, rates, amount0, amount1, openTime, creatorFeeOn, enableCreatorFee).value;
    SwapInNotApprovedIff(s, ctx, inputVault, outputVault, amountIn, minimumOut);
  }

  // ----- Settlement -----

  /** What a quote must satisfy for its settlement to depend on the input vault's and the oracle's room alone. */
  predicate Settleable(s: PoolState, params: SwapParams, q: SwapResult) {
    var x, y := Reserve(s, InputToken(params.direction)), Reserve(s, OutputToken(params.direction));
    && params.creatorFeeOnInput == IsCreatorFeeOnInput(s.creatorFeeOn, params.direction)
    && Reserve(s, Token0) > 0 && Reserve(s, Token1) > 0
    && params.price0 == Reserve(s, Token1) * Q32 / Reserve(s, Token0)
    && params.price1 == Reserve(s, Token0) * Q32 / Reserve(s, Token1)
    && Balanced(q, x, y, params.creatorFeeOnInput)
    && x <= q.newInputVault
    && q.inputAmount <= U64_MAX
    && (s.enableCreatorFee || q.creatorFee == 0)
  }

  lemma UpdateFeesSucceeds(s: PoolState, q: SwapResult, direction: TradeDirection)
    requires Solvent(s)
    requires Balanced(q, Reserve(s, InputToken(direction)), Reserve(s, OutputToken(direction)),
                      IsCreatorFeeOnInput(s.creatorFeeOn, direction))
    requires Reserve(s, InputToken(direction)) <= q.newInputVault
    requires s.enableCreatorFee || q.creatorFee == 0
    requires Vault(s, InputToken(direction)) + q.inputAmount <= U64_MAX
    ensures q.protocolFee <= U64_MAX && q.fundFee <= U64_MAX && q.creatorFee <= U64_MAX && q.tradeFee <= U64_MAX
    ensures UpdateFees(s, q.protocolFee, q.fundFee, q.creatorFee, direction).Success?
  {
  }

  /** Settlement fails only when the payer lacks the tokens or the input vault or the oracle the room. */
  lemma SettleSucceeds(s: PoolState, ctx: Context, params: SwapParams, q: SwapResult,
                       before: u128, after: u128, sent: u64, paid: u64)
    requires Sound(s) && Settleable(s, params, q) && before <= after
    requires Received(MintOf(ctx, InputToken(params.direction)), sent) == q.inputAmount && paid == q.outputAmount
    ensures Settle(s, ctx, params, q, before, after, sent, paid).Success? <==>
            && sent <= PayerOf(ctx, InputToken(params.direction))
            && Vault(s, InputToken(params.direction)) + q.inputAmount <= U64_MAX
            && OracleReady(s, ctx.now)
    ensures var r := Settle(s, ctx, params, q, before, after, sent, paid);
            r.Failure? && Vault(s, InputToken(params.direction)) + q.inputAmount <= U64_MAX ==>
              r.error == if sent <= PayerOf(ctx, InputToken(params.direction)) then MathOverflow else TokenProgram
  {
    hide Oracle.Update, UpdateFees, Pending, ReserveProduct;
    OracleAcceptsIff(s.oracle, ctx.now, params.price0, params.price1);
    OracleErrors(s.oracle, ctx.now, params.price0, params.price1);
    if Vault(s, InputToken(params.direction)) + q.inputAmount <= U64_MAX {
      UpdateFeesSucceeds(s, q, params.direction);
      UpdateFeesEffect(s, q.protocolFee, q.fundFee, q.creatorFee, params.direction);
    }
  }

  lemma NoCreatorRateNoFee(rates: FeeRates, q: SwapResult, onInput: bool, swapped: nat)
    requires rates.Valid() && Splittable(rates, onInput) && FeesMatch(q, rates, onInput, swapped)
    requires rates.creator == 0 && (onInput || q.outputAmount == swapped)
    ensures q.creatorFee == 0
  {
  }

  lemma ExactInSettleable(s: PoolState, ctx: Context, inputVault: Token, outputVault: Token, actualIn: u64)
    requires Sound(s) && inputVault != outputVault
    ensures var onInput := IsCreatorFeeOnInput(s.creatorFeeOn, DirectionOf(inputVault));
            var r := SwapBaseInput(actualIn, Reserve(s, inputVault), Reserve(s, outputVault), SwapRates(s), onInput);
            && (r.Some? <==> Splittable(SwapRates(s), onInput))
            && (r.Some? ==>
                  && GetSwapParams(s, inputVault, outputVault).Success?
                  && Settleable(s, GetSwapParams(s, inputVault, outputVault).value, r.value)
                  && GuardPasses(r.value, Reserve(s, inputVault), Reserve(s, outputVault))
                  && r.value.inputAmount == actualIn
                  && r.value.outputAmount <= U64_MAX)
            && (!r.Some? ==> r == None)
  {
    hide SwapBaseInput, GetSwapParams, TokenPriceX32, Net, CurveOut, FeesMatch, GuardPasses, ReserveProduct;
    ReservesPositive(s);
    SwapRatesValid(s);
    SwapParamsValue(s, inputVault, outputVault);
    PricesDefinedIffReservesPositive(s);
    var x, y, rates := Reserve(s, inputVault), Reserve(s, outputVault), SwapRates(s);
    var onInput := IsCreatorFeeOnInput(s.creatorFeeOn, DirectionOf(inputVault));
    SwapBaseInputValue(actualIn, x, y, rates, onInput);
    var r := SwapBaseInput(actualIn, x, y, rates, onInput);
    if r.Some? {
      var out := CurveOut(Net(actualIn, InputRate(rates, onInput)), x, y);
      ExactInBalanced(actualIn, x, y, rates, onInput);
      GuardAcceptsExactIn(actualIn, x, y, rates, onInput);
      NetBounds(out, 0);
      if !s.enableCreatorFee { NoCreatorRateNoFee(rates, r.value, onInput, out); }
    }
  }

  /** What leaves the output vault for a credited input: the input less its fee, through the curve,
      less the fee on the output. */
  function Output(s: PoolState, inputVault: Token, outputVault: Token, credited: u64): (o: u64)
    requires s.rates.Valid() && Reserve(s, Token0) > 0 && Reserve(s, Token1) > 0
    ensures o < Reserve(s, outputVault)
  {
    var x, y := Reserve(s, inputVault), Reserve(s, outputVault);
    var onInput := IsCreatorFeeOnInput(s.creatorFeeOn, DirectionOf(inputVault));
    var inRate, outRate := InputRate(SwapRates(s), onInput), OutputRate(SwapRates(s), onInput);
    NetBounds(credited, inRate);
    var net := Net(credited, inRate);
    CurveOutBounds(net, x, y);
    NetBounds(CurveOut(net, x, y), outRate);
    Net(CurveOut(net, x, y), outRate)
  }

  /** An exact-in swap on a sound pool succeeds exactly when swapping is open, the vaults differ,
      something arrives, the payer has it, the creator fee can be split, the output after its transfer
      fee is positive and meets the trader's minimum, and the input vault and the oracle have room.
      No unwrap, product guard or other overflow check ever stops it. */
  lemma SwapInSucceedsIff(s: PoolState, ctx: Context, inputVault: Token, outputVault: Token,
                          amountIn: u64, minimumOut: u64)
    requires Sound(s)
    ensures Reserve(s, Token0) > 0 && Reserve(s, Token1) > 0
    ensures SwapIn(s, ctx, inputVault, outputVault, amountIn, minimumOut).Success? <==>
            var actualIn := Received(MintOf(ctx, inputVault), amountIn);
            var received := Received(MintOf(ctx, outputVault), Output(s, inputVault, outputVault, actualIn));
            && SwapOpen(s, ctx.now) && OracleReady(s, ctx.now)
            && inputVault != outputVault
            && 0 < actualIn && amountIn <= PayerOf(ctx, inputVault)
            && Splittable(SwapRates(s), IsCreatorFeeOnInput(s.creatorFeeOn, DirectionOf(inputVault)))
            && Vault(s, inputVault) + actualIn <= U64_MAX
            && received > 0 && received >= minimumOut
    ensures inputVault != outputVault ==>
              var q := QuoteIn(s, ctx, inputVault, outputVault, amountIn);
              && (q.Some? <==> Splittable(SwapRates(s), IsCreatorFeeOnInput(s.creatorFeeOn, DirectionOf(inputVault))))
              && (q.Some? ==> q.value.outputAmount ==
                              Output(s, inputVault, outputVault, Received(MintOf(ctx, inputVault), amountIn)))
  {
    hide SwapBaseInput, GetSwapParams, Settle, Settleable, Splittable, TokenPriceX32, ReserveProduct,
         OracleReady, SwapOpen, Output, Received;
    ReservesPositive(s);
    SwapParamsValue(s, inputVault, outputVault);
    if inputVault != outputVault {
      var actualIn := Received(MintOf(ctx, inputVault), amountIn);
      ExactInSettleable(s, ctx, inputVault, outputVault, actualIn);
      var r := QuoteIn(s, ctx, inputVault, outputVault, amountIn);
      MulU64(Reserve(s, inputVault), Reserve(s, outputVault));
      if r.Some? {
        var q := r.value;
        QuotedOutput(s, inputVault, outputVault, actualIn);
        SettleSucceeds(s, ctx, GetSwapParams(s, inputVault, outputVault).value, q,
                       Reserve(s, inputVault) * Reserve(s, outputVault), q.newInputVault * q.newOutputVault,
                       amountIn, q.outputAmount);
      }
    }
  }

  /** How an exact-in swap on a sound pool ends, refusals in the order they are found. */
  lemma SwapInOutcome(s: PoolState, ctx: Context, inputVault: Token, outputVault: Token, amountIn: u64, minimumOut: u64)
    requires Sound(s)
    ensures Reserve(s, Token0) > 0 && Reserve(s, Token1) > 0
    ensures var actualIn := Received(MintOf(ctx, inputVault), amountIn);
            var received := Received(MintOf(ctx, outputVault), Output(s, inputVault, outputVault, actualIn));
            var r := SwapIn(s, ctx, inputVault, outputVault, amountIn, minimumOut);
            if s.status / 4 % 2 == 1 || ctx.now < s.openTime then r == Failure(NotApproved)
            else if actualIn == 0 then r == Failure(RequireViolated)
            else if inputVault == outputVault then r == Failure(InvalidVault)
            else if !Splittable(SwapRates(s), IsCreatorFeeOnInput(s.creatorFeeOn, DirectionOf(inputVault)))
              then r == Failure(ZeroTradingTokens)
            else if received == 0 then r == Failure(RequireViolated)
            else if received < minimumOut then r == Failure(ExceededSlippage)
            else if Vault(s, inputVault) + actualIn > U64_MAX then r.Failure? // a counter, or else the transfer
            else if amountIn > PayerOf(ctx, inputVault) then r == Failure(TokenProgram)
            else if !OracleReady(s, ctx.now) then r == Failure(MathOverflow)
            else r.Success?
  {
    hide SwapBaseInput, GetSwapParams, Settle, Settleable, Splittable, TokenPriceX32, ReserveProduct,
         OracleReady, Output, Received;
    ReservesPositive(s);
    SwapParamsValue(s, inputVault, outputVault);
    if inputVault != outputVault {
      var actualIn := Received(MintOf(ctx, inputVault), amountIn);
      ExactInSettleable(s, ctx, inputVault, outputVault, actualIn);
      var r := QuoteIn(s, ctx, inputVault, outputVault, amountIn);
      MulU64(Reserve(s, inputVault), Reserve(s, outputVault));
      if r.Some? {
        var q := r.value;
        QuotedOutput(s, inputVault, outputVault, actualIn);
        SettleSucceeds(s, ctx, GetSwapParams(s, inputVault, outputVault).value, q,
                       Reserve(s, inputVault) * Reserve(s, outputVault), q.newInputVault * q.newOutputVault,
                       amountIn, q.outputAmount);
      }
    }
  }

  lemma QuotedOutput(s: PoolState, inputVault: Token, outputVault: Token, credited: u64)
    requires Solvent(s) && s.rates.Valid() && Reserve(s, Token0) > 0 && Reserve(s, Token1) > 0
    ensures var r := SwapBaseInput(credited, Reserve(s, inputVault), Reserve(s, outputVault), SwapRates(s),
                                   IsCreatorFeeOnInput(s.creatorFeeOn, DirectionOf(inputVault)));
            r.Some? ==> r.value.outputAmount == Output(s, inputVault, outputVault, credited)
  {
    hide SwapBaseInput, CurveOut, Net;
    SwapRatesValid(s);
    SwapBaseInputValue(credited, Reserve(s, inputVault), Reserve(s, outputVault), SwapRates(s),
                       IsCreatorFeeOnInput(s.creatorFeeOn, DirectionOf(inputVault)));
  }

  lemma ExactOutSettleable(s: PoolState, inputVault: Token, outputVault: Token, paid: u64)
    requires Sound(s) && inputVault != outputVault
    requires var r := QuoteOut(s, inputVault, outputVault, paid); r.Some? && r.value.inputAmount <= U64_MAX
    ensures var q := QuoteOut(s, inputVault, outputVault, paid).value;
            && GetSwapParams(s, inputVault, outputVault).Success?
            && Settleable(s, GetSwapParams(s, inputVault, outputVault).value, q)
            && GuardPasses(q, Reserve(s, inputVault), Reserve(s, outputVault))
            && q.outputAmount == paid
  {
    hide SwapBaseOutput, GetSwapParams, TokenPriceX32, Net, CurveIn, Gross, FeesMatch, GuardPasses, ReserveProduct;
    ReservesPositive(s);
    SwapRatesValid(s);
    SwapParamsValue(s, inputVault, outputVault);
    PricesDefinedIffReservesPositive(s);
    var x, y, rates := Reserve(s, inputVault), Reserve(s, outputVault), SwapRates(s);
    var onInput := IsCreatorFeeOnInput(s.creatorFeeOn, DirectionOf(inputVault));
    var q := QuoteOut(s, inputVault, outputVault, paid).value;
    SwapBaseOutputValue(paid, x, y, rates, onInput);
    ExactOutBalanced(paid, x, y, rates, onInput);
    GuardAcceptsExactOut(paid, x, y, rates, onInput);
    GrossBounds(paid, 0);
    if !s.enableCreatorFee {
      ExactOutFees(paid, x, y, rates, onInput);
      NoCreatorRateNoFee(rates, q, onInput, Gross(paid, OutputRate(rates, onInput)));
    }
  }

  lemma ExactOutFees(o: u64, x: u64, y: u64, rates: FeeRates, onInput: bool)
    requires x > 0 && y > 0 && rates.Valid()
    requires SwapBaseOutput(o, x, y, rates, onInput).Some?
    requires SwapBaseOutput(o, x, y, rates, onInput).value.inputAmount <= U64_MAX
    ensures Splittable(rates, onInput)
    ensures FeesMatch(SwapBaseOutput(o, x, y, rates, onInput).value, rates, onInput,
                      Gross(o, OutputRate(rates, onInput)))
  {
    hide SwapBaseOutput, FeesMatch, Gross, CurveIn;
    SwapBaseOutputValue(o, x, y, rates, onInput);
  }

  /** Nothing comes out for nothing. */
  lemma ZeroReachesNothing(o: u64, x: u64, y: u64, rates: FeeRates, onInput: bool)
    requires x > 0 && y > 0 && rates.Valid() && o > 0
    ensures !Reaches(0, o, x, y, rates, onInput)
  {
    hide SwapBaseInput;
    SwapBaseInputValue(0, x, y, rates, onInput);
    NetBounds(0, InputRate(rates, onInput));
    CurveOutAdjoint(0, x, y, 1);
  }

  /** The most a trader can have the input vault credited with when mints charge nothing. */
  function Budget(s: PoolState, ctx: Context, inputVault: Token, maximumIn: u64): u64 {
    Min(Min(maximumIn, PayerOf(ctx, inputVault)), U64_MAX - Vault(s, inputVault))
  }

  /** An exact-in swap crediting `i` would buy at least `o`. */
  predicate WouldBuy(s: PoolState, inputVault: Token, outputVault: Token, i: u64, o: u64)
    requires Solvent(s)
  {
    Reaches(i, o, Reserve(s, inputVault), Reserve(s, outputVault), SwapRates(s),
            IsCreatorFeeOnInput(s.creatorFeeOn, DirectionOf(inputVault)))
  }

  /** `least` is the least credited input that buys `o`. */
  ghost predicate LeastToBuy(s: PoolState, inputVault: Token, outputVault: Token, least: u64, o: u64)
    requires Solvent(s)
  {
    forall i: u64 :: WouldBuy(s, inputVault, outputVault, i, o) <==> least <= i
  }

  lemma LeastIsQuoted(s: PoolState, inputVault: Token, outputVault: Token, least: u64, o: u64)
    requires Sound(s)
    ensures var quote := QuoteOut(s, inputVault, outputVault, o);
            LeastToBuy(s, inputVault, outputVault, least, o) <==> quote.Some? && quote.value.inputAmount == least
  {
    hide SwapBaseOutput, Reaches, ReserveProduct;
    ReservesPositive(s);
    SwapRatesValid(s);
    var quote := QuoteOut(s, inputVault, outputVault, o);
    forall i: u64 ensures WouldBuy(s, inputVault, outputVault, i, o) <==> quote.Some? && quote.value.inputAmount <= i {
      ExactInExactOutAdjoint(i, o, Reserve(s, inputVault), Reserve(s, outputVault), SwapRates(s),
                             IsCreatorFeeOnInput(s.creatorFeeOn, DirectionOf(inputVault)));
    }
    assert WouldBuy(s, inputVault, outputVault, least, o) <==> quote.Some? && quote.value.inputAmount <= least;
    if quote.Some? && quote.value.inputAmount < least {
      assert WouldBuy(s, inputVault, outputVault, quote.value.inputAmount, o);
    }
  }

  /** An exact-out swap on a sound pool succeeds exactly when swapping is open, the vaults differ,
      some amount is asked for and can be sent, the trader has and allows the least input that buys
      it, and the vault and the oracle have room; the input vault is then credited exactly that least input. */
  lemma SwapOutSucceedsIff(s: PoolState, ctx: Context, inputVault: Token, outputVault: Token, maximumIn: u64,
                           amountOut: u64)
    requires Sound(s)
    ensures var r := SwapOut(s, ctx, inputVault, outputVault, maximumIn, amountOut);
            var paid := AmountToSend(MintOf(ctx, outputVault), amountOut);
            && (r.Success? <==>
                  && SwapOpen(s, ctx.now) && OracleReady(s, ctx.now) && inputVault != outputVault && amountOut > 0
                  && paid.Success?
                  && exists least: u64 ::
                       && LeastToBuy(s, inputVault, outputVault, least, paid.value)
                       && CanCredit(MintOf(ctx, inputVault), PayerOf(ctx, inputVault), Vault(s, inputVault),
                                    least, maximumIn))
            && (r.Success? ==>
                  && Vault(r.value, outputVault) == Vault(s, outputVault) - paid.value
                  && Vault(r.value, inputVault) > Vault(s, inputVault)
                  && LeastToBuy(s, inputVault, outputVault, Vault(r.value, inputVault) - Vault(s, inputVault),
                                paid.value))
  {
    hide SwapOut, OracleReady, SwapOpen, LeastToBuy, CanCredit, AmountToSend, SwapBaseOutput, ReserveProduct, Vault;
    var r := SwapOut(s, ctx, inputVault, outputVault, maximumIn, amountOut);
    var sending := AmountToSend(MintOf(ctx, outputVault), amountOut);
    if inputVault != outputVault && amountOut > 0 && sending.Success? {
      var paid := sending.value;
      var quote := QuoteOut(s, inputVault, outputVault, paid);
      SwapOutSucceedsIfQuoted(s, ctx, inputVault, outputVault, maximumIn, amountOut, paid);
      forall least: u64 ensures LeastToBuy(s, inputVault, outputVault, least, paid) <==>
                                quote.Some? && quote.value.inputAmount == least {
        LeastIsQuoted(s, inputVault, outputVault, least, paid);
      }
      if r.Success? {
        assert LeastToBuy(s, inputVault, outputVault, quote.value.inputAmount, paid);
      }
    } else {
      SwapOutNeedsAmount(s, ctx, inputVault, outputVault, maximumIn, amountOut);
    }
  }

  lemma SwapOutNeedsAmount(s: PoolState, ctx: Context, inputVault: Token, outputVault: Token, maximumIn: u64,
                           amountOut: u64)
    requires Sound(s)
    requires inputVault == outputVault || amountOut == 0 || AmountToSend(MintOf(ctx, outputVault), amountOut).Failure?
    ensures SwapOut(s, ctx, inputVault, outputVault, maximumIn, amountOut).Failure?
  {
    hide AmountToSend, SwapBaseOutput, GetSwapParams, Settle, TokenPriceX32, ReserveProduct;
    SwapParamsValue(s, inputVault, outputVault);
  }

  /** The same with the least input read off the exact-out quote. */
  lemma SwapOutSucceedsIfQuoted(s: PoolState, ctx: Context, inputVault: Token, outputVault: Token,
                                maximumIn: u64, amountOut: u64, paid: u64)
    requires Sound(s) && inputVault != outputVault && amountOut > 0
    requires AmountToSend(MintOf(ctx, outputVault), amountOut) == Success(paid)
    ensures var r := SwapOut(s, ctx, inputVault, outputVault, maximumIn, amountOut);
            var quote := QuoteOut(s, inputVault, outputVault, paid);
            && (r.Success? <==>
                  && SwapOpen(s, ctx.now) && OracleReady(s, ctx.now)
                  && quote.Some? && quote.value.inputAmount <= U64_MAX
                  && CanCredit(MintOf(ctx, inputVault), PayerOf(ctx, inputVault), Vault(s, inputVault),
                               quote.value.inputAmount, maximumIn))
            && (r.Success? ==>
                  && quote.value.inputAmount > 0
                  && Vault(r.value, inputVault) == Vault(s, inputVault) + quote.value.inputAmount
                  && Vault(r.value, outputVault) == Vault(s, outputVault) - paid)
  {
    hide SwapBaseOutput, GetSwapParams, Settle, Settleable, TokenPriceX32, AmountToSend, OracleReady,
         ReserveProduct, Reaches, Swapped, Vault, Received;
    ReservesPositive(s);
    SwapRatesValid(s);
    SwapParamsValue(s, inputVault, outputVault);
    SendingDeliversExactly(MintOf(ctx, outputVault), amountOut);
    MulU64(Reserve(s, inputVault), Reserve(s, outputVault));
    var quote := QuoteOut(s, inputVault, outputVault, paid);
    if quote.Some? && quote.value.inputAmount <= U64_MAX {
      var q := quote.value;
      QuoteIsPositive(s, inputVault, outputVault, paid);
      ExactOutSettleable(s, inputVault, outputVault, paid);
      var sending := AmountToSend(MintOf(ctx, inputVault), q.inputAmount);
      if sending.Success? {
        SendingDeliversExactly(MintOf(ctx, inputVault), q.inputAmount);
        SettleSucceeds(s, ctx, GetSwapParams(s, inputVault, outputVault).value, q,
                       Reserve(s, inputVault) * Reserve(s, outputVault), q.newInputVault * q.newOutputVault,
                       sending.value, paid);
      }
      if SwapOut(s, ctx, inputVault, outputVault, maximumIn, amountOut).Success? {
        SwapOutMoves(s, ctx, inputVault, outputVault, maximumIn, amountOut);
      }
    }
  }

  lemma QuoteIsPositive(s: PoolState, inputVault: Token, outputVault: Token, paid: u64)
    requires Sound(s) && paid > 0
    requires QuoteOut(s, inputVault, outputVault, paid).Some?
    ensures QuoteOut(s, inputVault, outputVault, paid).value.inputAmount > 0
  {
    hide SwapBaseOutput, Reaches, ReserveProduct;
    ReservesPositive(s);
    SwapRatesValid(s);
    var x, y, rates := Reserve(s, inputVault), Reserve(s, outputVault), SwapRates(s);
    var onInput := IsCreatorFeeOnInput(s.creatorFeeOn, DirectionOf(inputVault));
    ExactInExactOutAdjoint(0, paid, x, y, rates, onInput);
    ZeroReachesNothing(paid, x, y, rates, onInput);
  }

  /** The vaults of a successful exact-out swap. */
  lemma SwapOutMoves(s: PoolState, ctx: Context, inputVault: Token, outputVault: Token, maximumIn: u64, amountOut: u64)
    requires Sound(s)
    requires SwapOut(s, ctx, inputVault, outputVault, maximumIn, amountOut).Success?
    requires AmountToSend(MintOf(ctx, outputVault), amountOut).Success?
    ensures var s' := SwapOut(s, ctx, inputVault, outputVault, maximumIn, amountOut).value;
            var paid := AmountToSend(MintOf(ctx, outputVault), amountOut).value;
            && QuoteOut(s, inputVault, outputVault, paid).Some?
            && Vault(s', inputVault) ==
               Vault(s, inputVault) + QuoteOut(s, inputVault, outputVault, paid).value.inputAmount
            && Vault(s', outputVault) == Vault(s, outputVault) - paid
  {
    hide SwapOut, SwapBaseOutput, RealInputReserve, Reserve, FeesOwed, AmountToSend;
    SwapOutMatchesQuote(s, ctx, inputVault, outputVault, maximumIn, amountOut);
    ReservesPositive(s);
    SwapRatesValid(s);
    ExactOutBalanced(AmountToSend(MintOf(ctx, outputVault), amountOut).value,
                     Reserve(s, inputVault), Reserve(s, outputVault), SwapRates(s),
                     IsCreatorFeeOnInput(s.creatorFeeOn, DirectionOf(inputVault)));
  }

  /** Between mints without transfer fees that reads: exact-out succeeds exactly when an exact-in
      swap of all the trader allows and has, and the vault can hold, would buy as much. */
  lemma ClassicSwapOutSucceedsIff(s: PoolState, ctx: Context, inputVault: Token, outputVault: Token,
                                  maximumIn: u64, amountOut: u64)
    requires Sound(s) && ctx.mint0 == Classic && ctx.mint1 == Classic
    ensures SwapOut(s, ctx, inputVault, outputVault, maximumIn, amountOut).Success? <==>
            && SwapOpen(s, ctx.now) && OracleReady(s, ctx.now) && inputVault != outputVault && amountOut > 0
            && WouldBuy(s, inputVault, outputVault, Budget(s, ctx, inputVault, maximumIn), amountOut)
  {
    hide SwapOut, SwapOpen, OracleReady, SwapBaseOutput, Reaches, ReserveProduct;
    SwapOutSucceedsIff(s, ctx, inputVault, outputVault, maximumIn, amountOut);
    ReservesPositive(s);
    SwapRatesValid(s);
    var budget := Budget(s, ctx, inputVault, maximumIn);
    ExactInExactOutAdjoint(budget, amountOut, Reserve(s, inputVault), Reserve(s, outputVault), SwapRates(s),
                           IsCreatorFeeOnInput(s.creatorFeeOn, DirectionOf(inputVault)));
    if WouldBuy(s, inputVault, outputVault, budget, amountOut) {
      var least := QuoteOut(s, inputVault, outputVault, amountOut).value.inputAmount;
      LeastIsQuoted(s, inputVault, outputVault, least, amountOut);
      assert CanCredit(MintOf(ctx, inputVault), PayerOf(ctx, inputVault), Vault(s, inputVault), least, maximumIn);
    }
  }
}
