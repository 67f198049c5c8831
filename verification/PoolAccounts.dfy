/** The pool program on its accounts: each instruction updates them one by one, as the program does,
    and is proved against its step on the pool state. */
module PoolAccounts {
  import opened Machine
  import opened Rounding
  import opened Outcomes
  import opened Errors
  import opened Tokens
  import opened ConstantProduct
  import opened Calculator
  import opened Pool
  import AmmConfig
  import Oracle
  import Steps = PoolSteps
  import Invariant = PoolInvariant
  import PoolRun

  class Accounts {
    var vault0: u64
    var vault1: u64
    var protocolFees0: u64
    var protocolFees1: u64
    var fundFees0: u64
    var fundFees1: u64
    var creatorFees0: u64
    var creatorFees1: u64
    var lpSupply: u64
    var lpMint: u64
    var creatorFeeOn: CreatorFeeOn
    var enableCreatorFee: bool
    var status: nat
    var openTime: u64
    const config: AmmConfig.AmmConfigAccount
    const oracle: Oracle.ObservationState

    ghost predicate Valid()
      reads this, oracle
    {
      oracle.Valid()
    }

    /** The accounts as loaded by an instruction. */
    function State(): PoolState
      reads this, config, oracle, oracle.observations
    {
      PoolState(vault0, vault1, protocolFees0, protocolFees1, fundFees0, fundFees1, creatorFees0, creatorFees1,
                lpSupply, lpMint, creatorFeeOn, enableCreatorFee, status, openTime,
                config.Rates(), oracle.Value())
    }

    constructor (config: AmmConfig.AmmConfigAccount, oracle: Oracle.ObservationState, vault0: u64, vault1: u64,
                 lpSupply: u64, lpMint: u64, openTime: u64, creatorFeeOn: CreatorFeeOn, enableCreatorFee: bool)
      requires oracle.Valid()
      ensures Valid() && this.config == config && this.oracle == oracle
      ensures State() == PoolState(vault0, vault1, 0, 0, 0, 0, 0, 0, lpSupply, lpMint, creatorFeeOn, enableCreatorFee,
                                   0, openTime, config.Rates(), oracle.Value())
    {
      this.config, this.oracle := config, oracle;
      this.vault0, this.vault1 := vault0, vault1;
      protocolFees0, protocolFees1, fundFees0, fundFees1, creatorFees0, creatorFees1 := 0, 0, 0, 0, 0, 0;
      this.lpSupply, this.lpMint := lpSupply, lpMint;
      this.creatorFeeOn, this.enableCreatorFee := creatorFeeOn, enableCreatorFee;
      status, this.openTime := 0, openTime;
    }

    /** `initialize` and `initialize_with_permission`, which differ in the last two arguments. */
    static method Initialize(ctx: Steps.Context, config: AmmConfig.AmmConfigAccount, amount0: u64, amount1: u64,
                             openTime: u64, creatorFeeOn: CreatorFeeOn, enableCreatorFee: bool)
      returns (r: Result<Accounts>)
      ensures match Steps.Initialize(ctx, config.Rates(), amount0, amount1, openTime, creatorFeeOn, enableCreatorFee)
              case Success(s) => r.Success? && fresh(r.value) && r.value.Valid() && r.value.State() == s
              case Failure(e) => r == Failure(e)
    {
      var opens := openTime;
      if opens <= ctx.now {
        opens :- Unwrap(Plus64(ctx.now, 1));
      }
      var vault0 :- TransferIn(ctx.mint0, ctx.payer0, 0, amount0);
      var vault1 :- TransferIn(ctx.mint1, ctx.payer1, 0, amount1);
      var _ :- Require(vault0 != 0 && vault1 != 0, EmptySupply);
      var product :- Unwrap(CheckedMul(vault0, vault1));
      Steps.RootFits(product);
      var liquidity :- Unwrap(ToU64(IntegerSqrt(product)));
      var minted :- OkOr(CheckedSub64(liquidity, Steps.LOCKED_LP), InitLpAmountTooLess);
      var oracle := new Oracle.ObservationState();
      var pool := new Accounts(config, oracle, vault0, vault1, liquidity, minted, opens, creatorFeeOn,
                               enableCreatorFee);
      return Success(pool);
    }

    method Deposit(ctx: Steps.Context, lpAmount: u64, maximum0: u64, maximum1: u64) returns (r: Result<()>)
      modifies this
      ensures match Steps.Deposit(old(State()), ctx, lpAmount, maximum0, maximum1)
              case Success(s) => r.Success? && State() == s
              case Failure(e) => r == Failure(e)
    {
      hide VaultAmountWithoutFee, LpTokensToTradingTokens, AmountToSend, Approved, TransferIn, MintTo, CheckedAdd64;
      var _ :- Require(lpAmount > 0, RequireViolated);
      var _ :- Require(Approved(status, DepositBit), NotApproved);
      var reserves :- VaultAmountWithoutFee(State());
      var tokens :- OkOr(LpTokensToTradingTokens(lpAmount, lpSupply, reserves.0, reserves.1, Ceiling),
                         ZeroTradingTokens);
      var _ :- Require(tokens.token0 != 0 && tokens.token1 != 0, ZeroTradingTokens);
      var amount0 :- Unwrap(ToU64(tokens.token0));
      var sent0 :- AmountToSend(ctx.mint0, amount0);
      var amount1 :- Unwrap(ToU64(tokens.token1));
      var sent1 :- AmountToSend(ctx.mint1, amount1);
      var _ :- Require(sent0 <= maximum0 && sent1 <= maximum1, ExceededSlippage);
      vault0 :- TransferIn(ctx.mint0, ctx.payer0, vault0, sent0);
      vault1 :- TransferIn(ctx.mint1, ctx.payer1, vault1, sent1);
      lpSupply :- Unwrap(CheckedAdd64(lpSupply, lpAmount));
      lpMint :- MintTo(lpMint, lpAmount);
      return Success(());
    }

    method Withdraw(ctx: Steps.Context, ownerLp: u64, lpAmount: u64, minimum0: u64, minimum1: u64)
      returns (r: Result<()>)
      modifies this
      ensures match Steps.Withdraw(old(State()), ctx, ownerLp, lpAmount, minimum0, minimum1)
              case Success(s) => r.Success? && State() == s
              case Failure(e) => r == Failure(e)
    {
      hide VaultAmountWithoutFee, LpTokensToTradingTokens, Approved, TransferOut, Burn, Received, CheckedSub64;
      var _ :- Require(lpAmount > 0, RequireViolated);
      var _ :- Require(ownerLp >= lpAmount, RequireViolated);
      var _ :- Require(Approved(status, WithdrawBit), NotApproved);
      var reserves :- VaultAmountWithoutFee(State());
      var tokens :- OkOr(LpTokensToTradingTokens(lpAmount, lpSupply, reserves.0, reserves.1, Floor), ZeroTradingTokens);
      var _ :- Require(tokens.token0 != 0 && tokens.token1 != 0, ZeroTradingTokens);
      var amount0 :- Unwrap(ToU64(tokens.token0));
      amount0 := Steps.Min(reserves.0, amount0);
      var amount1 :- Unwrap(ToU64(tokens.token1));
      amount1 := Steps.Min(reserves.1, amount1);
      var received0 := Received(ctx.mint0, amount0);
      var received1 := Received(ctx.mint1, amount1);
      var _ :- Require(received0 >= minimum0 && received1 >= minimum1, ExceededSlippage);
      lpSupply :- Unwrap(CheckedSub64(lpSupply, lpAmount));
      lpMint :- Burn(lpMint, ownerLp, lpAmount);
      vault0 :- TransferOut(vault0, amount0);
      vault1 :- TransferOut(vault1, amount1);
      return Success(());
    }

    method UpdateFees(protocolFee: u64, fundFee: u64, creatorFee: u64, direction: TradeDirection)
      returns (r: Result<()>)
      modifies this
      ensures match Pool.UpdateFees(old(State()), protocolFee, fundFee, creatorFee, direction)
              case Success(s) => r.Success? && State() == s
              case Failure(e) => r == Failure(e)
    {
      var _ :- Require(enableCreatorFee || creatorFee == 0, RequireViolated);
      var onInput := IsCreatorFeeOnInput(creatorFeeOn, direction);
      match direction {
        case ZeroForOne =>
          protocolFees0 :- Unwrap(CheckedAdd64(protocolFees0, protocolFee));
          fundFees0 :- Unwrap(CheckedAdd64(fundFees0, fundFee));
          if onInput {
            creatorFees0 :- Unwrap(CheckedAdd64(creatorFees0, creatorFee));
          } else {
            creatorFees1 :- Unwrap(CheckedAdd64(creatorFees1, creatorFee));
          }
        case OneForZero =>
          protocolFees1 :- Unwrap(CheckedAdd64(protocolFees1, protocolFee));
          fundFees1 :- Unwrap(CheckedAdd64(fundFees1, fundFee));
          if onInput {
            creatorFees1 :- Unwrap(CheckedAdd64(creatorFees1, creatorFee));
          } else {
            creatorFees0 :- Unwrap(CheckedAdd64(creatorFees0, creatorFee));
          }
      }
      return Success(());
    }

    method Settle(ctx: Steps.Context, params: SwapParams, q: SwapResult, before: u128, after: u128, sent: u64,
                  paid: u64)
      returns (r: Result<()>)
      requires Valid()
      modifies this, oracle, oracle.observations
      ensures Valid() && oracle.observations == old(oracle.observations)
      ensures match Steps.Settle(old(State()), ctx, params, q, before, after, sent, paid)
              case Success(s) => r.Success? && State() == s
              case Failure(e) => r == Failure(e)
    {
      hide Pool.UpdateFees, Oracle.Update, TransferIn, TransferOut, Invariant.Booked;
      ghost var loaded := State();
      var protocolFee :- Unwrap(ToU64(q.protocolFee));
      var fundFee :- Unwrap(ToU64(q.fundFee));
      var creatorFee :- Unwrap(ToU64(q.creatorFee));
      var _ :- UpdateFees(protocolFee, fundFee, creatorFee, params.direction);
      Invariant.UpdateFeesEffect(loaded, protocolFee, fundFee, creatorFee, params.direction);
      var _ :- Unwrap(ToU64(q.tradeFee));
      var _ :- Require(after >= before, GuardViolated);
      match params.direction {
        case ZeroForOne =>
          vault0 :- TransferIn(ctx.mint0, ctx.payer0, vault0, sent);
          vault1 :- TransferOut(vault1, paid);
        case OneForZero =>
          vault1 :- TransferIn(ctx.mint1, ctx.payer1, vault1, sent);
          vault0 :- TransferOut(vault0, paid);
      }
      var _ :- oracle.UpdatePrice(ctx.now, params.price0, params.price1);
      return Success(());
    }

    method SwapBaseInput(ctx: Steps.Context, inputVault: Token, outputVault: Token, amountIn: u64, minimumOut: u64)
      returns (r: Result<()>)
      requires Valid()
      modifies this, oracle, oracle.observations
      ensures Valid() && oracle.observations == old(oracle.observations)
      ensures match Steps.SwapIn(old(State()), ctx, inputVault, outputVault, amountIn, minimumOut)
              case Success(s) => r.Success? && State() == s
              case Failure(e) => r == Failure(e)
    {
      hide Steps.Settle, GetSwapParams, Calculator.SwapBaseInput, CheckedMul, SwapRates;
      var _ :- Require(Steps.SwapOpen(State(), ctx.now), NotApproved);
      var actualIn := Received(Steps.MintOf(ctx, inputVault), amountIn);
      var _ :- Require(actualIn > 0, RequireViolated);
      var params :- GetSwapParams(State(), inputVault, outputVault);
      var before :- Unwrap(CheckedMul(params.inputReserve, params.outputReserve));
      var q :- OkOr(Calculator.SwapBaseInput(actualIn, params.inputReserve, params.outputReserve, SwapRates(State()),
                                             params.creatorFeeOnInput), ZeroTradingTokens);
      var after :- Unwrap(CheckedMul(q.newInputVault, q.newOutputVault));
      var quotedIn :- Unwrap(ToU64(q.inputAmount));
      var _ :- Require(quotedIn == actualIn, RequireViolated);
      var amountOut :- Unwrap(ToU64(q.outputAmount));
      var received := Received(Steps.MintOf(ctx, outputVault), amountOut);
      var _ :- Require(received > 0, RequireViolated);
      var _ :- Require(received >= minimumOut, ExceededSlippage);
      r := Settle(ctx, params, q, before, after, amountIn, amountOut);
    }

    method SwapBaseOutput(ctx: Steps.Context, inputVault: Token, outputVault: Token, maximumIn: u64, amountOut: u64)
      returns (r: Result<()>)
      requires Valid()
      modifies this, oracle, oracle.observations
      ensures Valid() && oracle.observations == old(oracle.observations)
      ensures match Steps.SwapOut(old(State()), ctx, inputVault, outputVault, maximumIn, amountOut)
              case Success(s) => r.Success? && State() == s
              case Failure(e) => r == Failure(e)
    {
      hide Steps.Settle, GetSwapParams, Calculator.SwapBaseOutput, CheckedMul, SwapRates, AmountToSend;
      var _ :- Require(amountOut > 0, RequireViolated);
      var _ :- Require(Steps.SwapOpen(State(), ctx.now), NotApproved);
      var paid :- AmountToSend(Steps.MintOf(ctx, outputVault), amountOut);
      var params :- GetSwapParams(State(), inputVault, outputVault);
      var before :- Unwrap(CheckedMul(params.inputReserve, params.outputReserve));
      var q :- OkOr(Calculator.SwapBaseOutput(paid, params.inputReserve, params.outputReserve, SwapRates(State()),
                                              params.creatorFeeOnInput), ZeroTradingTokens);
      var after :- Unwrap(CheckedMul(q.newInputVault, q.newOutputVault));
      var quotedIn :- Unwrap(ToU64(q.inputAmount));
      var _ :- Require(quotedIn > 0, RequireViolated);
      var sent :- AmountToSend(Steps.MintOf(ctx, inputVault), quotedIn);
      var _ :- Require(maximumIn >= sent, ExceededSlippage);
      var quotedOut :- Unwrap(ToU64(q.outputAmount));
      var _ :- Require(quotedOut == paid, RequireViolated);
      r := Settle(ctx, params, q, before, after, sent, paid);
    }

    method CollectProtocolFee(requested0: u64, requested1: u64) returns (r: Result<()>)
      modifies this
      ensures match Steps.CollectProtocolFee(old(State()), requested0, requested1)
              case Success(s) => r.Success? && State() == s
              case Failure(e) => r == Failure(e)
    {
      var amount0 := Steps.Min(requested0, protocolFees0);
      var amount1 := Steps.Min(requested1, protocolFees1);
      var _ :- Require(amount0 > 0 || amount1 > 0, NoFeeCollect);
      protocolFees0 := protocolFees0 - amount0;
      protocolFees1 := protocolFees1 - amount1;
      vault0 :- TransferOut(vault0, amount0);
      vault1 :- TransferOut(vault1, amount1);
      return Success(());
    }

    method CollectFundFee(requested0: u64, requested1: u64) returns (r: Result<()>)
      modifies this
      ensures match Steps.CollectFundFee(old(State()), requested0, requested1)
              case Success(s) => r.Success? && State() == s
              case Failure(e) => r == Failure(e)
    {
      var amount0 := Steps.Min(requested0, fundFees0);
      var amount1 := Steps.Min(requested1, fundFees1);
      var _ :- Require(amount0 > 0 || amount1 > 0, NoFeeCollect);
      fundFees0 := fundFees0 - amount0;
      fundFees1 := fundFees1 - amount1;
      vault0 :- TransferOut(vault0, amount0);
      vault1 :- TransferOut(vault1, amount1);
      return Success(());
    }

    method CollectCreatorFee() returns (r: Result<()>)
      modifies this
      ensures match Steps.CollectCreatorFee(old(State()))
              case Success(s) => r.Success? && State() == s
              case Failure(e) => r == Failure(e)
    {
      var _ :- Require(creatorFees0 != 0 || creatorFees1 != 0, NoFeeCollect);
      vault0 :- TransferOut(vault0, creatorFees0);
      vault1 :- TransferOut(vault1, creatorFees1);
      creatorFees0 := 0;
      creatorFees1 := 0;
      return Success(());
    }

    method Donate(vault: Token, amount: u64) returns (r: Result<()>)
      modifies this
      ensures match Steps.Donate(old(State()), vault, amount)
              case Success(s) => r.Success? && State() == s
              case Failure(e) => r == Failure(e)
    {
      if vault == Token0 {
        vault0 :- TransferIn(Classic, amount, vault0, amount);
      } else {
        vault1 :- TransferIn(Classic, amount, vault1, amount);
      }
      return Success(());
    }

    method BurnLp(amount: u64) returns (r: Result<()>)
      modifies this
      ensures match Steps.BurnLp(old(State()), amount)
              case Success(s) => r.Success? && State() == s
              case Failure(e) => r == Failure(e)
    {
      lpMint :- Burn(lpMint, lpMint, amount);
      return Success(());
    }

    /** Undoes the account writes of a failed instruction. */
    method RollBack(s: PoolState)
      requires Valid() && |s.oracle.observations| == Oracle.OBSERVATION_NUM && s.oracle.index < Oracle.OBSERVATION_NUM
      requires s.rates == config.Rates()
      modifies this, oracle, oracle.observations
      ensures Valid() && oracle.observations == old(oracle.observations)
      ensures State() == s
    {
      oracle.Restore(s.oracle);
      vault0, vault1 := s.vault0, s.vault1;
      protocolFees0, protocolFees1 := s.protocolFees0, s.protocolFees1;
      fundFees0, fundFees1 := s.fundFees0, s.fundFees1;
      creatorFees0, creatorFees1 := s.creatorFees0, s.creatorFees1;
      lpSupply, lpMint := s.lpSupply, s.lpMint;
      creatorFeeOn, enableCreatorFee := s.creatorFeeOn, s.enableCreatorFee;
      status, openTime := s.status, s.openTime;
    }

    /** Runs one instruction as the runtime does: all of its writes, or none. A sound pool stays sound,
        and its value per LP token does not fall. */
    method Process(ix: Steps.Instruction) returns (r: Result<()>)
      requires Valid()
      modifies this, config, oracle, oracle.observations
      ensures Valid() && oracle.observations == old(oracle.observations)
      ensures State() == Steps.Next(old(State()), ix)
      ensures match Steps.Step(old(State()), ix) case Success(_) => r.Success? case Failure(e) => r == Failure(e)
      ensures old(Invariant.Sound(State())) ==>
                Invariant.Sound(State()) && Invariant.ValueKept(old(State()), State())
    {
      hide Invariant.Sound, Invariant.ValueKept;
      hide Steps.Deposit, Steps.Withdraw, Steps.SwapIn, Steps.SwapOut, Steps.Donate, Steps.BurnLp;
      hide Steps.CollectProtocolFee, Steps.CollectFundFee, Steps.CollectCreatorFee, AmmConfig.Update;
      var before := State();
      match ix {
        case DepositIx(ctx, lpAmount, maximum0, maximum1) => r := Deposit(ctx, lpAmount, maximum0, maximum1);
        case WithdrawIx(ctx, ownerLp, lpAmount, minimum0, minimum1) =>
          r := Withdraw(ctx, ownerLp, lpAmount, minimum0, minimum1);
        case SwapInIx(ctx, inputVault, outputVault, amountIn, minimumOut) =>
          r := SwapBaseInput(ctx, inputVault, outputVault, amountIn, minimumOut);
        case SwapOutIx(ctx, inputVault, outputVault, maximumIn, amountOut) =>
          r := SwapBaseOutput(ctx, inputVault, outputVault, maximumIn, amountOut);
        case CollectProtocolIx(requested0, requested1) => r := CollectProtocolFee(requested0, requested1);
        case CollectFundIx(requested0, requested1) => r := CollectFundFee(requested0, requested1);
        case CollectCreatorIx => r := CollectCreatorFee();
        case UpdateConfigIx(param, value, key) => r := config.UpdateAmmConfig(param, value, key);
        case UpdateStatusIx(newStatus) =>
          status := newStatus;
          r := Success(());
        case DonateIx(vault, amount) => r := Donate(vault, amount);
        case BurnLpIx(amount) => r := BurnLp(amount);
      }
      if r.Failure? {
        RollBack(before);
      }
      if Invariant.Sound(before) { PoolRun.NextKeeps(before, ix); }
    }
  }
}
