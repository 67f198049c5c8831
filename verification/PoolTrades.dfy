/** What traders and liquidity providers get over several instructions of a pool. */
module PoolTrades {
  import opened Machine
  import Rounding
  import opened Outcomes
  import opened Errors
  import opened Tokens
  import opened ConstantProduct
  import opened Calculator
  import opened QuoteLaws
  import opened Pool
  import opened PoolSteps
  import opened PoolInvariant
  import opened SwapLiveness

  /** The state after instructions that all succeed. */
  function AllSucceed(s: PoolState, ixs: seq<Instruction>): Result<PoolState>
    decreases |ixs|
  {
    if ixs == [] then Success(s)
    else
      var s' :- Step(s, ixs[0]);
      AllSucceed(s', ixs[1..])
  }

  /** Exact-in swaps in one direction. */
  ghost predicate OneWay(ixs: seq<Instruction>, inputVault: Token, outputVault: Token) {
    forall k :: 0 <= k < |ixs| ==>
      ixs[k].SwapInIx? && ixs[k].inputVault == inputVault && ixs[k].outputVault == outputVault
  }

  /** What each swap credits to the input vault, its transfer fee taken off. */
  function Credited(ixs: seq<Instruction>, inputVault: Token): seq<u64> {
    if ixs == [] then []
    else
      var ix := ixs[0];
      (if ix.SwapInIx? then [Received(MintOf(ix.ctx, inputVault), ix.amountIn)] else [])
      + Credited(ixs[1..], inputVault)
  }

  /** One swap of such a run, as a link of the chain. */
  lemma SwapIsLink(s: PoolState, ix: Instruction, s1: PoolState)
    requires Sound(s) && ix.SwapInIx? && Step(s, ix) == Success(s1)
    ensures var q := QuoteIn(s, ix.ctx, ix.inputVault, ix.outputVault, ix.amountIn);
            && q.Some?
            && RealInputReserve(q.value) == Reserve(s1, ix.inputVault)
            && q.value.newOutputVault == Reserve(s1, ix.outputVault)
            && q.value.outputAmount == Vault(s, ix.outputVault) - Vault(s1, ix.outputVault)
            && Vault(s1, ix.inputVault) - Vault(s, ix.inputVault)
               == Received(MintOf(ix.ctx, ix.inputVault), ix.amountIn)
    ensures Sound(s1) && SwapRates(s1) == SwapRates(s) && s1.creatorFeeOn == s.creatorFeeOn
  {
    hide Sound, SwapIn, SwapBaseInput, RealInputReserve, ReserveProduct, Vault, Reserve;
    SoundParts(s);
    SwapInMatchesQuote(s, ix.ctx, ix.inputVault, ix.outputVault, ix.amountIn, ix.minimumOut);
    SwapInKeeps(s, ix.ctx, ix.inputVault, ix.outputVault, ix.amountIn, ix.minimumOut);
    ReservesPositive(s);
    SwapRatesValid(s);
    ExactInBalanced(Received(MintOf(ix.ctx, ix.inputVault), ix.amountIn),
                    Reserve(s, ix.inputVault), Reserve(s, ix.outputVault), SwapRates(s),
                    IsCreatorFeeOnInput(s.creatorFeeOn, DirectionOf(ix.inputVault)));
  }

  /** A one-way run of swaps on the pool is the chain of quotes on the reserves it really has. */
  lemma {:induction false} PoolFollowsChain(s: PoolState, ixs: seq<Instruction>, s': PoolState, inputVault: Token,
                                            outputVault: Token)
    requires Sound(s) && OneWay(ixs, inputVault, outputVault) && AllSucceed(s, ixs) == Success(s')
    ensures Vault(s', inputVault) - Vault(s, inputVault) == Sum(Credited(ixs, inputVault))
    ensures ChainOutput(Credited(ixs, inputVault), Reserve(s, inputVault), Reserve(s, outputVault), SwapRates(s),
                        IsCreatorFeeOnInput(s.creatorFeeOn, DirectionOf(inputVault)))
            == Some(Vault(s, outputVault) - Vault(s', outputVault))
    decreases |ixs|
  {
    hide Sound, Step, SwapBaseInput, RealInputReserve, ChainOutput, Sum, Vault, Reserve, SwapRates;
    SoundParts(s);
    ReservesPositive(s);
    if ixs == [] {
      NoChain(Reserve(s, inputVault), Reserve(s, outputVault), SwapRates(s),
              IsCreatorFeeOnInput(s.creatorFeeOn, DirectionOf(inputVault)));
    } else {
      var ix, rest := ixs[0], ixs[1..];
      var s1 := Step(s, ix).value;
      SwapIsLink(s, ix, s1);
      ReservesPositive(s1);
      PoolFollowsChain(s1, rest, s', inputVault, outputVault);
      var credit := Received(MintOf(ix.ctx, inputVault), ix.amountIn);
      ChainCons(credit, Credited(rest, inputVault), Reserve(s, inputVault), Reserve(s, outputVault), SwapRates(s),
                IsCreatorFeeOnInput(s.creatorFeeOn, DirectionOf(inputVault)),
                Reserve(s1, inputVault), Reserve(s1, outputVault));
    }
  }

  lemma NoChain(x: u64, y: u64, rates: FeeRates, onInput: bool)
    ensures Sum([]) == 0 && ChainOutput([], x, y, rates, onInput) == Some(0)
  {
  }

  /** Splitting never helps on the real pool: over any swaps in one direction, whatever the clocks,
      minimums and transfer fees, the output vault pays at most what one swap of all the credited
      input would have been quoted at the start. */
  lemma SplittingNeverHelpsOnPool(s: PoolState, ixs: seq<Instruction>, s': PoolState, inputVault: Token,
                                  outputVault: Token)
    requires Sound(s) && OneWay(ixs, inputVault, outputVault) && ixs != [] && AllSucceed(s, ixs) == Success(s')
    ensures Vault(s', inputVault) >= Vault(s, inputVault)
    ensures var single := SwapBaseInput(Vault(s', inputVault) - Vault(s, inputVault),
                                        Reserve(s, inputVault), Reserve(s, outputVault), SwapRates(s),
                                        IsCreatorFeeOnInput(s.creatorFeeOn, DirectionOf(inputVault)));
            single.Some? && Vault(s, outputVault) - Vault(s', outputVault) <= single.value.outputAmount
  {
    hide AllSucceed, SwapBaseInput, ChainOutput, Sum, ReserveProduct, Reserve;
    PoolFollowsChain(s, ixs, s', inputVault, outputVault);
    ReservesPositive(s);
    SwapRatesValid(s);
    SplittingNeverHelps(Credited(ixs, inputVault), Reserve(s, inputVault), Reserve(s, outputVault), SwapRates(s),
                        IsCreatorFeeOnInput(s.creatorFeeOn, DirectionOf(inputVault)));
  }

  /** And the single swap itself goes through: at the clock of the first of such swaps, crediting what
      they credited together, it may demand all that they got, if the output mint charges nothing. */
  lemma SingleSwapPaysAtLeast(s: PoolState, ixs: seq<Instruction>, s': PoolState, inputVault: Token, outputVault: Token,
                              ctx: Context, amountIn: u64)
    requires Sound(s) && OneWay(ixs, inputVault, outputVault) && ixs != [] && AllSucceed(s, ixs) == Success(s')
    requires ctx.now == ixs[0].ctx.now && MintOf(ctx, outputVault) == Classic
    requires amountIn <= PayerOf(ctx, inputVault)
    requires Received(MintOf(ctx, inputVault), amountIn) == Vault(s', inputVault) - Vault(s, inputVault)
    ensures 0 < Vault(s, outputVault) - Vault(s', outputVault) <= U64_MAX
    ensures var r := SwapIn(s, ctx, inputVault, outputVault, amountIn, Vault(s, outputVault) - Vault(s', outputVault));
            r.Success? && Vault(r.value, inputVault) == Vault(s', inputVault)
  {
    hide AllSucceed, Step, SwapIn, SwapBaseInput, ReserveProduct, Reserve, Output, OracleReady, SwapOpen, Sound,
         RealInputReserve, Splittable;
    FirstSwapGoes(s, ixs, s', inputVault, outputVault);
    SplittingNeverHelpsOnPool(s, ixs, s', inputVault, outputVault);
    SoundParts(s);
    ReservesPositive(s);
    var minimum := Vault(s, outputVault) - Vault(s', outputVault);
    SwapInSucceedsIff(s, ctx, inputVault, outputVault, amountIn, minimum);
    SwapInMatchesQuote(s, ctx, inputVault, outputVault, amountIn, minimum);
    SwapRatesValid(s);
    ExactInBalanced(Received(MintOf(ctx, inputVault), amountIn), Reserve(s, inputVault), Reserve(s, outputVault),
                    SwapRates(s), IsCreatorFeeOnInput(s.creatorFeeOn, DirectionOf(inputVault)));
  }

  /** What the success of the first swap of a one-way run says about the pool it started on. */
  lemma FirstSwapGoes(s: PoolState, ixs: seq<Instruction>, s': PoolState, inputVault: Token, outputVault: Token)
    requires Sound(s) && OneWay(ixs, inputVault, outputVault) && ixs != [] && AllSucceed(s, ixs) == Success(s')
    ensures inputVault != outputVault
    ensures SwapOpen(s, ixs[0].ctx.now) && OracleReady(s, ixs[0].ctx.now)
    ensures Splittable(SwapRates(s), IsCreatorFeeOnInput(s.creatorFeeOn, DirectionOf(inputVault)))
    ensures Vault(s', inputVault) > Vault(s, inputVault) && Vault(s', outputVault) < Vault(s, outputVault)
  {
    hide Sound, SwapIn, SwapBaseInput, RealInputReserve, ReserveProduct, Reserve, Output, OracleReady, SwapOpen,
         Splittable;
    var ix, rest := ixs[0], ixs[1..];
    var s1 := Step(s, ix).value;
    SwapInSucceedsIff(s, ix.ctx, inputVault, outputVault, ix.amountIn, ix.minimumOut);
    SwapIsLink(s, ix, s1);
    PoolFollowsChain(s1, rest, s', inputVault, outputVault);
  }

  // ----- Splitting an exact-out swap -----

  /** Exact-out swaps in one direction. */
  ghost predicate OneWayOut(ixs: seq<Instruction>, inputVault: Token, outputVault: Token) {
    forall k :: 0 <= k < |ixs| ==>
      ixs[k].SwapOutIx? && ixs[k].inputVault == inputVault && ixs[k].outputVault == outputVault
  }

  /** What the output vault pays for each swap, so that the amount asked for arrives. */
  function Payments(ixs: seq<Instruction>, outputVault: Token): seq<u64> {
    if ixs == [] then []
    else
      var ix := ixs[0];
      (if ix.SwapOutIx? && AmountToSend(MintOf(ix.ctx, outputVault), ix.amountOut).Success?
       then [AmountToSend(MintOf(ix.ctx, outputVault), ix.amountOut).value] else [])
      + Payments(ixs[1..], outputVault)
  }

  lemma SwapOutIsLink(s: PoolState, ix: Instruction, s1: PoolState)
    requires Sound(s) && ix.SwapOutIx? && Step(s, ix) == Success(s1)
    ensures AmountToSend(MintOf(ix.ctx, ix.outputVault), ix.amountOut).Success?
    ensures var paid := AmountToSend(MintOf(ix.ctx, ix.outputVault), ix.amountOut).value;
            var q := QuoteOut(s, ix.inputVault, ix.outputVault, paid);
            && q.Some? && q.value.inputAmount <= U64_MAX
            && RealInputReserve(q.value) == Reserve(s1, ix.inputVault)
            && q.value.newOutputVault == Reserve(s1, ix.outputVault)
            && q.value.inputAmount == Vault(s1, ix.inputVault) - Vault(s, ix.inputVault)
            && paid == Vault(s, ix.outputVault) - Vault(s1, ix.outputVault)
    ensures Sound(s1) && SwapRates(s1) == SwapRates(s) && s1.creatorFeeOn == s.creatorFeeOn
  {
    hide Sound, SwapOut, SwapBaseOutput, RealInputReserve, ReserveProduct, Vault, Reserve, AmountToSend;
    SoundParts(s);
    SwapOutMatchesQuote(s, ix.ctx, ix.inputVault, ix.outputVault, ix.maximumIn, ix.amountOut);
    SwapOutKeeps(s, ix.ctx, ix.inputVault, ix.outputVault, ix.maximumIn, ix.amountOut);
    ReservesPositive(s);
    SwapRatesValid(s);
    ExactOutBalanced(AmountToSend(MintOf(ix.ctx, ix.outputVault), ix.amountOut).value,
                     Reserve(s, ix.inputVault), Reserve(s, ix.outputVault), SwapRates(s),
                     IsCreatorFeeOnInput(s.creatorFeeOn, DirectionOf(ix.inputVault)));
  }

  /** A one-way run of exact-out swaps on the pool is the chain of quotes on the reserves it really has. */
  lemma {:induction false} PoolFollowsCostChain(s: PoolState, ixs: seq<Instruction>, s': PoolState,
                                                inputVault: Token, outputVault: Token)
    requires Sound(s) && OneWayOut(ixs, inputVault, outputVault) && AllSucceed(s, ixs) == Success(s')
    ensures Vault(s, outputVault) - Vault(s', outputVault) == Sum(Payments(ixs, outputVault))
    ensures |Payments(ixs, outputVault)| == |ixs|
    ensures ChainCost(Payments(ixs, outputVault), Reserve(s, inputVault), Reserve(s, outputVault), SwapRates(s),
                      IsCreatorFeeOnInput(s.creatorFeeOn, DirectionOf(inputVault)))
            == Some(Vault(s', inputVault) - Vault(s, inputVault))
    decreases |ixs|
  {
    hide Sound, Step, SwapBaseOutput, RealInputReserve, ChainCost, Sum, Vault, Reserve, SwapRates, AmountToSend;
    SoundParts(s);
    ReservesPositive(s);
    if ixs == [] {
      NoCostChain(Reserve(s, inputVault), Reserve(s, outputVault), SwapRates(s),
                  IsCreatorFeeOnInput(s.creatorFeeOn, DirectionOf(inputVault)));
    } else {
      var ix, rest := ixs[0], ixs[1..];
      var s1 := Step(s, ix).value;
      SwapOutIsLink(s, ix, s1);
      ReservesPositive(s1);
      PoolFollowsCostChain(s1, rest, s', inputVault, outputVault);
      var paid := AmountToSend(MintOf(ix.ctx, outputVault), ix.amountOut).value;
      ChainCostCons(paid, Payments(rest, outputVault), Reserve(s, inputVault), Reserve(s, outputVault), SwapRates(s),
                    IsCreatorFeeOnInput(s.creatorFeeOn, DirectionOf(inputVault)),
                    Reserve(s1, inputVault), Reserve(s1, outputVault));
    }
  }

  lemma NoCostChain(x: u64, y: u64, rates: FeeRates, onInput: bool)
    ensures Sum([]) == 0 && ChainCost([], x, y, rates, onInput) == Some(0)
  {
  }

  /** Splitting never saves on the real pool either: over any exact-out swaps in one direction the
      input vault gains at least what one swap of all the output paid would have been quoted. */
  lemma SplittingNeverSavesOnPool(s: PoolState, ixs: seq<Instruction>, s': PoolState, inputVault: Token,
                                  outputVault: Token)
    requires Sound(s) && OneWayOut(ixs, inputVault, outputVault) && ixs != [] && AllSucceed(s, ixs) == Success(s')
    ensures Vault(s, outputVault) >= Vault(s', outputVault)
    ensures var single := SwapBaseOutput(Vault(s, outputVault) - Vault(s', outputVault),
                                         Reserve(s, inputVault), Reserve(s, outputVault), SwapRates(s),
                                         IsCreatorFeeOnInput(s.creatorFeeOn, DirectionOf(inputVault)));
            single.Some? && single.value.inputAmount <= Vault(s', inputVault) - Vault(s, inputVault)
  {
    hide AllSucceed, SwapBaseOutput, ChainCost, Sum, ReserveProduct, Reserve, Payments;
    PoolFollowsCostChain(s, ixs, s', inputVault, outputVault);
    ReservesPositive(s);
    SwapRatesValid(s);
    SplittingNeverSaves(Payments(ixs, outputVault), Reserve(s, inputVault), Reserve(s, outputVault), SwapRates(s),
                        IsCreatorFeeOnInput(s.creatorFeeOn, DirectionOf(inputVault)));
  }

  // ----- Liquidity -----

  /** A withdrawal from a sound pool succeeds exactly when withdrawals are open, the LP is there to
      burn, both shares are worth at least one unit, and what arrives meets the minimums. */
  lemma WithdrawSucceedsIff(s: PoolState, ctx: Context, ownerLp: u64, lpAmount: u64, minimum0: u64, minimum1: u64)
    requires Sound(s)
    ensures lpAmount <= s.lpMint ==>
              && 0 <= FloorShare(lpAmount, s.lpSupply, Reserve(s, Token0)) <= U64_MAX
              && 0 <= FloorShare(lpAmount, s.lpSupply, Reserve(s, Token1)) <= U64_MAX
    ensures var share0 := FloorShare(lpAmount, s.lpSupply, Reserve(s, Token0));
            var share1 := FloorShare(lpAmount, s.lpSupply, Reserve(s, Token1));
            Withdraw(s, ctx, ownerLp, lpAmount, minimum0, minimum1).Success? <==>
            && Approved(s.status, WithdrawBit)
            && 0 < lpAmount <= ownerLp && lpAmount <= s.lpMint
            && share0 > 0 && share1 > 0
            && Received(ctx.mint0, share0) >= minimum0
            && Received(ctx.mint1, share1) >= minimum1
  {
    hide LpShare, FloorShare, ReserveProduct;
    ReservesPositive(s);
    ReservesReadableIffSolvent(s);
    LpShareValue(lpAmount, s.lpSupply, Reserve(s, Token0), Floor);
    LpShareValue(lpAmount, s.lpSupply, Reserve(s, Token1), Floor);
    WithdrawShare(lpAmount, s.lpSupply, Reserve(s, Token0));
    WithdrawShare(lpAmount, s.lpSupply, Reserve(s, Token1));
  }

  /** A deposit into a sound pool succeeds exactly when deposits are open, both shares are worth at
      least one unit, transfers within the maximums can deliver the rounded-up shares, and vaults
      and LP supply have room. */
  lemma DepositSucceedsIff(s: PoolState, ctx: Context, lpAmount: u64, maximum0: u64, maximum1: u64)
    requires Sound(s)
    ensures Deposit(s, ctx, lpAmount, maximum0, maximum1).Success? <==>
            && Approved(s.status, DepositBit)
            && lpAmount > 0
            && FloorShare(lpAmount, s.lpSupply, Reserve(s, Token0)) > 0
            && FloorShare(lpAmount, s.lpSupply, Reserve(s, Token1)) > 0
            && CanCredit(ctx.mint0, ctx.payer0, s.vault0, CeilShare(lpAmount, s.lpSupply, Reserve(s, Token0)), maximum0)
            && CanCredit(ctx.mint1, ctx.payer1, s.vault1, CeilShare(lpAmount, s.lpSupply, Reserve(s, Token1)), maximum1)
            && s.lpSupply + lpAmount <= U64_MAX
  {
    hide LpShare, FloorShare, CeilShare, ReserveProduct, AmountToSend, Received;
    ReservesPositive(s);
    ReservesReadableIffSolvent(s);
    LpShareValue(lpAmount, s.lpSupply, Reserve(s, Token0), Ceiling);
    LpShareValue(lpAmount, s.lpSupply, Reserve(s, Token1), Ceiling);
    ShareOrder(lpAmount, s.lpSupply, Reserve(s, Token0));
    ShareOrder(lpAmount, s.lpSupply, Reserve(s, Token1));
    SendingCredits(ctx.mint0, CeilShare(lpAmount, s.lpSupply, Reserve(s, Token0)));
    SendingCredits(ctx.mint1, CeilShare(lpAmount, s.lpSupply, Reserve(s, Token1)));
  }

  /** How deposits and withdrawals on a sound pool are refused, in the order the tests are made. */
  lemma DepositRefusals(s: PoolState, ctx: Context, lpAmount: u64, maximum0: u64, maximum1: u64)
    requires Sound(s)
    ensures var t0 := CeilShare(lpAmount, s.lpSupply, Reserve(s, Token0));
            var t1 := CeilShare(lpAmount, s.lpSupply, Reserve(s, Token1));
            var r := Deposit(s, ctx, lpAmount, maximum0, maximum1);
            if lpAmount == 0 then r == Failure(RequireViolated)
            else if s.status % 2 == 1 then r == Failure(NotApproved)
            else if FloorShare(lpAmount, s.lpSupply, Reserve(s, Token0)) == 0
                    || FloorShare(lpAmount, s.lpSupply, Reserve(s, Token1)) == 0
              then r == Failure(ZeroTradingTokens)
            else
              t0 <= U64_MAX && t1 <= U64_MAX &&
              AmountToSend(ctx.mint0, t0).Success? && AmountToSend(ctx.mint1, t1).Success? ==>
                if AmountToSend(ctx.mint0, t0).value > maximum0 || AmountToSend(ctx.mint1, t1).value > maximum1
                then r == Failure(ExceededSlippage)
                else r.Success? || r.error == TokenProgram || r.error == Panicked
  {
    hide LpShare, FloorShare, CeilShare, ReserveProduct, AmountToSend, Received;
    ReservesPositive(s);
    ReservesReadableIffSolvent(s);
    LpShareValue(lpAmount, s.lpSupply, Reserve(s, Token0), Ceiling);
    LpShareValue(lpAmount, s.lpSupply, Reserve(s, Token1), Ceiling);
    ShareOrder(lpAmount, s.lpSupply, Reserve(s, Token0));
    ShareOrder(lpAmount, s.lpSupply, Reserve(s, Token1));
  }

  lemma WithdrawRefusals(s: PoolState, ctx: Context, ownerLp: u64, lpAmount: u64, minimum0: u64, minimum1: u64)
    requires Sound(s) && lpAmount <= s.lpMint
    ensures var share0 := FloorShare(lpAmount, s.lpSupply, Reserve(s, Token0));
            var share1 := FloorShare(lpAmount, s.lpSupply, Reserve(s, Token1));
            && 0 <= share0 <= U64_MAX && 0 <= share1 <= U64_MAX
            && var r := Withdraw(s, ctx, ownerLp, lpAmount, minimum0, minimum1);
               if lpAmount == 0 || lpAmount > ownerLp then r == Failure(RequireViolated)
               else if s.status / 2 % 2 == 1 then r == Failure(NotApproved)
               else if share0 == 0 || share1 == 0 then r == Failure(ZeroTradingTokens)
               else if Received(ctx.mint0, share0) < minimum0 || Received(ctx.mint1, share1) < minimum1
                 then r == Failure(ExceededSlippage)
               else r.Success?
  {
    hide LpShare, FloorShare, ReserveProduct, Received;
    ReservesPositive(s);
    ReservesReadableIffSolvent(s);
    LpShareValue(lpAmount, s.lpSupply, Reserve(s, Token0), Floor);
    LpShareValue(lpAmount, s.lpSupply, Reserve(s, Token1), Floor);
    WithdrawShare(lpAmount, s.lpSupply, Reserve(s, Token0));
    WithdrawShare(lpAmount, s.lpSupply, Reserve(s, Token1));
  }

  lemma SendingCredits(mint: Mint, share: nat)
    ensures share <= U64_MAX && AmountToSend(mint, share).Success? ==>
              Received(mint, AmountToSend(mint, share).value) == share
  {
    if share <= U64_MAX && AmountToSend(mint, share).Success? { SendingDeliversExactly(mint, share); }
  }

  lemma ShareOrder(l: nat, supply: nat, r: nat)
    requires supply > 0
    ensures FloorShare(l, supply, r) <= CeilShare(l, supply, r)
  {
    Rounding.CeilByRemainder(l * r, supply);
  }

  /** A withdrawal without minimums whose shares are positive pays exactly them. */
  lemma WithdrawPays(s: PoolState, ctx: Context, ownerLp: u64, lpAmount: u64, share0: int, share1: int)
    requires Sound(s) && Approved(s.status, WithdrawBit) && 0 < lpAmount <= ownerLp && lpAmount <= s.lpMint
    requires share0 == FloorShare(lpAmount, s.lpSupply, Reserve(s, Token0)) && share0 > 0
    requires share1 == FloorShare(lpAmount, s.lpSupply, Reserve(s, Token1)) && share1 > 0
    ensures share0 <= Reserve(s, Token0) && share1 <= Reserve(s, Token1)
    ensures Withdraw(s, ctx, ownerLp, lpAmount, 0, 0) ==
            Success(s.(vault0 := s.vault0 - share0, vault1 := s.vault1 - share1,
                       lpSupply := s.lpSupply - lpAmount, lpMint := s.lpMint - lpAmount))
  {
    hide Withdraw, FloorShare, ReserveProduct;
    ReservesPositive(s);
    WithdrawShare(lpAmount, s.lpSupply, Reserve(s, Token0));
    WithdrawShare(lpAmount, s.lpSupply, Reserve(s, Token1));
    WithdrawSucceedsIff(s, ctx, ownerLp, lpAmount, 0, 0);
    WithdrawEffect(s, ctx, ownerLp, lpAmount, 0, 0);
  }

  /** Depositing LP and at once withdrawing it always goes through when withdrawals are open, and
      leaves each vault exactly as it was, or one unit richer when the deposit had to be rounded. */
  lemma DepositThenWithdrawOnPool(s: PoolState, ctx: Context, lpAmount: u64, maximum0: u64, maximum1: u64,
                                  s1: PoolState, ctx': Context, ownerLp: u64)
    requires Sound(s) && Deposit(s, ctx, lpAmount, maximum0, maximum1) == Success(s1)
    requires Approved(s.status, WithdrawBit) && lpAmount <= ownerLp
    ensures s.lpSupply > 0
    ensures var r := Withdraw(s1, ctx', ownerLp, lpAmount, 0, 0);
            && r.Success?
            && r.value.vault0 - s.vault0 == (if ExactShare(lpAmount, s.lpSupply, Reserve(s, Token0)) then 0 else 1)
            && r.value.vault1 - s.vault1 == (if ExactShare(lpAmount, s.lpSupply, Reserve(s, Token1)) then 0 else 1)
            && r.value == s.(vault0 := r.value.vault0, vault1 := r.value.vault1)
  {
    hide Deposit, Withdraw, FloorShare, CeilShare, ExactShare, Sound, Approved;
    SupplyPositive(s);
    ReservesPositive(s);
    DepositEffect(s, ctx, lpAmount, maximum0, maximum1);
    DepositKeeps(s, ctx, lpAmount, maximum0, maximum1);
    DepositThenWithdraw(lpAmount, s.lpSupply, Reserve(s, Token0));
    DepositThenWithdraw(lpAmount, s.lpSupply, Reserve(s, Token1));
    WithdrawPays(s1, ctx', ownerLp, lpAmount,
                 FloorShare(lpAmount, s1.lpSupply, Reserve(s1, Token0)),
                 FloorShare(lpAmount, s1.lpSupply, Reserve(s1, Token1)));
  }
}
