/** Whole runs of a pool: any instructions by anyone, in any order, failed ones included. */
module PoolRun {
  import opened Machine
  import opened Rounding
  import opened Outcomes
  import opened Errors
  import opened Calculator
  import opened Pool
  import opened PoolSteps
  import opened PoolInvariant
  import Oracle
  import OracleLog

  // ----- Soundness and value -----

  lemma NextKeeps(s: PoolState, ix: Instruction)
    requires Sound(s)
    ensures Sound(Next(s, ix)) && ValueKept(s, Next(s, ix))
  {
    hide Step, Sound, ReserveProduct;
    if Step(s, ix).Success? { StepKeeps(s, ix); }
  }

  lemma ValueTransitive(s: PoolState, t: PoolState, u: PoolState)
    requires t.lpSupply > 0 && ValueKept(s, t) && ValueKept(t, u)
    ensures ValueKept(s, u)
  {
    hide ReserveProduct;
    Transitive(ReserveProduct(s), s.lpSupply * s.lpSupply, ReserveProduct(t), t.lpSupply * t.lpSupply,
               ReserveProduct(u), u.lpSupply * u.lpSupply);
  }

  lemma Transitive(k: int, a: nat, l: int, b: nat, m: int, c: nat)
    requires b > 0 && l * a >= k * b && m * b >= l * c
    ensures m * a >= k * c
  {
    MulMono(k * b, l * a, c);
    MulMono(l * c, m * b, a);
    assert (k * c) * b == (k * b) * c;
    assert (l * a) * c == (l * c) * a;
    assert (m * b) * a == (m * a) * b;
    CancelLe(k * c, m * a, b);
  }

  /** From a sound pool every run stays sound, and value per LP token never falls between its ends. */
  lemma {:induction false} RunKeeps(s: PoolState, ixs: seq<Instruction>)
    requires Sound(s)
    ensures Sound(Run(s, ixs)) && ValueKept(s, Run(s, ixs))
  {
    if ixs != [] {
      hide Sound, ValueKept, Next;
      var t := Run(s, ixs[..|ixs| - 1]);
      RunKeeps(s, ixs[..|ixs| - 1]);
      NextKeeps(t, ixs[|ixs| - 1]);
      SupplyPositive(t);
      ValueTransitive(s, t, Run(s, ixs));
    } else {
      assert Run(s, ixs) == s;
    }
  }

  lemma {:induction false} RunInTwo(s: PoolState, a: seq<Instruction>, b: seq<Instruction>)
    ensures Run(s, a + b) == Run(Run(s, a), b)
  {
    if b == [] {
      assert a + b == a;
    } else {
      var n := |b| - 1;
      assert (a + b)[..|a + b| - 1] == a + b[..n];
      RunInTwo(s, a, b[..n]);
    }
  }

  /** In every state a created pool can reach, the LP supply stays within the root of the reserves'
      product and above the minted LP, the reserves are positive, and they and both prices can be
      read; and value per LP token never falls between any two states along the way. */
  lemma ReachablePool(ctx: Context, rates: FeeRates, amount0: u64, amount1: u64, openTime: u64,
                      creatorFeeOn: CreatorFeeOn, enableCreatorFee: bool,
                      earlier: seq<Instruction>, later: seq<Instruction>)
    requires rates.Valid()
    requires Initialize(ctx, rates, amount0, amount1, openTime, creatorFeeOn, enableCreatorFee).Success?
    ensures var s0 := Initialize(ctx, rates, amount0, amount1, openTime, creatorFeeOn, enableCreatorFee).value;
            var s, s' := Run(s0, earlier), Run(s0, earlier + later);
            && s'.lpSupply * s'.lpSupply <= Reserve(s', Token0) * Reserve(s', Token1)
            && s'.lpSupply >= s'.lpMint + 100
            && Reserve(s', Token0) > 0 && Reserve(s', Token1) > 0
            && s'.rates.Valid()
            && VaultAmountWithoutFee(s').Success? && TokenPriceX32(s').Success?
            && ValueKept(s, s')
  {
    hide Initialize, Run, VaultAmountWithoutFee, TokenPriceX32, ValueKept;
    InitializeIsSound(ctx, rates, amount0, amount1, openTime, creatorFeeOn, enableCreatorFee);
    var s0 := Initialize(ctx, rates, amount0, amount1, openTime, creatorFeeOn, enableCreatorFee).value;
    RunKeeps(s0, earlier);
    RunKeeps(Run(s0, earlier), later);
    RunInTwo(s0, earlier, later);
    var s' := Run(s0, earlier + later);
    SupplyWithinRoot(s');
    ReservesPositive(s');
    ReservesReadableIffSolvent(s');
    PricesDefinedIffReservesPositive(s');
  }

  // ----- Fee collection -----

  /** The counter a collection draws on. */
  function Counter(s: PoolState, ix: Instruction, t: Token): nat {
    if ix.CollectProtocolIx? then ProtocolFees(s, t)
    else if ix.CollectFundIx? then FundFees(s, t)
    else CreatorFees(s, t)
  }

  /** What a collection can take: the creator everything, the others up to what they request. */
  function Collectable(s: PoolState, ix: Instruction, t: Token): nat
    requires ix.CollectProtocolIx? || ix.CollectFundIx? || ix.CollectCreatorIx?
  {
    var requested: u64 := if ix.CollectCreatorIx? then U64_MAX
                          else if t == Token0 then ix.requested0 else ix.requested1;
    if requested <= Counter(s, ix, t) then requested else Counter(s, ix, t)
  }

  /** A vault pays `amount` out of what it owes; its reserve does not notice. */
  predicate PaysFees(s: PoolState, ix: Instruction, s': PoolState, t: Token, amount: nat) {
    && Vault(s', t) == Vault(s, t) - amount
    && FeesOwed(s', t) == FeesOwed(s, t) - amount
    && Counter(s', ix, t) == Counter(s, ix, t) - amount
    && Reserve(s', t) == Reserve(s, t)
  }

  /** The state with the two vaults and the two counters of one fee lowered by the given amounts. */
  function Collected(s: PoolState, ix: Instruction, amount0: nat, amount1: nat): PoolState
    requires amount0 <= s.vault0 && amount1 <= s.vault1
    requires amount0 <= Counter(s, ix, Token0) && amount1 <= Counter(s, ix, Token1)
  {
    var paid := s.(vault0 := s.vault0 - amount0, vault1 := s.vault1 - amount1);
    if ix.CollectProtocolIx? then
      paid.(protocolFees0 := s.protocolFees0 - amount0, protocolFees1 := s.protocolFees1 - amount1)
    else if ix.CollectFundIx? then
      paid.(fundFees0 := s.fundFees0 - amount0, fundFees1 := s.fundFees1 - amount1)
    else
      paid.(creatorFees0 := s.creatorFees0 - amount0, creatorFees1 := s.creatorFees1 - amount1)
  }

  /** A collection succeeds exactly when there is something to collect, pays that from vault and
      counter alike, leaves both reserves alone, and touches nothing else. */
  ghost predicate PaysOut(s: PoolState, ix: Instruction)
    requires ix.CollectProtocolIx? || ix.CollectFundIx? || ix.CollectCreatorIx?
  {
    var amount0, amount1 := Collectable(s, ix, Token0), Collectable(s, ix, Token1);
    if amount0 > 0 || amount1 > 0 then
      && Step(s, ix).Success?
      && PaysFees(s, ix, Step(s, ix).value, Token0, amount0)
      && PaysFees(s, ix, Step(s, ix).value, Token1, amount1)
      && amount0 <= s.vault0 && amount1 <= s.vault1
      && Step(s, ix).value == Collected(s, ix, amount0, amount1)
    else
      Step(s, ix) == Failure(NoFeeCollect)
  }

  lemma ProtocolPaysOut(s: PoolState, requested0: u64, requested1: u64)
    requires Solvent(s)
    ensures PaysOut(s, CollectProtocolIx(requested0, requested1))
  {
    hide Deposit, Withdraw, SwapIn, SwapOut, CollectFundFee, CollectCreatorFee;
  }

  lemma FundPaysOut(s: PoolState, requested0: u64, requested1: u64)
    requires Solvent(s)
    ensures PaysOut(s, CollectFundIx(requested0, requested1))
  {
    hide Deposit, Withdraw, SwapIn, SwapOut, CollectProtocolFee, CollectCreatorFee;
  }

  lemma CreatorPaysOut(s: PoolState)
    requires Solvent(s)
    ensures PaysOut(s, CollectCreatorIx)
  {
  }

  /** A sound pool can pay every collection. */
  lemma CollectionIsPayable(s: PoolState, ix: Instruction)
    requires Sound(s)
    requires ix.CollectProtocolIx? || ix.CollectFundIx? || ix.CollectCreatorIx?
    ensures PaysOut(s, ix)
  {
    hide Sound, PaysOut;
    SoundParts(s);
    match ix
    case CollectProtocolIx(requested0, requested1) => ProtocolPaysOut(s, requested0, requested1);
    case CollectFundIx(requested0, requested1) => FundPaysOut(s, requested0, requested1);
    case CollectCreatorIx => CreatorPaysOut(s);
  }

  // ----- LP tokens -----

  /** LP burnt by its holders without a withdrawal. */
  function Burnt(s: PoolState, ixs: seq<Instruction>): nat {
    if ixs == [] then 0
    else
      var ix := ixs[|ixs| - 1];
      Burnt(s, ixs[..|ixs| - 1])
      + if ix.BurnLpIx? && Step(Run(s, ixs[..|ixs| - 1]), ix).Success? then ix.amount else 0
  }

  lemma GapStep(s: PoolState, ix: Instruction)
    requires Sound(s)
    ensures var s' := Next(s, ix);
            s'.lpSupply - s'.lpMint ==
            s.lpSupply - s.lpMint + (if ix.BurnLpIx? && Step(s, ix).Success? then ix.amount else 0)
  {
    hide Sound, Deposit, Withdraw, SwapIn, SwapOut, SwapBaseInput, SwapBaseOutput;
    SoundParts(s);
    if Step(s, ix).Success? {
      match ix
      case DepositIx(ctx, lpAmount, maximum0, maximum1) => DepositEffect(s, ctx, lpAmount, maximum0, maximum1);
      case WithdrawIx(ctx, ownerLp, lpAmount, minimum0, minimum1) =>
        WithdrawEffect(s, ctx, ownerLp, lpAmount, minimum0, minimum1);
      case SwapInIx(ctx, inputVault, outputVault, amountIn, minimumOut) =>
        SwapInMatchesQuote(s, ctx, inputVault, outputVault, amountIn, minimumOut);
      case SwapOutIx(ctx, inputVault, outputVault, maximumIn, amountOut) =>
        SwapOutMatchesQuote(s, ctx, inputVault, outputVault, maximumIn, amountOut);
      case _ =>
    }
  }

  /** The recorded supply exceeds the minted LP by exactly what was locked at the start and what
      holders burnt since. */
  lemma {:induction false} SupplyGapIsBurnt(s: PoolState, ixs: seq<Instruction>)
    requires Sound(s)
    ensures Run(s, ixs).lpSupply - Run(s, ixs).lpMint == s.lpSupply - s.lpMint + Burnt(s, ixs)
  {
    if ixs != [] {
      hide Sound, Next;
      SupplyGapIsBurnt(s, ixs[..|ixs| - 1]);
      RunKeeps(s, ixs[..|ixs| - 1]);
      GapStep(Run(s, ixs[..|ixs| - 1]), ixs[|ixs| - 1]);
    }
  }

  // ----- No free lunch -----

  /** What a step pays to fee recipients. */
  function Paid(s: PoolState, ix: Instruction, t: Token): int {
    if ix.CollectProtocolIx? || ix.CollectFundIx? || ix.CollectCreatorIx?
    then Vault(s, t) - Vault(Next(s, ix), t)
    else 0
  }

  function TotalPaid(s: PoolState, ixs: seq<Instruction>, t: Token): int {
    if ixs == [] then 0
    else TotalPaid(s, ixs[..|ixs| - 1], t) + Paid(Run(s, ixs[..|ixs| - 1]), ixs[|ixs| - 1], t)
  }

  /** Only a collection lowers what a vault owes, and by what it pays. */
  lemma OwedOnlyFallsByPaying(s: PoolState, ix: Instruction, t: Token)
    requires Sound(s)
    ensures FeesOwed(Next(s, ix), t) + Paid(s, ix, t) >= FeesOwed(s, t)
  {
    hide Sound, Deposit, Withdraw, SwapIn, SwapOut, Swapped, SwapBaseInput, SwapBaseOutput;
    hide CollectProtocolFee, CollectFundFee, CollectCreatorFee, Donate, BurnLp;
    SoundParts(s);
    if Step(s, ix).Success? {
      match ix
      case DepositIx(ctx, lpAmount, maximum0, maximum1) => DepositEffect(s, ctx, lpAmount, maximum0, maximum1);
      case WithdrawIx(ctx, ownerLp, lpAmount, minimum0, minimum1) =>
        WithdrawEffect(s, ctx, ownerLp, lpAmount, minimum0, minimum1);
      case SwapInIx(ctx, inputVault, outputVault, amountIn, minimumOut) =>
        SwapInMatchesQuote(s, ctx, inputVault, outputVault, amountIn, minimumOut);
        SwappedOwesMore(s, Next(s, ix), DirectionOf(inputVault),
                        QuoteIn(s, ctx, inputVault, outputVault, amountIn).value, t);
      case SwapOutIx(ctx, inputVault, outputVault, maximumIn, amountOut) =>
        SwapOutMatchesQuote(s, ctx, inputVault, outputVault, maximumIn, amountOut);
        var paid := Tokens.AmountToSend(MintOf(ctx, outputVault), amountOut).value;
        SwappedOwesMore(s, Next(s, ix), DirectionOf(inputVault), QuoteOut(s, inputVault, outputVault, paid).value, t);
      case _ => OtherStepsOwe(s, ix, t);
    }
  }

  lemma OtherStepsOwe(s: PoolState, ix: Instruction, t: Token)
    requires !ix.DepositIx? && !ix.WithdrawIx? && !ix.SwapInIx? && !ix.SwapOutIx?
    ensures FeesOwed(Next(s, ix), t) + Paid(s, ix, t) >= FeesOwed(s, t)
  {
  }

  lemma SwappedOwesMore(s: PoolState, s': PoolState, direction: TradeDirection, q: SwapResult, t: Token)
    requires Swapped(s, s', direction, q)
    ensures FeesOwed(s', t) >= FeesOwed(s, t)
  {
  }

  lemma {:induction false} OwedOnlyFallsByPayingInRuns(s: PoolState, ixs: seq<Instruction>, t: Token)
    requires Sound(s)
    ensures FeesOwed(Run(s, ixs), t) + TotalPaid(s, ixs, t) >= FeesOwed(s, t)
  {
    if ixs != [] {
      hide Sound, FeesOwed, Paid, Next;
      OwedOnlyFallsByPayingInRuns(s, ixs[..|ixs| - 1], t);
      RunKeeps(s, ixs[..|ixs| - 1]);
      OwedOnlyFallsByPaying(Run(s, ixs[..|ixs| - 1]), ixs[|ixs| - 1], t);
    }
  }

  /** Over any run that ends with the LP supply it began with, a net amount of one token can leave
      the pool other than to its fee recipients only if a net amount of the other comes in. */
  lemma NoFreeLunch(s: PoolState, ixs: seq<Instruction>, t: Token, u: Token)
    requires Sound(s) && t != u
    requires Run(s, ixs).lpSupply == s.lpSupply
    requires Vault(Run(s, ixs), t) + TotalPaid(s, ixs, t) < Vault(s, t)
    ensures Vault(Run(s, ixs), u) + TotalPaid(s, ixs, u) > Vault(s, u)
  {
    hide Run, TotalPaid, FeesOwed, Vault, Sound, ValueKept;
    RunKeeps(s, ixs);
    var s' := Run(s, ixs);
    OwedOnlyFallsByPayingInRuns(s, ixs, t);
    OwedOnlyFallsByPayingInRuns(s, ixs, u);
    ReservesPositive(s);
    ReservesPositive(s');
    SupplyPositive(s);
    ProductGrew(s, s');
    OtherSideGrew(Reserve(s, t), Reserve(s, u), Reserve(s', t), Reserve(s', u));
  }

  lemma ProductGrew(s: PoolState, s': PoolState)
    requires s.lpSupply > 0 && s'.lpSupply == s.lpSupply && ValueKept(s, s')
    ensures ReserveProduct(s) <= ReserveProduct(s')
  {
    hide ReserveProduct;
    MulMono(1, s.lpSupply, s.lpSupply);
    CancelLe(ReserveProduct(s), ReserveProduct(s'), s.lpSupply * s.lpSupply);
  }

  lemma OtherSideGrew(a: nat, b: nat, a': nat, b': nat)
    requires b > 0 && a' < a && a * b <= a' * b'
    ensures b < b'
  {
    if b' <= b {
      MulMono(b', b, a');
      MulMono(a' + 1, a, b);
    }
  }

  // ----- The oracle along a run -----

  /** The prices every successful swap of a run showed the oracle: those from before it. */
  function Shown(s: PoolState, ix: Instruction): seq<OracleLog.Call> {
    if (ix.SwapInIx? || ix.SwapOutIx?) && Step(s, ix).Success? && TokenPriceX32(s).Success? then
      var (price0, price1) := TokenPriceX32(s).value;
      [OracleLog.Call(ix.ctx.now, price0, price1)]
    else
      []
  }

  function Trace(s: PoolState, ixs: seq<Instruction>): seq<OracleLog.Call> {
    if ixs == [] then []
    else Trace(s, ixs[..|ixs| - 1]) + Shown(Run(s, ixs[..|ixs| - 1]), ixs[|ixs| - 1])
  }

  lemma OracleStep(s: PoolState, ix: Instruction, calls: seq<OracleLog.Call>)
    requires Sound(s) && s.oracle == OracleLog.After(calls)
    ensures Next(s, ix).oracle == OracleLog.After(calls + Shown(s, ix))
  {
    hide Sound, Deposit, Withdraw, SwapIn, SwapOut, Swapped, SwapBaseInput, SwapBaseOutput, TokenPriceX32,
         Oracle.Update;
    ReservesPositive(s);
    PricesDefinedIffReservesPositive(s);
    if Step(s, ix).Success? {
      match ix
      case DepositIx(ctx, lpAmount, maximum0, maximum1) => DepositEffect(s, ctx, lpAmount, maximum0, maximum1);
      case WithdrawIx(ctx, ownerLp, lpAmount, minimum0, minimum1) =>
        WithdrawEffect(s, ctx, ownerLp, lpAmount, minimum0, minimum1);
      case SwapInIx(ctx, inputVault, outputVault, amountIn, minimumOut) =>
        SwapInMatchesQuote(s, ctx, inputVault, outputVault, amountIn, minimumOut);
      case SwapOutIx(ctx, inputVault, outputVault, maximumIn, amountOut) =>
        SwapOutMatchesQuote(s, ctx, inputVault, outputVault, maximumIn, amountOut);
      case _ =>
    }
    var shown := Shown(s, ix);
    if shown == [] {
      assert calls + shown == calls;
    } else {
      assert (calls + shown)[..|calls|] == calls;
    }
  }

  /** The oracle of a pool is always the refinement of a log of the prices its swaps showed. */
  lemma {:induction false} OracleFollowsTrace(s: PoolState, ixs: seq<Instruction>)
    requires Sound(s) && s.oracle == Oracle.Fresh()
    ensures Run(s, ixs).oracle == OracleLog.After(Trace(s, ixs))
    ensures var e := OracleLog.Effective(Trace(s, ixs));
            OracleLog.Increasing(e) && OracleLog.Represents(Run(s, ixs).oracle, e)
  {
    hide Sound, Next, Shown, OracleLog.Represents;
    if ixs != [] {
      OracleFollowsTrace(s, ixs[..|ixs| - 1]);
      RunKeeps(s, ixs[..|ixs| - 1]);
      OracleStep(Run(s, ixs[..|ixs| - 1]), ixs[|ixs| - 1], Trace(s, ixs[..|ixs| - 1]));
    }
    OracleLog.RingRefinesLog(Trace(s, ixs));
  }

  /** Every price a pool shows is below 2^96. */
  lemma {:induction false} TracePricesWithin(s: PoolState, ixs: seq<Instruction>)
    ensures OracleLog.PricesWithin(Trace(s, ixs), U64_MAX * Q32)
  {
    if ixs != [] {
      hide Step, Run, TokenPriceX32;
      TracePricesWithin(s, ixs[..|ixs| - 1]);
      PricesDefinedIffReservesPositive(Run(s, ixs[..|ixs| - 1]));
    }
  }

  /** The calls' clocks stay within `span` seconds of one another. */
  ghost predicate ClocksWithin(calls: seq<OracleLog.Call>, span: nat) {
    forall a, b :: a in calls && b in calls ==> a.now - b.now <= span
  }

  /** Whoever reads two visible observations of a pool's oracle gets the exact price integral between
      them when the clocks of its successful swaps stay within 2^32 seconds of one another, or when
      the two timestamps show that the observations are that close. */
  lemma ReadersGetIntegral(s: PoolState, ixs: seq<Instruction>, i: nat, j: nat, first: bool)
    requires Sound(s) && s.oracle == Oracle.Fresh()
    requires var slots := OracleLog.Log(OracleLog.Effective(Trace(s, ixs)));
             OracleLog.Visible(slots, i) && OracleLog.Visible(slots, j) && i <= j
    ensures var o, calls := Run(s, ixs).oracle, Trace(s, ixs);
            var e, slots := OracleLog.Effective(calls), OracleLog.Log(OracleLog.Effective(calls));
            && |o.observations| == Oracle.OBSERVATION_NUM && OracleLog.Increasing(e)
            && var from, to := o.observations[i % Oracle.OBSERVATION_NUM], o.observations[j % Oracle.OBSERVATION_NUM];
               (|| ClocksWithin(calls, TIME_BOUND)
                || to.timestamp - from.timestamp + Oracle.UPDATE_DURATION <= TIME_BOUND
                ==> OracleLog.Difference(o, i, j, first) == OracleLog.IntegralBetween(e, slots[i], slots[j], first))
  {
    hide Sound, Run, Trace, OracleLog.After, OracleLog.Effective, OracleLog.Log, OracleLog.Difference,
         OracleLog.IntegralBetween, OracleLog.PricesWithin, OracleLog.Represents;
    OracleFollowsTrace(s, ixs);
    TracePricesWithin(s, ixs);
    var calls := Trace(s, ixs);
    var e, slots := OracleLog.Effective(calls), OracleLog.Log(OracleLog.Effective(calls));
    OracleLog.DifferenceExactByTimestamps(calls, e, slots, i, j, first, U64_MAX * Q32);
    if ClocksWithin(calls, TIME_BOUND) {
      OracleLog.LogShape(e);
      OracleLog.SlotsInOrder(e, slots, i, j);
      OracleLog.EffectiveFromCalls(calls);
      assert e[slots[j].last] in calls && e[slots[i].last] in calls;
      OracleLog.DifferenceExactWithin(calls, e, slots, i, j, first, U64_MAX * Q32, TIME_BOUND);
    }
  }
}
