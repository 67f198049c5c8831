/** What every instruction keeps: solvency, the LP bound, and the value behind each LP token. */
module PoolInvariant {
  import opened Machine
  import opened Rounding
  import opened Outcomes
  import opened Errors
  import opened Tokens
  import opened ConstantProduct
  import opened Calculator
  import opened QuoteLaws
  import opened Pool
  import opened PoolSteps
  import Oracle

  /** The product of the reserves, of which the LP supply may claim at most the square root. */
  function ReserveProduct(s: PoolState): int {
    Reserve(s, Token0) * Reserve(s, Token1)
  }

  ghost predicate Sound(s: PoolState) {
    && Solvent(s)
    && s.rates.Valid()
    && s.lpSupply >= s.lpMint + LOCKED_LP
    && 0 <= ReserveProduct(s) && s.lpSupply <= IntegerSqrt(ReserveProduct(s))
    && s.oracle.index < |s.oracle.observations| == Oracle.OBSERVATION_NUM
  }

  /** Value per LP token does not fall: reserves per unit of supply, compared by their product. */
  ghost predicate ValueKept(s: PoolState, s': PoolState) {
    ReserveProduct(s') * (s.lpSupply * s.lpSupply) >= ReserveProduct(s) * (s'.lpSupply * s'.lpSupply)
  }

  /** The LP supply is within the root of the product, so its square is within the product. */
  lemma SupplyWithinRoot(s: PoolState)
    requires Sound(s)
    ensures s.lpSupply * s.lpSupply <= ReserveProduct(s)
  {
    SquareMono(s.lpSupply, IntegerSqrt(ReserveProduct(s)));
  }

  lemma SoundIfWithinRoot(s: PoolState)
    requires Solvent(s) && s.rates.Valid() && s.lpSupply >= s.lpMint + LOCKED_LP
    requires s.oracle.index < |s.oracle.observations| == Oracle.OBSERVATION_NUM
    requires s.lpSupply * s.lpSupply <= ReserveProduct(s)
    ensures Sound(s)
  {
    RootIsLargest(s.lpSupply, ReserveProduct(s));
  }

  lemma ReservesPositive(s: PoolState)
    requires Sound(s)
    ensures 0 < Reserve(s, Token0) <= U64_MAX && 0 < Reserve(s, Token1) <= U64_MAX
  {
    SupplyWithinRoot(s);
    MulMono(1, s.lpSupply, s.lpSupply);
  }

  lemma SupplyPositive(s: PoolState)
    requires Sound(s)
    ensures s.lpSupply >= LOCKED_LP
  {
  }

  lemma SwapRatesValid(s: PoolState)
    requires s.rates.Valid()
    ensures SwapRates(s).Valid()
  {
  }

  // ----- Swaps -----

  /** Each fee is added to its own counter on its own side; every other counter is untouched. */
  predicate Booked(s: PoolState, s': PoolState, input: Token, output: Token,
                   protocolFee: nat, fundFee: nat, creatorFee: nat, onInput: bool) {
    var creatorSide, otherSide := if onInput then input else output, if onInput then output else input;
    && ProtocolFees(s', input) == ProtocolFees(s, input) + protocolFee
    && ProtocolFees(s', output) == ProtocolFees(s, output)
    && FundFees(s', input) == FundFees(s, input) + fundFee
    && FundFees(s', output) == FundFees(s, output)
    && CreatorFees(s', creatorSide) == CreatorFees(s, creatorSide) + creatorFee
    && CreatorFees(s', otherSide) == CreatorFees(s, otherSide)
  }

  /** The state a swap leaves behind, read off its quote. */
  predicate Swapped(s: PoolState, s': PoolState, direction: TradeDirection, q: SwapResult) {
    var input, output := InputToken(direction), OutputToken(direction);
    var onInput := IsCreatorFeeOnInput(s.creatorFeeOn, direction);
    && Reserve(s', input) == RealInputReserve(q)
    && Reserve(s', output) == q.newOutputVault
    && Vault(s', input) == Vault(s, input) + q.inputAmount
    && Vault(s', output) == Vault(s, output) - q.outputAmount
    && Booked(s, s', input, output, q.protocolFee, q.fundFee, q.creatorFee, onInput)
    && s'.lpSupply == s.lpSupply && s'.lpMint == s.lpMint && s'.rates == s.rates
    && s'.creatorFeeOn == s.creatorFeeOn && s'.enableCreatorFee == s.enableCreatorFee
    && s'.status == s.status && s'.openTime == s.openTime
  }

  lemma UpdateFeesEffect(s: PoolState, protocolFee: u64, fundFee: u64, creatorFee: u64, direction: TradeDirection)
    requires UpdateFees(s, protocolFee, fundFee, creatorFee, direction).Success?
    ensures var s' := UpdateFees(s, protocolFee, fundFee, creatorFee, direction).value;
            var input, output := InputToken(direction), OutputToken(direction);
            var onInput := IsCreatorFeeOnInput(s.creatorFeeOn, direction);
            && Booked(s, s', input, output, protocolFee, fundFee, creatorFee, onInput)
            && s'.vault0 == s.vault0 && s'.vault1 == s.vault1
            && s'.lpSupply == s.lpSupply && s'.lpMint == s.lpMint && s'.rates == s.rates && s'.oracle == s.oracle
            && s'.creatorFeeOn == s.creatorFeeOn && s'.enableCreatorFee == s.enableCreatorFee
            && s'.status == s.status && s'.openTime == s.openTime
  {
  }

  /** Booking is refused exactly when a creator fee is due on a pool that disables it, or a counter
      overflows. */
  lemma UpdateFeesSucceedsIff(s: PoolState, protocolFee: u64, fundFee: u64, creatorFee: u64, direction: TradeDirection)
    ensures var input, output := InputToken(direction), OutputToken(direction);
            var creatorSide := match s.creatorFeeOn
                               case BothToken => input
                               case OnlyToken0 => Token0
                               case OnlyToken1 => Token1;
            var r := UpdateFees(s, protocolFee, fundFee, creatorFee, direction);
            && (r.Success? <==>
                  && (s.enableCreatorFee || creatorFee == 0)
                  && ProtocolFees(s, input) + protocolFee <= U64_MAX
                  && FundFees(s, input) + fundFee <= U64_MAX
                  && CreatorFees(s, creatorSide) + creatorFee <= U64_MAX)
            && (!s.enableCreatorFee && creatorFee > 0 ==> r == Failure(RequireViolated))
            && (r.Success? ==> CreatorFees(r.value, creatorSide) == CreatorFees(s, creatorSide) + creatorFee)
  {
  }

  /** No settlement passes the guard with a smaller product. */
  lemma GuardStopsLoss(s: PoolState, ctx: Context, params: SwapParams, q: SwapResult,
                       before: u128, after: u128, sent: u64, paid: u64)
    requires after < before
    ensures Settle(s, ctx, params, q, before, after, sent, paid).Failure?
  {
    hide UpdateFees, Oracle.Update;
  }

  lemma SettleEffect(s: PoolState, ctx: Context, params: SwapParams, q: SwapResult,
                     before: u128, after: u128, sent: u64, paid: u64)
    requires Settle(s, ctx, params, q, before, after, sent, paid).Success?
    requires Received(MintOf(ctx, InputToken(params.direction)), sent) == q.inputAmount && paid == q.outputAmount
    requires params.creatorFeeOnInput == IsCreatorFeeOnInput(s.creatorFeeOn, params.direction)
    requires Balanced(q, Reserve(s, InputToken(params.direction)), Reserve(s, OutputToken(params.direction)),
                      params.creatorFeeOnInput)
    ensures var s' := Settle(s, ctx, params, q, before, after, sent, paid).value;
            && Swapped(s, s', params.direction, q)
            && Oracle.Update(s.oracle, ctx.now, params.price0, params.price1) == Success(s'.oracle)
  {
    hide UpdateFees, Oracle.Update, Received;
    UpdateFeesEffect(s, q.protocolFee, q.fundFee, q.creatorFee, params.direction);
  }

  function DirectionOf(inputVault: Token): TradeDirection {
    if inputVault == Token0 then ZeroForOne else OneForZero
  }

  lemma SwapParamsValue(s: PoolState, inputVault: Token, outputVault: Token)
    requires Sound(s)
    ensures GetSwapParams(s, inputVault, outputVault) ==
            if inputVault == outputVault then Failure(InvalidVault)
            else Success(SwapParams(DirectionOf(inputVault), Reserve(s, inputVault), Reserve(s, outputVault),
                                    TokenPriceX32(s).value.0, TokenPriceX32(s).value.1,
                                    IsCreatorFeeOnInput(s.creatorFeeOn, DirectionOf(inputVault))))
  {
    ReservesPositive(s);
    ReservesReadableIffSolvent(s);
    PricesDefinedIffReservesPositive(s);
  }

  /** The quote an exact-in swap of `amountIn` works with. */
  function QuoteIn(s: PoolState, ctx: Context, inputVault: Token, outputVault: Token, amountIn: u64)
    : Checked<SwapResult>
    requires Solvent(s)
  {
    SwapBaseInput(Received(MintOf(ctx, inputVault), amountIn), Reserve(s, inputVault), Reserve(s, outputVault),
                  SwapRates(s), IsCreatorFeeOnInput(s.creatorFeeOn, DirectionOf(inputVault)))
  }

  /** A successful exact-in swap leaves exactly the reserves its quote announced, the input reserve
      richer by what the pool keeps of the trade fee. */
  lemma SwapInMatchesQuote(s: PoolState, ctx: Context, inputVault: Token, outputVault: Token, amountIn: u64,
                           minimumOut: u64)
    requires Sound(s) && SwapIn(s, ctx, inputVault, outputVault, amountIn, minimumOut).Success?
    ensures inputVault != outputVault
    ensures QuoteIn(s, ctx, inputVault, outputVault, amountIn).Some?
    ensures var s' := SwapIn(s, ctx, inputVault, outputVault, amountIn, minimumOut).value;
            && Swapped(s, s', DirectionOf(inputVault), QuoteIn(s, ctx, inputVault, outputVault, amountIn).value)
            && Success(s'.oracle) ==
               Oracle.Update(s.oracle, ctx.now, TokenPriceX32(s).value.0, TokenPriceX32(s).value.1)
  {
    hide SwapBaseInput, Settle, GetSwapParams, TokenPriceX32, Swapped, Balanced;
    ReservesPositive(s);
    SwapRatesValid(s);
    SwapParamsValue(s, inputVault, outputVault);
    PricesDefinedIffReservesPositive(s);
    var params := GetSwapParams(s, inputVault, outputVault).value;
    var actualIn := Received(MintOf(ctx, inputVault), amountIn);
    ExactInBalanced(actualIn, params.inputReserve, params.outputReserve, SwapRates(s), params.creatorFeeOnInput);
    var q := QuoteIn(s, ctx, inputVault, outputVault, amountIn).value;
    SettleEffect(s, ctx, params, q, params.inputReserve * params.outputReserve,
                 q.newInputVault * q.newOutputVault, amountIn, q.outputAmount);
  }

  /** The quote an exact-out swap works with, for the amount the vault pays out. */
  function QuoteOut(s: PoolState, inputVault: Token, outputVault: Token, paid: u64): Checked<SwapResult>
    requires Solvent(s)
  {
    SwapBaseOutput(paid, Reserve(s, inputVault), Reserve(s, outputVault),
                   SwapRates(s), IsCreatorFeeOnInput(s.creatorFeeOn, DirectionOf(inputVault)))
  }

  /** The same for exact-out: the vault is credited exactly the quoted input and pays exactly the
      amount whose transfer delivers `amountOut`. */
  lemma SwapOutMatchesQuote(s: PoolState, ctx: Context, inputVault: Token, outputVault: Token, maximumIn: u64,
                            amountOut: u64)
    requires Sound(s) && SwapOut(s, ctx, inputVault, outputVault, maximumIn, amountOut).Success?
    ensures inputVault != outputVault
    ensures AmountToSend(MintOf(ctx, outputVault), amountOut).Success?
    ensures var paid := AmountToSend(MintOf(ctx, outputVault), amountOut).value;
            && Received(MintOf(ctx, outputVault), paid) == amountOut
            && QuoteOut(s, inputVault, outputVault, paid).Some?
            && QuoteOut(s, inputVault, outputVault, paid).value.inputAmount <= U64_MAX
            && var s' := SwapOut(s, ctx, inputVault, outputVault, maximumIn, amountOut).value;
               && Swapped(s, s', DirectionOf(inputVault), QuoteOut(s, inputVault, outputVault, paid).value)
               && Success(s'.oracle) ==
                  Oracle.Update(s.oracle, ctx.now, TokenPriceX32(s).value.0, TokenPriceX32(s).value.1)
  {
    hide SwapBaseOutput, Settle, GetSwapParams, TokenPriceX32, Swapped, Balanced, AmountToSend;
    ReservesPositive(s);
    SwapRatesValid(s);
    SwapParamsValue(s, inputVault, outputVault);
    PricesDefinedIffReservesPositive(s);
    var params := GetSwapParams(s, inputVault, outputVault).value;
    var paid := AmountToSend(MintOf(ctx, outputVault), amountOut).value;
    SendingDeliversExactly(MintOf(ctx, outputVault), amountOut);
    ExactOutBalanced(paid, params.inputReserve, params.outputReserve, SwapRates(s), params.creatorFeeOnInput);
    var q := QuoteOut(s, inputVault, outputVault, paid).value;
    SendingDeliversExactly(MintOf(ctx, inputVault), q.inputAmount);
    var sent := AmountToSend(MintOf(ctx, inputVault), q.inputAmount).value;
    SettleEffect(s, ctx, params, q, params.inputReserve * params.outputReserve,
                 q.newInputVault * q.newOutputVault, sent, paid);
  }

  lemma ProductAfterSwap(s: PoolState, s': PoolState, direction: TradeDirection, q: SwapResult)
    requires Swapped(s, s', direction, q)
    ensures ReserveProduct(s') == RealInputReserve(q) * q.newOutputVault
  {
    hide RealInputReserve, Vault, FeesOwed, Reserve;
  }

  /** Any quote that passes the guard and leaves positive reserves keeps the pool sound and its
      value per LP token. */
  lemma SwappedKeeps(s: PoolState, s': PoolState, direction: TradeDirection, q: SwapResult)
    requires Sound(s) && Swapped(s, s', direction, q)
    requires s'.oracle.index < |s'.oracle.observations| == Oracle.OBSERVATION_NUM
    requires ReserveProduct(s) <= q.newInputVault * q.newOutputVault
    requires q.newInputVault <= RealInputReserve(q)
    ensures Sound(s') && ValueKept(s, s')
  {
    hide ReserveProduct, Vault, FeesOwed, IntegerSqrt, RealInputReserve, Reserve;
    ProductAfterSwap(s, s', direction, q);
    MulMono(q.newInputVault, RealInputReserve(q), q.newOutputVault);
    MulMono(ReserveProduct(s), ReserveProduct(s'), s.lpSupply * s.lpSupply);
    SupplyWithinRoot(s);
    SoundIfWithinRoot(s');
  }

  lemma GuardKeepsProduct(s: PoolState, inputVault: Token, outputVault: Token, q: SwapResult)
    requires Sound(s) && inputVault != outputVault
    requires 0 <= Reserve(s, inputVault) <= U64_MAX && 0 <= Reserve(s, outputVault) <= U64_MAX
    requires GuardPasses(q, Reserve(s, inputVault), Reserve(s, outputVault))
    ensures ReserveProduct(s) <= q.newInputVault * q.newOutputVault
  {
  }

  lemma OracleKeepsLength(o: Oracle.OracleState, now: u64, price0: u128, price1: u128)
    requires o.index < |o.observations| == Oracle.OBSERVATION_NUM
    requires Oracle.Update(o, now, price0, price1).Success?
    ensures var o' := Oracle.Update(o, now, price0, price1).value;
            o'.index < |o'.observations| == Oracle.OBSERVATION_NUM
  {
  }

  lemma SwapInKeeps(s: PoolState, ctx: Context, inputVault: Token, outputVault: Token, amountIn: u64, minimumOut: u64)
    requires Sound(s) && SwapIn(s, ctx, inputVault, outputVault, amountIn, minimumOut).Success?
    ensures var s' := SwapIn(s, ctx, inputVault, outputVault, amountIn, minimumOut).value;
            Sound(s') && ValueKept(s, s')
  {
    hide SwapIn, SwapBaseInput, Oracle.Update, TokenPriceX32, Swapped, ValueKept, GuardPasses, RealInputReserve;
    ReservesPositive(s);
    SwapRatesValid(s);
    SwapInMatchesQuote(s, ctx, inputVault, outputVault, amountIn, minimumOut);
    var s' := SwapIn(s, ctx, inputVault, outputVault, amountIn, minimumOut).value;
    PricesDefinedIffReservesPositive(s);
    OracleKeepsLength(s.oracle, ctx.now, TokenPriceX32(s).value.0, TokenPriceX32(s).value.1);
    GuardAcceptsExactIn(Received(MintOf(ctx, inputVault), amountIn), Reserve(s, inputVault), Reserve(s, outputVault),
                        SwapRates(s), IsCreatorFeeOnInput(s.creatorFeeOn, DirectionOf(inputVault)));
    var q := QuoteIn(s, ctx, inputVault, outputVault, amountIn).value;
    GuardKeepsProduct(s, inputVault, outputVault, q);
    SwappedKeeps(s, s', DirectionOf(inputVault), q);
  }

  lemma SwapOutKeeps(s: PoolState, ctx: Context, inputVault: Token, outputVault: Token, maximumIn: u64, amountOut: u64)
    requires Sound(s) && SwapOut(s, ctx, inputVault, outputVault, maximumIn, amountOut).Success?
    ensures var s' := SwapOut(s, ctx, inputVault, outputVault, maximumIn, amountOut).value;
            Sound(s') && ValueKept(s, s')
  {
    hide SwapOut, SwapBaseOutput, Oracle.Update, TokenPriceX32, Swapped, ValueKept, GuardPasses, RealInputReserve;
    ReservesPositive(s);
    SwapRatesValid(s);
    SwapOutMatchesQuote(s, ctx, inputVault, outputVault, maximumIn, amountOut);
    var s' := SwapOut(s, ctx, inputVault, outputVault, maximumIn, amountOut).value;
    var paid := AmountToSend(MintOf(ctx, outputVault), amountOut).value;
    PricesDefinedIffReservesPositive(s);
    OracleKeepsLength(s.oracle, ctx.now, TokenPriceX32(s).value.0, TokenPriceX32(s).value.1);
    GuardAcceptsExactOut(paid, Reserve(s, inputVault), Reserve(s, outputVault),
                         SwapRates(s), IsCreatorFeeOnInput(s.creatorFeeOn, DirectionOf(inputVault)));
    var q := QuoteOut(s, inputVault, outputVault, paid).value;
    GuardKeepsProduct(s, inputVault, outputVault, q);
    SwappedKeeps(s, s', DirectionOf(inputVault), q);
  }

  // ----- Liquidity -----

  /** When each reserve grows at least in proportion to the LP supply, the bound and the value per
      LP token are kept. */
  lemma ProportionKeeps(r0: nat, r1: nat, supply: nat, r0': nat, r1': nat, supply': nat)
    requires supply > 0 && supply * supply <= r0 * r1
    requires r0 * supply' <= r0' * supply
    requires r1 * supply' <= r1' * supply
    ensures r0' * r1' * (supply * supply) >= r0 * r1 * (supply' * supply')
    ensures supply' * supply' <= r0' * r1'
  {
    var a, b := r0 * supply', r0' * supply;
    var c, d := r1 * supply', r1' * supply;
    MulMono(a, b, c);
    MulMono(c, d, b);
    assert a * c == r0 * r1 * (supply' * supply');
    assert b * d == r0' * r1' * (supply * supply);
    MulMono(supply * supply, r0 * r1, supply' * supply');
    assert supply * supply > 0;
    CancelLe(supply' * supply', r0' * r1', supply * supply);
  }

  lemma InProportion(r: int, supply: int, l: int, t: int)
    requires l * r <= t * supply
    ensures r * (supply + l) <= (r + t) * supply
  {
    assert r * (supply + l) == r * supply + l * r;
    assert (r + t) * supply == r * supply + t * supply;
  }

  lemma OutOfProportion(r: int, supply: int, l: int, t: int)
    requires t * supply <= l * r
    ensures r * (supply - l) <= (r - t) * supply
  {
    assert r * (supply - l) == r * supply - l * r;
    assert (r - t) * supply == r * supply - t * supply;
  }

  /** What a deposit does: both reserves grow by the ceiling of their share, exactly as with mints
      that charge nothing, and supply and mint by the LP amount. */
  lemma DepositEffect(s: PoolState, ctx: Context, lpAmount: u64, maximum0: u64, maximum1: u64)
    requires Sound(s) && Deposit(s, ctx, lpAmount, maximum0, maximum1).Success?
    ensures var s' := Deposit(s, ctx, lpAmount, maximum0, maximum1).value;
            var t0 := CeilShare(lpAmount, s.lpSupply, Reserve(s, Token0));
            var t1 := CeilShare(lpAmount, s.lpSupply, Reserve(s, Token1));
            && 0 < FloorShare(lpAmount, s.lpSupply, Reserve(s, Token0))
            && 0 < FloorShare(lpAmount, s.lpSupply, Reserve(s, Token1))
            && 0 < lpAmount && 0 < t0 && 0 < t1
            && Reserve(s', Token0) == Reserve(s, Token0) + t0
            && Reserve(s', Token1) == Reserve(s, Token1) + t1
            && s'.lpSupply == s.lpSupply + lpAmount
            && s' == s.(vault0 := s.vault0 + t0, vault1 := s.vault1 + t1,
                        lpSupply := s.lpSupply + lpAmount, lpMint := s.lpMint + lpAmount)
  {
    hide LpShare, AmountToSend, FloorShare, CeilShare;
    ReservesReadableIffSolvent(s);
    ReservesPositive(s);
    LpShareValue(lpAmount, s.lpSupply, Reserve(s, Token0), Ceiling);
    LpShareValue(lpAmount, s.lpSupply, Reserve(s, Token1), Ceiling);
    var t0 := CeilShare(lpAmount, s.lpSupply, Reserve(s, Token0));
    var t1 := CeilShare(lpAmount, s.lpSupply, Reserve(s, Token1));
    SendingDeliversExactly(ctx.mint0, t0);
    SendingDeliversExactly(ctx.mint1, t1);
  }

  lemma DepositKeeps(s: PoolState, ctx: Context, lpAmount: u64, maximum0: u64, maximum1: u64)
    requires Sound(s) && Deposit(s, ctx, lpAmount, maximum0, maximum1).Success?
    ensures var s' := Deposit(s, ctx, lpAmount, maximum0, maximum1).value;
            Sound(s') && ValueKept(s, s')
  {
    hide Deposit, CeilShare, FloorShare, Reserve;
    ReservesPositive(s);
    DepositEffect(s, ctx, lpAmount, maximum0, maximum1);
    var r0, r1 := Reserve(s, Token0), Reserve(s, Token1);
    DepositShare(lpAmount, s.lpSupply, r0);
    DepositShare(lpAmount, s.lpSupply, r1);
    var t0, t1 := CeilShare(lpAmount, s.lpSupply, r0), CeilShare(lpAmount, s.lpSupply, r1);
    SupplyWithinRoot(s);
    InProportion(r0, s.lpSupply, lpAmount, t0);
    InProportion(r1, s.lpSupply, lpAmount, t1);
    ProportionKeeps(r0, r1, s.lpSupply, r0 + t0, r1 + t1, s.lpSupply + lpAmount);
    SoundIfWithinRoot(Deposit(s, ctx, lpAmount, maximum0, maximum1).value);
  }

  /** What a withdrawal does: both vaults pay the floor of their share. */
  lemma WithdrawEffect(s: PoolState, ctx: Context, ownerLp: u64, lpAmount: u64, minimum0: u64, minimum1: u64)
    requires Sound(s) && Withdraw(s, ctx, ownerLp, lpAmount, minimum0, minimum1).Success?
    ensures var s' := Withdraw(s, ctx, ownerLp, lpAmount, minimum0, minimum1).value;
            var t0 := FloorShare(lpAmount, s.lpSupply, Reserve(s, Token0));
            var t1 := FloorShare(lpAmount, s.lpSupply, Reserve(s, Token1));
            && lpAmount <= s.lpMint
            && 0 < t0 <= Reserve(s, Token0) && 0 < t1 <= Reserve(s, Token1)
            && Reserve(s', Token0) == Reserve(s, Token0) - t0
            && Reserve(s', Token1) == Reserve(s, Token1) - t1
            && s'.lpSupply == s.lpSupply - lpAmount
            && s' == s.(vault0 := s.vault0 - t0, vault1 := s.vault1 - t1,
                        lpSupply := s.lpSupply - lpAmount, lpMint := s.lpMint - lpAmount)
  {
    hide LpShare, FloorShare;
    ReservesReadableIffSolvent(s);
    ReservesPositive(s);
    LpShareValue(lpAmount, s.lpSupply, Reserve(s, Token0), Floor);
    LpShareValue(lpAmount, s.lpSupply, Reserve(s, Token1), Floor);
    WithdrawShare(lpAmount, s.lpSupply, Reserve(s, Token0));
    WithdrawShare(lpAmount, s.lpSupply, Reserve(s, Token1));
  }

  lemma WithdrawKeeps(s: PoolState, ctx: Context, ownerLp: u64, lpAmount: u64, minimum0: u64, minimum1: u64)
    requires Sound(s) && Withdraw(s, ctx, ownerLp, lpAmount, minimum0, minimum1).Success?
    ensures var s' := Withdraw(s, ctx, ownerLp, lpAmount, minimum0, minimum1).value;
            Sound(s') && ValueKept(s, s')
  {
    hide Withdraw, Reserve, FloorShare;
    ReservesPositive(s);
    WithdrawEffect(s, ctx, ownerLp, lpAmount, minimum0, minimum1);
    var r0, r1 := Reserve(s, Token0), Reserve(s, Token1);
    WithdrawShare(lpAmount, s.lpSupply, r0);
    WithdrawShare(lpAmount, s.lpSupply, r1);
    var t0, t1 := FloorShare(lpAmount, s.lpSupply, r0), FloorShare(lpAmount, s.lpSupply, r1);
    SupplyWithinRoot(s);
    OutOfProportion(r0, s.lpSupply, lpAmount, t0);
    OutOfProportion(r1, s.lpSupply, lpAmount, t1);
    ProportionKeeps(r0, r1, s.lpSupply, r0 - t0, r1 - t1, s.lpSupply - lpAmount);
    SoundIfWithinRoot(Withdraw(s, ctx, ownerLp, lpAmount, minimum0, minimum1).value);
  }

  // ----- Everything -----

  lemma GrowingReservesKeep(s: PoolState, s': PoolState)
    requires Sound(s) && s'.rates.Valid() && s'.oracle == s.oracle
    requires Reserve(s, Token0) <= Reserve(s', Token0) && Reserve(s, Token1) <= Reserve(s', Token1)
    requires s'.lpSupply == s.lpSupply && s'.lpMint <= s.lpMint
    ensures Sound(s') && ValueKept(s, s')
  {
    SupplyWithinRoot(s);
    MulBound(Reserve(s, Token0), Reserve(s, Token1), Reserve(s', Token0), Reserve(s', Token1));
    MulMono(ReserveProduct(s), ReserveProduct(s'), s.lpSupply * s.lpSupply);
    SoundIfWithinRoot(s');
  }

  /** Tokens sent straight to a vault belong to the liquidity providers, to the last unit. */
  lemma DonationGoesToReserve(s: PoolState, vault: Token, amount: u64)
    ensures Donate(s, vault, amount).Success? <==> Vault(s, vault) + amount <= U64_MAX
    ensures Donate(s, vault, amount).Success? ==>
              var s' := Donate(s, vault, amount).value;
              && Reserve(s', vault) == Reserve(s, vault) + amount
              && s' == s.(vault0 := s'.vault0, vault1 := s'.vault1)
              && forall t :: t != vault ==> Vault(s', t) == Vault(s, t)
  {
  }

  /** Every successful step keeps the pool sound and its value per LP token. */
  lemma StepKeeps(s: PoolState, ix: Instruction)
    requires Sound(s) && Step(s, ix).Success?
    ensures Sound(Step(s, ix).value) && ValueKept(s, Step(s, ix).value)
  {
    hide Deposit, Withdraw, SwapIn, SwapOut, Sound, ValueKept;
    var s' := Step(s, ix).value;
    match ix
    case DepositIx(ctx, lpAmount, maximum0, maximum1) => DepositKeeps(s, ctx, lpAmount, maximum0, maximum1);
    case WithdrawIx(ctx, ownerLp, lpAmount, minimum0, minimum1) =>
      WithdrawKeeps(s, ctx, ownerLp, lpAmount, minimum0, minimum1);
    case SwapInIx(ctx, inputVault, outputVault, amountIn, minimumOut) =>
      SwapInKeeps(s, ctx, inputVault, outputVault, amountIn, minimumOut);
    case SwapOutIx(ctx, inputVault, outputVault, maximumIn, amountOut) =>
      SwapOutKeeps(s, ctx, inputVault, outputVault, maximumIn, amountOut);
    case _ => OtherStepKeeps(s, ix);
  }

  lemma OtherStepKeeps(s: PoolState, ix: Instruction)
    requires Sound(s) && Step(s, ix).Success?
    requires !ix.DepositIx? && !ix.WithdrawIx? && !ix.SwapInIx? && !ix.SwapOutIx?
    ensures Sound(Step(s, ix).value) && ValueKept(s, Step(s, ix).value)
  {
    hide Sound, ValueKept;
    SoundParts(s);
    GrowingReservesKeep(s, Step(s, ix).value);
  }

  lemma SoundParts(s: PoolState)
    requires Sound(s)
    ensures s.rates.Valid() && Solvent(s)
  {
  }

  /** Creation yields a sound pool: what arrived is in the vaults, nothing is owed, the supply is the
      root of the amounts with 100 of it unminted, and it opens when asked for, or a second later. */
  lemma InitializeIsSound(ctx: Context, rates: FeeRates, amount0: u64, amount1: u64, openTime: u64,
                          creatorFeeOn: CreatorFeeOn, enableCreatorFee: bool)
    requires rates.Valid()
    requires Initialize(ctx, rates, amount0, amount1, openTime, creatorFeeOn, enableCreatorFee).Success?
    ensures var s := Initialize(ctx, rates, amount0, amount1, openTime, creatorFeeOn, enableCreatorFee).value;
            && Sound(s)
            && ReserveProduct(s) < (s.lpSupply + 1) * (s.lpSupply + 1)
            && s.lpSupply >= 100
            && (openTime > ctx.now || ctx.now < U64_MAX)
            && s == PoolState(Received(ctx.mint0, amount0), Received(ctx.mint1, amount1), 0, 0, 0, 0, 0, 0,
                              s.lpSupply, s.lpSupply - 100, creatorFeeOn, enableCreatorFee, 0,
                              if openTime > ctx.now then openTime else ctx.now + 1, rates, s.oracle)
            && Approved(s.status, DepositBit) && Approved(s.status, WithdrawBit) && Approved(s.status, SwapBit)
            && s.oracle == Oracle.Fresh()
  {
    hide IntegerSqrt, Oracle.Fresh;
    var s := Initialize(ctx, rates, amount0, amount1, openTime, creatorFeeOn, enableCreatorFee).value;
    assert ReserveProduct(s) == s.vault0 * s.vault1;
    assert s.lpSupply == IntegerSqrt(s.vault0 * s.vault1);
  }

  /** Creation succeeds exactly when the creator has both amounts, what arrives of them multiplies to
      at least 10,000, so that its root covers the locked LP, and the opening time is representable. */
  lemma InitializeSucceedsIff(ctx: Context, rates: FeeRates, amount0: u64, amount1: u64, openTime: u64,
                              creatorFeeOn: CreatorFeeOn, enableCreatorFee: bool)
    ensures Initialize(ctx, rates, amount0, amount1, openTime, creatorFeeOn, enableCreatorFee).Success? <==>
            && amount0 <= ctx.payer0 && amount1 <= ctx.payer1
            && Received(ctx.mint0, amount0) * Received(ctx.mint1, amount1) >= 10_000
            && (openTime > ctx.now || ctx.now < U64_MAX)
  {
    hide IntegerSqrt, Oracle.Fresh;
    var v0: nat, v1: nat := Received(ctx.mint0, amount0), Received(ctx.mint1, amount1);
    MulU64(v0, v1);
    var product: nat := v0 * v1;
    var root := IntegerSqrt(product);
    SquareMono(root, U64_MAX);
    if product >= 10_000 { RootIsLargest(100, product); }
    if root >= 100 { MulBound(100, 100, root, root); }
  }
}
