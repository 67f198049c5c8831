/** What swaps book to the six fee counters, written out from the configuration with its numbers, and
    the ledger of every counter over whole runs. */
module FeeLedger {
  import opened Machine
  import opened Rounding
  import opened Outcomes
  import opened Errors
  import opened Tokens
  import opened Fees
  import opened ConstantProduct
  import opened Calculator
  import opened QuoteLaws
  import opened Pool
  import opened PoolSteps
  import opened PoolInvariant
  import AmmConfig
  import PoolRun

  // ----- One swap -----

  /** The creator fee comes out of what the trader pays in, not out of what the trader gets. */
  predicate CreatorPaidIn(s: PoolState, input: Token) {
    match s.creatorFeeOn
    case BothToken => true
    case OnlyToken0 => input == Token0
    case OnlyToken1 => input == Token1
  }

  function CreatorRate(s: PoolState): nat {
    if s.enableCreatorFee then s.rates.creator else 0
  }

  /** What a swap charges, and how the trade fee is shared. */
  datatype Dues = Dues(trade: int, protocol: int, fund: int, creator: int)

  /** The dues of a swap that credits `credited` to the input vault and takes `swapped` from the
      output reserve, rates being millionths. */
  function DuesOf(s: PoolState, input: Token, credited: nat, swapped: nat): Dues {
    var rate := s.rates.trade + CreatorRate(s);
    var creator :=
      if !CreatorPaidIn(s, input) then CeilDiv(swapped * CreatorRate(s), 1_000_000)
      else if rate == 0 then 0
      else CeilDiv(credited * rate, 1_000_000) * CreatorRate(s) / rate;
    var trade :=
      if CreatorPaidIn(s, input) then CeilDiv(credited * rate, 1_000_000) - creator
      else CeilDiv(credited * s.rates.trade, 1_000_000);
    Dues(trade, trade * s.rates.protocol / 1_000_000, trade * s.rates.fund / 1_000_000, creator)
  }

  /** What stays of a credited input for the curve. */
  function Swappable(s: PoolState, input: Token, credited: nat, swapped: nat): int {
    var dues := DuesOf(s, input, credited, swapped);
    credited - dues.trade - (if CreatorPaidIn(s, input) then dues.creator else 0)
  }

  /** Every counter after a swap, from its dues. */
  predicate BooksDues(s: PoolState, s': PoolState, input: Token, output: Token, dues: Dues) {
    && ProtocolFees(s', input) == ProtocolFees(s, input) + dues.protocol
    && ProtocolFees(s', output) == ProtocolFees(s, output)
    && FundFees(s', input) == FundFees(s, input) + dues.fund
    && FundFees(s', output) == FundFees(s, output)
    && CreatorFees(s', input) == CreatorFees(s, input) + (if CreatorPaidIn(s, input) then dues.creator else 0)
    && CreatorFees(s', output) == CreatorFees(s, output) + (if CreatorPaidIn(s, input) then 0 else dues.creator)
  }

  /** The fields of a quote in terms of the configuration. */
  lemma QuoteCharges(s: PoolState, input: Token, q: SwapResult, swapped: nat)
    requires s.rates.Valid() && q.inputAmount <= U64_MAX
    requires var onInput := IsCreatorFeeOnInput(s.creatorFeeOn, DirectionOf(input));
             && Splittable(SwapRates(s), onInput)
             && FeesMatch(q, SwapRates(s), onInput, swapped)
             && (!onInput ==> swapped - q.outputAmount == CeilDiv(swapped * CreatorRate(s), 1_000_000))
    ensures DuesOf(s, input, q.inputAmount, swapped) == Dues(q.tradeFee, q.protocolFee, q.fundFee, q.creatorFee)
    ensures CreatorPaidIn(s, input) == IsCreatorFeeOnInput(s.creatorFeeOn, DirectionOf(input))
    ensures Swappable(s, input, q.inputAmount, swapped) ==
            Net(q.inputAmount, InputRate(SwapRates(s), IsCreatorFeeOnInput(s.creatorFeeOn, DirectionOf(input))))
  {
    hide CeilDiv;
  }

  /** A swap books the dues of its quote. */
  lemma SwappedBooks(s: PoolState, s': PoolState, input: Token, output: Token, q: SwapResult, dues: Dues)
    requires input != output && Swapped(s, s', DirectionOf(input), q)
    requires dues == Dues(q.tradeFee, q.protocolFee, q.fundFee, q.creatorFee)
    requires CreatorPaidIn(s, input) == IsCreatorFeeOnInput(s.creatorFeeOn, DirectionOf(input))
    ensures BooksDues(s, s', input, output, dues)
    ensures Reserve(s', output) == q.newOutputVault
    ensures Vault(s', input) == Vault(s, input) + q.inputAmount
    ensures Vault(s', output) == Vault(s, output) - q.outputAmount
  {
    hide Reserve, RealInputReserve, CreatorPaidIn, IsCreatorFeeOnInput;
  }

  /** What crediting `credited` does to the vaults, the output reserve and the counters. */
  predicate ExactInBooks(s: PoolState, s': PoolState, input: Token, output: Token, credited: nat) {
    var swapped := Reserve(s, output) - Reserve(s', output);
    && Vault(s', input) == Vault(s, input) + credited
    && swapped >= 0 && Reserve(s, input) > 0 && Reserve(s, output) > 0
    && BooksDues(s, s', input, output, DuesOf(s, input, credited, swapped))
    && var net := Swappable(s, input, credited, swapped);
       net >= 0 && swapped == CurveOut(net, Reserve(s, input), Reserve(s, output))
  }

  /** An exact-in swap does that with what arrives of the amount, from the configuration alone. */
  lemma SwapInBooks(s: PoolState, ctx: Context, inputVault: Token, outputVault: Token, amountIn: u64, minimumOut: u64)
    requires Sound(s) && SwapIn(s, ctx, inputVault, outputVault, amountIn, minimumOut).Success?
    ensures ExactInBooks(s, SwapIn(s, ctx, inputVault, outputVault, amountIn, minimumOut).value,
                         inputVault, outputVault, Received(MintOf(ctx, inputVault), amountIn))
  {
    hide SwapIn, SwapBaseInput, Reserve, Vault, Net, DuesOf, Swappable, CreatorPaidIn, SwapRates, ReserveProduct,
         Sound, Swapped, BooksDues, FeesMatch, CeilDiv, IsCreatorFeeOnInput, CurveOut;
    SoundParts(s);
    ReservesPositive(s);
    SwapRatesValid(s);
    SwapInMatchesQuote(s, ctx, inputVault, outputVault, amountIn, minimumOut);
    var s' := SwapIn(s, ctx, inputVault, outputVault, amountIn, minimumOut).value;
    var onInput := IsCreatorFeeOnInput(s.creatorFeeOn, DirectionOf(inputVault));
    var credited := Received(MintOf(ctx, inputVault), amountIn);
    var q := QuoteIn(s, ctx, inputVault, outputVault, amountIn).value;
    SwapBaseInputValue(credited, Reserve(s, inputVault), Reserve(s, outputVault), SwapRates(s), onInput);
    var swapped := Reserve(s, outputVault) - q.newOutputVault;
    NetIsCeil(s, swapped, onInput);
    QuoteCharges(s, inputVault, q, swapped);
    SwappedBooks(s, s', inputVault, outputVault, q, DuesOf(s, inputVault, credited, swapped));
  }

  /** The output fee with its numbers. */
  lemma NetIsCeil(s: PoolState, swapped: nat, onInput: bool)
    ensures !onInput ==>
              Net(swapped, OutputRate(SwapRates(s), onInput)) == swapped - CeilDiv(swapped * CreatorRate(s), 1_000_000)
  {
  }

  /** What must leave the reserve for the vault to pay `paid`. */
  function GrossPayment(s: PoolState, input: Token, paid: nat): nat
    requires CreatorRate(s) < 1_000_000
  {
    if CreatorPaidIn(s, input) then paid else CeilDiv(paid * 1_000_000, 1_000_000 - CreatorRate(s))
  }

  /** What must be credited for `net` to reach the curve. */
  function GrossCost(s: PoolState, input: Token, net: nat): nat
    requires s.rates.trade + CreatorRate(s) < 1_000_000
  {
    CeilDiv(net * 1_000_000, 1_000_000 - s.rates.trade - (if CreatorPaidIn(s, input) then CreatorRate(s) else 0))
  }

  lemma GrossInNumbers(s: PoolState, input: Token, paid: nat, net: nat)
    requires s.rates.Valid() && s.rates.trade + CreatorRate(s) < 1_000_000
    ensures var onInput := IsCreatorFeeOnInput(s.creatorFeeOn, DirectionOf(input));
            && OutputRate(SwapRates(s), onInput) < 1_000_000 && InputRate(SwapRates(s), onInput) < 1_000_000
            && GrossPayment(s, input, paid) == Gross(paid, OutputRate(SwapRates(s), onInput))
            && GrossCost(s, input, net) == Gross(net, InputRate(SwapRates(s), onInput))
  {
    hide CeilDiv;
    if CreatorPaidIn(s, input) { GrossBounds(paid, 0); }
  }

  /** What paying `paid` does: it fixes what is swapped, and that what is credited. */
  predicate ExactOutBooks(s: PoolState, s': PoolState, input: Token, output: Token, paid: nat) {
    && s.rates.trade + CreatorRate(s) < 1_000_000
    && var swapped := GrossPayment(s, input, paid);
       && Reserve(s, input) > 0 && swapped < Reserve(s, output)
       && var credited := GrossCost(s, input, CurveIn(swapped, Reserve(s, input), Reserve(s, output)));
          && Vault(s', input) == Vault(s, input) + credited
          && Vault(s', output) == Vault(s, output) - paid
          && Reserve(s', output) == Reserve(s, output) - swapped
          && BooksDues(s, s', input, output, DuesOf(s, input, credited, swapped))
  }

  /** An exact-out swap does that with the amount whose transfer delivers what was asked for. */
  lemma SwapOutBooks(s: PoolState, ctx: Context, inputVault: Token, outputVault: Token, maximumIn: u64, amountOut: u64)
    requires Sound(s) && SwapOut(s, ctx, inputVault, outputVault, maximumIn, amountOut).Success?
    ensures AmountToSend(MintOf(ctx, outputVault), amountOut).Success?
    ensures ExactOutBooks(s, SwapOut(s, ctx, inputVault, outputVault, maximumIn, amountOut).value,
                          inputVault, outputVault, AmountToSend(MintOf(ctx, outputVault), amountOut).value)
  {
    hide SwapOut, SwapBaseOutput, Reserve, Vault, Net, Gross, DuesOf, Swappable, CreatorPaidIn, SwapRates,
         ReserveProduct, Sound, Swapped, BooksDues, FeesMatch, CeilDiv, IsCreatorFeeOnInput, CurveIn, AmountToSend;
    SoundParts(s);
    ReservesPositive(s);
    SwapRatesValid(s);
    RatesInNumbers(s);
    SwapOutMatchesQuote(s, ctx, inputVault, outputVault, maximumIn, amountOut);
    var s' := SwapOut(s, ctx, inputVault, outputVault, maximumIn, amountOut).value;
    var onInput := IsCreatorFeeOnInput(s.creatorFeeOn, DirectionOf(inputVault));
    var paid := AmountToSend(MintOf(ctx, outputVault), amountOut).value;
    var q := QuoteOut(s, inputVault, outputVault, paid).value;
    SwapBaseOutputValue(paid, Reserve(s, inputVault), Reserve(s, outputVault), SwapRates(s), onInput);
    var swapped := Gross(paid, OutputRate(SwapRates(s), onInput));
    GrossUpIsExact(paid, OutputRate(SwapRates(s), onInput));
    NetIsCeil(s, swapped, onInput);
    QuoteCharges(s, inputVault, q, swapped);
    GrossInNumbers(s, inputVault, paid, CurveIn(swapped, Reserve(s, inputVault), Reserve(s, outputVault)));
    SwappedBooks(s, s', inputVault, outputVault, q, DuesOf(s, inputVault, q.inputAmount, swapped));
  }

  lemma RatesInNumbers(s: PoolState)
    requires s.rates.Valid()
    ensures s.rates.trade + CreatorRate(s) < 1_000_000
  {
  }

  /** The creator is paid in the configured token only, in the input token when both are allowed, and
      nothing at all while the creator fee is disabled. */
  lemma CreatorFeeSide(s: PoolState, ix: Instruction)
    requires Sound(s) && (ix.SwapInIx? || ix.SwapOutIx?) && Step(s, ix).Success?
    ensures var s' := Step(s, ix).value;
            && (s.creatorFeeOn == OnlyToken0 ==> s'.creatorFees1 == s.creatorFees1)
            && (s.creatorFeeOn == OnlyToken1 ==> s'.creatorFees0 == s.creatorFees0)
            && (s.creatorFeeOn == BothToken && ix.outputVault == Token0 ==> s'.creatorFees0 == s.creatorFees0)
            && (s.creatorFeeOn == BothToken && ix.outputVault == Token1 ==> s'.creatorFees1 == s.creatorFees1)
            && (!s.enableCreatorFee ==> s'.creatorFees0 == s.creatorFees0 && s'.creatorFees1 == s.creatorFees1)
  {
    hide Sound, SwapIn, SwapOut, DuesOf, Swappable, CurveIn, CurveOut, GrossCost, GrossPayment, AmountToSend;
    SwapBooks(s, ix);
    NoDuesWhileDisabled(s, ix.inputVault, CreditedBy(s, ix), SwappedBy(s, ix));
  }

  lemma NoDuesWhileDisabled(s: PoolState, input: Token, credited: nat, swapped: nat)
    ensures !s.enableCreatorFee ==> DuesOf(s, input, credited, swapped).creator == 0
  {
    hide CeilDiv;
    if !s.enableCreatorFee {
      ShareOfNothing(swapped, CeilDiv(credited * (s.rates.trade + CreatorRate(s)), 1_000_000), s.rates.trade);
    }
  }

  lemma ShareOfNothing(swapped: nat, total: nat, rate: nat)
    ensures CeilDiv(swapped * 0, 1_000_000) == 0
    ensures rate > 0 ==> total * 0 / rate == 0
  {
    assert swapped * 0 == 0 && total * 0 == 0;
  }

  // ----- The ledger -----

  /** What a swap credits, and what it takes from the output reserve. */
  function CreditedBy(s: PoolState, ix: Instruction): nat
    requires ix.SwapInIx? || ix.SwapOutIx?
  {
    var credited := Vault(Next(s, ix), ix.inputVault) - Vault(s, ix.inputVault);
    if credited >= 0 then credited else 0
  }

  function SwappedBy(s: PoolState, ix: Instruction): nat
    requires ix.SwapInIx? || ix.SwapOutIx?
  {
    var swapped := Reserve(s, ix.outputVault) - Reserve(Next(s, ix), ix.outputVault);
    if swapped >= 0 then swapped else 0
  }

  lemma SwapBooks(s: PoolState, ix: Instruction)
    requires Sound(s) && (ix.SwapInIx? || ix.SwapOutIx?) && Step(s, ix).Success?
    ensures ix.inputVault != ix.outputVault
    ensures BooksDues(s, Step(s, ix).value, ix.inputVault, ix.outputVault,
                      DuesOf(s, ix.inputVault, CreditedBy(s, ix), SwappedBy(s, ix)))
  {
    hide Sound, SwapIn, SwapOut, DuesOf, Swappable, BooksDues, Reserve, Vault, CurveIn, CurveOut, GrossCost,
         GrossPayment, AmountToSend, Swapped, QuoteIn, QuoteOut, CreatorRate;
    match ix
    case SwapInIx(ctx, inputVault, outputVault, amountIn, minimumOut) =>
      SwapInBooks(s, ctx, inputVault, outputVault, amountIn, minimumOut);
      SwapInMatchesQuote(s, ctx, inputVault, outputVault, amountIn, minimumOut);
    case SwapOutIx(ctx, inputVault, outputVault, maximumIn, amountOut) =>
      SwapOutBooks(s, ctx, inputVault, outputVault, maximumIn, amountOut);
      SwapOutMatchesQuote(s, ctx, inputVault, outputVault, maximumIn, amountOut);
  }

  datatype FeeKind = ProtocolFee | FundFee | CreatorFee

  function CounterOf(s: PoolState, kind: FeeKind, t: Token): nat {
    match (kind, t)
    case (ProtocolFee, Token0) => s.protocolFees0
    case (ProtocolFee, Token1) => s.protocolFees1
    case (FundFee, Token0) => s.fundFees0
    case (FundFee, Token1) => s.fundFees1
    case (CreatorFee, Token0) => s.creatorFees0
    case (CreatorFee, Token1) => s.creatorFees1
  }

  predicate Collects(ix: Instruction, kind: FeeKind) {
    match kind
    case ProtocolFee => ix.CollectProtocolIx?
    case FundFee => ix.CollectFundIx?
    case CreatorFee => ix.CollectCreatorIx?
  }

  /** What a swap owes to one counter. */
  function DueTo(s: PoolState, ix: Instruction, kind: FeeKind, t: Token): int
    requires ix.SwapInIx? || ix.SwapOutIx?
  {
    var dues := DuesOf(s, ix.inputVault, CreditedBy(s, ix), SwappedBy(s, ix));
    match kind
    case ProtocolFee => if t == ix.inputVault then dues.protocol else 0
    case FundFee => if t == ix.inputVault then dues.fund else 0
    case CreatorFee => if (t == ix.inputVault) == CreatorPaidIn(s, ix.inputVault) then dues.creator else 0
  }

  /** What an instruction enters in one counter: swaps their dues, its own collection what the vault pays. */
  function Entry(s: PoolState, ix: Instruction, kind: FeeKind, t: Token): int {
    if Step(s, ix).Failure? then 0
    else if ix.SwapInIx? || ix.SwapOutIx? then DueTo(s, ix, kind, t)
    else if Collects(ix, kind) then Vault(Next(s, ix), t) - Vault(s, t)
    else 0
  }

  function Entries(s: PoolState, ixs: seq<Instruction>, kind: FeeKind, t: Token): int {
    if ixs == [] then 0
    else Entries(s, ixs[..|ixs| - 1], kind, t) + Entry(Run(s, ixs[..|ixs| - 1]), ixs[|ixs| - 1], kind, t)
  }

  lemma StepEnters(s: PoolState, ix: Instruction, kind: FeeKind, t: Token)
    requires Sound(s)
    ensures CounterOf(Next(s, ix), kind, t) == CounterOf(s, kind, t) + Entry(s, ix, kind, t)
  {
    hide Sound, Deposit, Withdraw, SwapIn, SwapOut, DuesOf, CreditedBy, SwappedBy, CreatorPaidIn;
    hide CollectProtocolFee, CollectFundFee, CollectCreatorFee, Donate, BurnLp;
    if Step(s, ix).Success? {
      match ix
      case DepositIx(ctx, lpAmount, maximum0, maximum1) => DepositEffect(s, ctx, lpAmount, maximum0, maximum1);
      case WithdrawIx(ctx, ownerLp, lpAmount, minimum0, minimum1) =>
        WithdrawEffect(s, ctx, ownerLp, lpAmount, minimum0, minimum1);
      case SwapInIx(_, _, _, _, _) => SwapBooks(s, ix);
      case SwapOutIx(_, _, _, _, _) => SwapBooks(s, ix);
      case _ => OtherStepEnters(s, ix, kind, t);
    }
  }

  lemma OtherStepEnters(s: PoolState, ix: Instruction, kind: FeeKind, t: Token)
    requires !ix.DepositIx? && !ix.WithdrawIx? && !ix.SwapInIx? && !ix.SwapOutIx?
    ensures CounterOf(Next(s, ix), kind, t) == CounterOf(s, kind, t) + Entry(s, ix, kind, t)
  {
  }

  /** Over every run each of the six counters changes only by the dues swaps book to it and by what
      its own collections pay from its vault. */
  lemma {:induction false} Ledger(s: PoolState, ixs: seq<Instruction>, kind: FeeKind, t: Token)
    requires Sound(s)
    ensures CounterOf(Run(s, ixs), kind, t) == CounterOf(s, kind, t) + Entries(s, ixs, kind, t)
  {
    if ixs != [] {
      hide Sound, Next, Entry, CounterOf;
      Ledger(s, ixs[..|ixs| - 1], kind, t);
      PoolRun.RunKeeps(s, ixs[..|ixs| - 1]);
      StepEnters(Run(s, ixs[..|ixs| - 1]), ixs[|ixs| - 1], kind, t);
    }
  }

  // ----- What an instruction leaves alone -----

  /** An instruction changes no field outside its business, and a failed one none at all; settings and
      donations arrive as given. */
  lemma StepFrame(s: PoolState, ix: Instruction)
    requires Sound(s)
    ensures var s' := Next(s, ix);
            && (Step(s, ix).Failure? ==> s' == s)
            && s'.creatorFeeOn == s.creatorFeeOn && s'.enableCreatorFee == s.enableCreatorFee
            && s'.openTime == s.openTime
            && s'.status == (if ix.UpdateStatusIx? then ix.newStatus else s.status)
            && (!ix.UpdateConfigIx? ==> s'.rates == s.rates)
            && (!ix.SwapInIx? && !ix.SwapOutIx? ==> s'.oracle == s.oracle)
            && (!ix.DepositIx? && !ix.WithdrawIx? ==> s'.lpSupply == s.lpSupply)
            && (!ix.DepositIx? && !ix.WithdrawIx? && !ix.BurnLpIx? ==> s'.lpMint == s.lpMint)
            && (ix.UpdateConfigIx? || ix.UpdateStatusIx? || ix.BurnLpIx? ==>
                  s'.vault0 == s.vault0 && s'.vault1 == s.vault1)
            && (ix.UpdateConfigIx? ==>
                  var r := AmmConfig.Update(s.rates, ix.param, ix.value, ix.key);
                  s'.rates == if r.Success? then r.value else s.rates)
            && (ix.DonateIx? && Vault(s, ix.vault) + ix.amount <= U64_MAX ==>
                  && s' == s.(vault0 := s'.vault0, vault1 := s'.vault1)
                  && Vault(s', ix.vault) == Vault(s, ix.vault) + ix.amount
                  && forall t :: t != ix.vault ==> Vault(s', t) == Vault(s, t))
            && (ix.BurnLpIx? ==> s'.lpMint == if ix.amount <= s.lpMint then s.lpMint - ix.amount else s.lpMint)
  {
    hide Sound, Deposit, Withdraw, SwapIn, SwapOut;
    if Step(s, ix).Success? {
      match ix
      case DepositIx(ctx, lpAmount, maximum0, maximum1) => DepositEffect(s, ctx, lpAmount, maximum0, maximum1);
      case WithdrawIx(ctx, ownerLp, lpAmount, minimum0, minimum1) =>
        WithdrawEffect(s, ctx, ownerLp, lpAmount, minimum0, minimum1);
      case SwapInIx(ctx, inputVault, outputVault, amountIn, minimumOut) =>
        SwapInMatchesQuote(s, ctx, inputVault, outputVault, amountIn, minimumOut);
      case SwapOutIx(ctx, inputVault, outputVault, maximumIn, amountOut) =>
        SwapOutMatchesQuote(s, ctx, inputVault, outputVault, maximumIn, amountOut);
      case _ =>
    }
  }

  /** Over every run a pool that pays its creator in one token only never owes the creator more of the
      other. */
  lemma {:induction false} CreatorStaysOneSided(s: PoolState, ixs: seq<Instruction>)
    requires Sound(s)
    ensures Run(s, ixs).creatorFeeOn == s.creatorFeeOn
    ensures s.creatorFeeOn == OnlyToken0 ==> Run(s, ixs).creatorFees1 <= s.creatorFees1
    ensures s.creatorFeeOn == OnlyToken1 ==> Run(s, ixs).creatorFees0 <= s.creatorFees0
  {
    if ixs != [] {
      hide Sound, Next;
      var t, ix := Run(s, ixs[..|ixs| - 1]), ixs[|ixs| - 1];
      CreatorStaysOneSided(s, ixs[..|ixs| - 1]);
      PoolRun.RunKeeps(s, ixs[..|ixs| - 1]);
      StepFrame(t, ix);
      StepKeepsCreatorSide(t, ix);
    }
  }

  lemma StepKeepsCreatorSide(s: PoolState, ix: Instruction)
    requires Sound(s)
    ensures s.creatorFeeOn == OnlyToken0 ==> Next(s, ix).creatorFees1 <= s.creatorFees1
    ensures s.creatorFeeOn == OnlyToken1 ==> Next(s, ix).creatorFees0 <= s.creatorFees0
  {
    hide Sound, SwapIn, SwapOut, Deposit, Withdraw, DuesOf, DueTo;
    if (ix.SwapInIx? || ix.SwapOutIx?) && Step(s, ix).Success? {
      CreatorFeeSide(s, ix);
    } else if Step(s, ix).Success? {
      StepEnters(s, ix, CreatorFee, Token0);
      StepEnters(s, ix, CreatorFee, Token1);
    }
  }
}
