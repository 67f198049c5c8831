# Verified model of the cp-swap pool and the Mana treasury

The repository holds two Solana programs: `cp-swap`, a constant-product market maker with fees for
protocol, fund and creator and a price oracle, and `mana-treasury`, a share vault that mints Mana
against MIM. This project models what both do with balances, counters and prices, and proves what
their users rely on, for every input and every run.

`dafny verify dfyconfig.toml` checks the whole project. Modules build on one another in this order:

- `Machine`, `Rounding`, `Outcomes`, `Errors`: u64 and u128 with checked, unwrapping and aborting
  operations kept apart; floor and ceiling division, each pinned down by its adjunction.
- `Fees`, `ConstantProduct`, `Calculator`: the formulas as the program computes them, and their
  closed forms over the naturals. `QuoteLaws`: laws between whole quotes.
- `Tokens`: transfers with a fee function that belongs to the token program.
- `Oracle`, `OracleLog`: the ring of observations as a class over an array, the unbounded log it
  refines, and what a reader may conclude from two observations.
- `AmmConfig`, `Pool`, `PoolSteps`: the accounts and every instruction as a partial step. A failed
  step changes nothing, because the runtime discards a failed instruction's writes. Donations into a
  vault and LP tokens burnt by holders are steps too.
- `PoolInvariant`, `PoolRun`, `SwapLiveness`, `SwapExamples`, `PoolTrades`, `PoolMirror`: what steps
  and runs keep, when swaps succeed with reachable pools on which they do not, what traders get, and
  the symmetry of the two directions.
- `FeeLedger`: what swaps owe to each counter, written out from the configuration with its numbers,
  and the ledger of the counters over runs.
- `PoolAccounts`: the instructions updating accounts field by field, each proved to be its step;
  `Process` runs one and rolls back on failure.
- `Treasury`, `TreasuryLaws`, `TreasuryAccounts`: the same for the treasury.

A pool is `Sound` when both vaults cover the fees they owe, the fee rates are valid, the LP supply is
at least the minted LP plus the 100 locked at creation, and the LP supply is at most the integer root
of the product of the reserves. `ValueKept` compares that product per squared unit of LP supply. A
treasury is `Backed` when active MIM covers active Mana and the pending vaults cover every open
request.

## What turned out to need a condition

- A swap with the creator fee on the input is refused whenever the trade rate and the creator rate
  that applies are both zero, because the combined fee is then split by zero
  (`SwapLiveness.SwapInSucceedsIff` has the exact condition, `Calculator.Splittable`;
  `SwapExamples.ZeroRatesRefuseSwap` has a pool).
- A swap is refused when the time since the last one makes the price integral overflow
  (`SwapLiveness.OracleAcceptsIff`; `SwapExamples.SilenceRefusesSwap` has a pool and a clock). With
  clocks below 2^32 that cannot happen (`SwapLiveness.OracleReadyBelowBound`).
- Redeeming at once what a treasury deposit minted gives back at most the deposit if and only if Mana
  was active before or the active vault was empty: the first deposit into a vault that already holds
  MIM also buys that MIM (`TreasuryLaws.DepositThenRedeem`, with a concrete run in
  `TreasuryLaws.DepositGainsDonation`).
- A redemption unlocks after the configured cooldown if and only if the cooldown is below 2^63
  seconds; from there on the cast to i64 turns negative (`TreasuryLaws.CooldownHoldsIff`, with a
  concrete run in `TreasuryLaws.CooldownWraps`).
- The wrapped difference of two oracle observations is the exact price integral if and only if that
  integral fits a u128 (`OracleLog.DifferenceIsIntegral`). A reader can tell from the two timestamps
  that it does: for pool prices whenever they are at most 2^32 - 15 seconds apart, and for every
  pair while the swaps' clocks stay within 2^32 seconds (`PoolRun.ReadersGetIntegral`). Beyond that it
  fails on the calls of `OracleLog.DifferenceWraps` and on the pool run of
  `SwapExamples.SilenceMisleadsReaders`.

## Where comments and code differ

The model follows the code.

- `programs/cp-swap/src/states/oracle.rs:60-77` says that an update returns the next index; it returns
  nothing.
- `programs/cp-swap/src/states/oracle.rs:144-148` says that the timestamp is truncated to 32 bits; it
  is the full u64. From 2^32 on a long silence can therefore overflow the oracle and refuse a swap
  (`SwapLiveness.OracleAcceptsIff` has the exact condition).
- `programs/cp-swap/src/states/pool.rs:104-105` calls the LP supply circulating and without lock-ups;
  it includes the 100 locked LP (`PoolRun.SupplyGapIsBurnt`).

## Model

| member | source | states |
|---|---|---|
| QuoteLaws.ExactInExactOutAdjoint | programs/cp-swap/src/curve/calculator.rs:95-201 | an exact-in swap of i yields at least o exactly when exact-out has a quote for o and i is at least its input; so that quote is the least sufficient input, and without a u64 quote no input suffices |
| QuoteLaws.LeastInput | programs/cp-swap/src/curve/constant_product.rs:19-43 | the same through all three roundings over the naturals: input fee, curve, output creator fee |
| QuoteLaws.ExactOutChargesLikeExactIn | programs/cp-swap/src/curve/calculator.rs:173-200 | exact-out charges the trade, protocol and fund fees, and with the fee on input the creator fee, of an exact-in swap of its gross input, and leaves the same input reserve |
| Fees.GrossUpIsExact | programs/cp-swap/src/curve/fees.rs:30-90 | taking the ceiling fee off the grossed-up amount gives back exactly the net amount |
| Fees.PreFeeAmountValue | programs/cp-swap/src/curve/fees.rs:77-90 | the checked gross-up is the least gross amount whenever that fits a u64, and otherwise either that or nothing |
| Fees.SplitCreatorFeeValue | programs/cp-swap/src/curve/fees.rs:65-75 | the creator's part of a combined fee exists exactly when some rate is positive, and fits in the fee |
| Fees.SharesFit | programs/cp-swap/src/curve/fees.rs:38-54 | protocol and fund parts together never exceed the trade fee |
| Machine.CheckedCeilDivValue | programs/cp-swap/src/utils/math.rs:18-27 | quotient plus one on a remainder is ceiling division, nothing on a zero divisor, and never overflows |
| Calculator.SwapBaseInputValue | programs/cp-swap/src/curve/calculator.rs:95-143 | on u64 operands and valid rates an exact-in quote never aborts and is refused only when the creator fee cannot be split; all eight fields in closed form |
| Calculator.SwapBaseOutputValue | programs/cp-swap/src/curve/calculator.rs:145-201 | exact-out aborts when the reserve cannot pay, is refused when the creator fee cannot be split, and answers whenever the input is a u64 |
| QuoteLaws.ExactInBalanced | programs/cp-swap/src/curve/calculator.rs:133-142 | every unit of input and output is kept by the curve or charged as a fee |
| QuoteLaws.ExactOutBalanced | programs/cp-swap/src/curve/calculator.rs:191-200 | the same for exact-out |
| QuoteLaws.GuardAcceptsExactIn | programs/cp-swap/src/instructions/swap_base_input.rs:104-180 | the product guard never rejects an exact-in quote, its product never overflows, and the real reserves multiply to at least as much |
| QuoteLaws.GuardAcceptsExactOut | programs/cp-swap/src/instructions/swap_base_output.rs:42-122 | the same for exact-out |
| QuoteLaws.CurveSplit | programs/cp-swap/src/curve/constant_product.rs:19-30 | two curve outputs in a row, the reserve between them at least the quoted one, add up to at most the output of the joint input |
| QuoteLaws.SplittingNeverHelps | programs/cp-swap/src/curve/calculator.rs:95-143 | any list of exact-in swaps in one direction, each on the reserves really left by the last, pays at most one swap of the summed input |
| PoolTrades.SplittingNeverHelpsOnPool | programs/cp-swap/src/instructions/swap_base_input.rs:75-212 | the same on the pool's own vaults, with any clocks, minimums and transfer fees |
| PoolTrades.SingleSwapPaysAtLeast | programs/cp-swap/src/instructions/swap_base_input.rs:75-212 | the one swap of all they credited really succeeds at the first one's clock while demanding at least what they got, if the output mint charges nothing |
| QuoteLaws.SplittingNeverSaves | programs/cp-swap/src/curve/calculator.rs:145-201 | exact-out swaps in one direction through the real reserves cost at least one swap of their summed output, which has a quote whenever the total is a u64 |
| QuoteLaws.CostSplit | programs/cp-swap/src/curve/calculator.rs:145-201 | what an exact-out swap and a later input pay together buys both outputs at the start, through all three roundings |
| PoolTrades.SplittingNeverSavesOnPool | programs/cp-swap/src/instructions/swap_base_output.rs:9-154 | on the real pool, over any exact-out swaps in one direction the input vault gains at least the quoted cost of all the output |
| ConstantProduct.SwapBaseOutputWithoutFeesValue | programs/cp-swap/src/curve/constant_product.rs:32-43 | the exact-out curve is the ceiling when the output is below the reserve and aborts otherwise |
| ConstantProduct.DepositShare | programs/cp-swap/src/curve/constant_product.rs:65-84 | the rounded-up share is at least the exact share and less than one unit above it |
| ConstantProduct.LpShareValue | programs/cp-swap/src/curve/constant_product.rs:50-90 | the conversion is the floor, or the ceiling unless the floor is zero, and never overflows |
| ConstantProduct.DepositThenWithdraw | programs/cp-swap/src/curve/constant_product.rs:50-90 | depositing and withdrawing the same LP gives back the deposit, or exactly one unit less when it had been rounded |
| PoolTrades.DepositThenWithdrawOnPool | programs/cp-swap/src/instructions/withdraw.rs:99-220 | on a sound pool that withdrawal always goes through and leaves each vault as it was or one unit richer, everything else unchanged |
| Tokens.SendingDeliversExactly | programs/cp-swap/src/utils/token.rs:126-159 | an accepted inverse fee makes exactly the wanted amount arrive, whatever candidate was proposed, and at the full rate |
| Tokens.AmountToSendIff | programs/cp-swap/src/utils/token.rs:126-159 | an amount can be sent exactly when it is positive or the mint classic, and the proposed fee on top of it fits and makes exactly the amount arrive; otherwise which error |
| Pool.ReservesReadableIffSolvent | programs/cp-swap/src/states/pool.rs:200-221 | the reserves can be read exactly when both vaults cover their three counters |
| Pool.PricesDefinedIffReservesPositive | programs/cp-swap/src/states/pool.rs:223-229 | both prices are defined exactly when both reserves are positive, and stay below 2^96 |
| Pool.StatusBits | programs/cp-swap/src/states/pool.rs:194-198 | the three status bits decode independently, whatever the higher bits hold |
| PoolInvariant.UpdateFeesEffect | programs/cp-swap/src/states/pool.rs:326-369 | each fee lands in its own counter on its own side and nothing else moves |
| PoolInvariant.UpdateFeesSucceedsIff | programs/cp-swap/src/states/pool.rs:326-369 | booking is refused exactly when a creator fee is due on a pool that disables it or a counter overflows; the creator's counter is the one of the configured side |
| PoolInvariant.GuardStopsLoss | programs/cp-swap/src/instructions/swap_base_input.rs:180 | no settlement passes with a smaller product after than before |
| PoolInvariant.SettleEffect | programs/cp-swap/src/instructions/swap_base_input.rs:158-209 | a settled swap leaves the reserves, vaults and counters its quote announced, and shows the oracle the earlier prices |
| PoolInvariant.SwapInMatchesQuote | programs/cp-swap/src/instructions/swap_base_input.rs:75-212 | after an exact-in swap the output reserve is the quoted one and the input reserve the quoted one plus trade fee less protocol and fund fee |
| PoolInvariant.SwapOutMatchesQuote | programs/cp-swap/src/instructions/swap_base_output.rs:9-154 | the same for exact-out; the trader receives exactly the amount asked for |
| FeeLedger.SwapInBooks | programs/cp-swap/src/instructions/swap_base_input.rs:104-201 | from the configured rates, fee side and fee switch alone, with their numbers: what an exact-in swap takes from the output reserve and books to each of the six counters |
| FeeLedger.SwapOutBooks | programs/cp-swap/src/instructions/swap_base_output.rs:46-142 | the same for exact-out: the payment fixes what is swapped, that what is credited, and both the six counters |
| FeeLedger.CreatorFeeSide | programs/cp-swap/src/states/pool.rs:253-261 | a swap pays the creator only in the configured token, in the input token when both are allowed, and not at all while the fee is disabled |
| FeeLedger.Ledger | programs/cp-swap/src/states/pool.rs:318-369 | over every run each counter changes only by the dues swaps book to it and by what its own collections pay |
| FeeLedger.CreatorStaysOneSided | programs/cp-swap/src/states/pool.rs:253-261 | over every run a pool that pays its creator in one token never owes more of the other |
| FeeLedger.StepFrame | programs/cp-swap/src/lib.rs:124-294 | an instruction changes no field outside its business, a failed one none, and settings and donations arrive as given |
| PoolInvariant.DepositEffect | programs/cp-swap/src/instructions/deposit.rs:87-205 | both vaults are credited the rounded-up share exactly as without transfer fees, and supply and mint grow by the LP amount |
| PoolInvariant.WithdrawEffect | programs/cp-swap/src/instructions/withdraw.rs:99-220 | both vaults pay the rounded-down share, never more than the reserve |
| PoolInvariant.ProportionKeeps | programs/cp-swap/src/instructions/deposit.rs:99-192 | reserves growing at least in proportion to the LP supply keep both the root bound and the value per LP token |
| PoolInvariant.StepKeeps | programs/cp-swap/src/instructions/swap_base_input.rs:104-201 | every successful instruction, donation and burn keeps the pool sound and its value per LP token |
| PoolInvariant.InitializeIsSound | programs/cp-swap/src/instructions/initialize.rs:182-362 | creation yields a sound pool with what arrived in its vaults, all six fee counters at 0, its supply the root of the amounts with 100 of it unminted, opening at the time asked for or one second after creation |
| SwapLiveness.CreatedPoolOpens | programs/cp-swap/src/instructions/initialize.rs:205-208 | a created pool stops refusing swaps as not approved exactly at the opening time asked for, or one second after a creation with a past one |
| PoolInvariant.InitializeSucceedsIff | programs/cp-swap/src/instructions/initialize_with_permission.rs:193-375 | creation succeeds exactly when the creator has the amounts, what arrives multiplies to at least 10,000, and the opening time is representable |
| PoolInvariant.DonationGoesToReserve | programs/cp-swap/src/states/pool.rs:200-221 | tokens sent straight to a vault add to its reserve, to the last unit |
| PoolRun.RunKeeps | programs/cp-swap/src/lib.rs:124-294 | from a sound pool every run stays sound and value per LP token never falls between its ends |
| PoolRun.ReachablePool | programs/cp-swap/src/instructions/initialize.rs:294-316 | in every reachable state the squared LP supply is within the product of the reserves and at least 100 above the mint, reserves are positive, reserves and prices readable, and value per LP never falls between any two states |
| PoolRun.CollectionIsPayable | programs/cp-swap/src/instructions/admin/collect_protocol_fee.rs:86-136 | every fee collection on a sound pool is paid in full from its own counter and vault exactly when there is something to collect, leaves the reserves alone, and changes nothing but the two vaults and the two counters of that fee |
| PoolRun.FundPaysOut | programs/cp-swap/src/instructions/admin/collect_fund_fee.rs:85-127 | the same for the fund fee on any solvent pool |
| PoolRun.CreatorPaysOut | programs/cp-swap/src/instructions/collect_creator_fee.rs:88-125 | the same for the creator fee, which is paid out whole |
| PoolRun.NoFreeLunch | programs/cp-swap/src/instructions/swap_base_input.rs:104-201 | over any run that ends with the LP supply it began with, a net amount of one token leaves other than to fee recipients only if a net amount of the other comes in |
| PoolRun.SupplyGapIsBurnt | programs/cp-swap/src/states/pool.rs:104-105 | recorded supply minus minted LP grows by exactly what holders burn |
| PoolRun.OracleFollowsTrace | programs/cp-swap/src/instructions/swap_base_input.rs:203-208 | a pool's oracle is at all times the window onto the log of the prices its successful swaps showed, those from before each swap |
| SwapLiveness.SwapInSucceedsIff | programs/cp-swap/src/instructions/swap_base_input.rs:75-212 | an exact-in swap on a sound pool succeeds exactly when open, the vaults differ, something arrives that the payer has, the creator fee splits, the closed-form output meets the minimum, and vault and oracle have room; no unwrap, guard or other overflow check stops it |
| SwapLiveness.SwapInOutcome | programs/cp-swap/src/instructions/swap_base_input.rs:75-212 | how an exact-in swap on a sound pool ends, each refusal with its error, in the order they are found |
| SwapLiveness.SwapInNotApprovedIff | programs/cp-swap/src/instructions/swap_base_input.rs:79-83 | an exact-in swap is refused as not approved exactly while the third status bit is set or the opening time has not come |
| SwapLiveness.SwapOutNotApprovedIff | programs/cp-swap/src/instructions/swap_base_output.rs:14-20 | an exact-out swap of a positive amount likewise |
| SwapLiveness.SwapOutSucceedsIff | programs/cp-swap/src/instructions/swap_base_output.rs:9-154 | for any mints an exact-out swap succeeds exactly when open, the amount can be sent, the trader has and allows the least input that buys it, and vault and oracle have room; it then credits exactly that least input |
| SwapLiveness.ClassicSwapOutSucceedsIff | programs/cp-swap/src/instructions/swap_base_output.rs:9-154 | without transfer fees that is exactly when an exact-in swap of all the trader allows and has, and the vault can hold, would buy as much |
| SwapLiveness.OracleAcceptsIff | programs/cp-swap/src/states/oracle.rs:94-116 | an oracle update overflows exactly when a price times the seconds it adds leaves a u128, so never for pool prices and timestamps below 2^32 |
| SwapLiveness.OracleReadyBelowBound | programs/cp-swap/src/states/oracle.rs:111-116 | the oracle of a sound pool takes its prices at every timestamp below 2^32 |
| SwapExamples.ZeroRatesRefuseSwap | programs/cp-swap/src/curve/fees.rs:65-75 | a created pool refuses a swap only because both rates are zero: raising the trade rate by one lets it through |
| SwapExamples.SilenceRefusesSwap | programs/cp-swap/src/states/oracle.rs:111-116 | a reachable pool on which a swap goes through one second after the last one and overflows the oracle at the end of time |
| SwapExamples.SilenceMisleadsReaders | programs/cp-swap/src/states/oracle.rs:117-127 | a run of a created pool, three swaps 2^42 seconds apart, after which two visible observations do not show the price integral between them |
| PoolTrades.WithdrawSucceedsIff | programs/cp-swap/src/instructions/withdraw.rs:105-216 | a withdrawal succeeds exactly when open, the LP is there, both shares are positive and the minimums are met |
| PoolTrades.DepositSucceedsIff | programs/cp-swap/src/instructions/deposit.rs:93-201 | for any mints a deposit succeeds exactly when open, both shares are positive, transfers within the maximums that the payer has deliver the rounded-up shares, and there is room |
| PoolTrades.DepositRefusals | programs/cp-swap/src/instructions/deposit.rs:93-160 | how a deposit is refused, each with its error, in the order of the tests |
| PoolTrades.WithdrawRefusals | programs/cp-swap/src/instructions/withdraw.rs:105-170 | how a withdrawal is refused, each with its error, in the order of the tests |
| PoolMirror.SwapInMirrors | programs/cp-swap/src/states/pool.rs:253-316 | relabelling the two tokens commutes with an exact-in swap, errors included |
| PoolMirror.SwapOutMirrors | programs/cp-swap/src/states/pool.rs:326-369 | and with an exact-out swap |
| PoolMirror.OracleMirrors | programs/cp-swap/src/states/oracle.rs:78-141 | and with an oracle update |
| AmmConfig.RatesStayValid | programs/cp-swap/src/instructions/admin/update_config.rs:58-78 | from valid rates an update is accepted exactly when the parameter exists, a key it sets is given and not the default, and the rates it would set are valid; creation accepts exactly the valid rates |
| AmmConfig.AmmConfigAccount.UpdateAmmConfig | programs/cp-swap/src/instructions/admin/update_config.rs:17-52 | the in-place update is that function of the old rates, and a failure changes nothing |
| OracleLog.RingRefinesLog | programs/cp-swap/src/states/oracle.rs:78-141 | after any list of updates the ring holds exactly the last hundred slots of an unbounded log, each cumulative price the integral of price over time modulo 2^128 |
| OracleLog.LogShape | programs/cp-swap/src/states/oracle.rs:104-139 | the log cuts the history into consecutive slots, each accumulation ending less than 15 seconds after its timestamp and the next slot starting at least 15 seconds after it |
| OracleLog.RingOrder | programs/cp-swap/src/states/oracle.rs:94-139 | the index is below 100, visible neighbours are at least 15 seconds apart, the last update never moves back |
| OracleLog.MissingLastUpdate | programs/cp-swap/src/states/oracle.rs:100-103 | an account without a last update behaves as if last updated at its observation |
| OracleLog.DifferenceIsIntegral | programs/cp-swap/src/states/oracle.rs:117-137 | the wrapped difference of two visible observations is the exact price integral between them if and only if that integral fits a u128 |
| OracleLog.IntegralBounded | programs/cp-swap/src/states/oracle.rs:111-127 | a price integral is at most the highest price times the time |
| OracleLog.DifferenceExactByTimestamps | programs/cp-swap/src/states/oracle.rs:117-137 | a reader who knows a bound on prices can tell from the two timestamps alone that the difference is exact |
| OracleLog.DifferenceWraps | programs/cp-swap/src/states/oracle.rs:117-127 | three concrete calls over 2^33 seconds reach an integral of 2^128 of which the difference shows 0 |
| PoolRun.ReadersGetIntegral | programs/cp-swap/src/instructions/swap_base_input.rs:203-208 | on every run of a pool any two visible observations give the exact integral when the swaps' clocks stay within 2^32 seconds, or the two timestamps are that close |
| Oracle.ObservationState.UpdatePrice | programs/cp-swap/src/states/oracle.rs:78-141 | the in-place update of the ring is the update function of its old value |
| PoolAccounts.Accounts.Deposit | programs/cp-swap/src/instructions/deposit.rs:87-205 | the account updates are the deposit step |
| PoolAccounts.Accounts.Withdraw | programs/cp-swap/src/instructions/withdraw.rs:99-220 | the account updates are the withdrawal step |
| PoolAccounts.Accounts.UpdateFees | programs/cp-swap/src/states/pool.rs:326-369 | the counter updates are the booking function |
| PoolAccounts.Accounts.SwapBaseInput | programs/cp-swap/src/instructions/swap_base_input.rs:75-212 | the account and oracle updates are the exact-in step |
| PoolAccounts.Accounts.SwapBaseOutput | programs/cp-swap/src/instructions/swap_base_output.rs:9-154 | the account and oracle updates are the exact-out step |
| PoolAccounts.Accounts.Initialize | programs/cp-swap/src/instructions/initialize.rs:182-362 | the new accounts hold the initial state, or the same error is returned |
| PoolAccounts.Accounts.CollectProtocolFee | programs/cp-swap/src/instructions/admin/collect_protocol_fee.rs:70-139 | the account updates are the collection step |
| PoolAccounts.Accounts.CollectFundFee | programs/cp-swap/src/instructions/admin/collect_fund_fee.rs:69-130 | the account updates are the collection step |
| PoolAccounts.Accounts.CollectCreatorFee | programs/cp-swap/src/instructions/collect_creator_fee.rs:88-125 | the account updates are the collection step |
| PoolAccounts.Accounts.Process | programs/cp-swap/src/lib.rs:124-294 | one instruction takes the accounts to the next state of the run, with all of its writes or none, and keeps the invariant and the price |
| TreasuryLaws.ReachableTreasury | programs/mana-treasury/src/lib.rs:31-92 | in every reachable state active MIM covers active Mana, the pending vaults cover every open request, and the pending supply is exactly the sum of escrowed Mana |
| TreasuryLaws.RunKeepsBacked | programs/mana-treasury/src/lib.rs:55-326 | every run keeps the treasury backed, through emptying and restarting |
| TreasuryLaws.StepKeeps | programs/mana-treasury/src/lib.rs:55-326 | every step keeps it backed, and while Mana is active MIM per Mana does not fall |
| TreasuryLaws.RunKeepsNav | programs/mana-treasury/src/lib.rs:782-817 | MIM per Mana never falls over a run in which some Mana stays active |
| TreasuryLaws.ManaForDepositValue | programs/mana-treasury/src/lib.rs:782-800 | a deposit mints the floor of its share, at most one to one, without overflow |
| TreasuryLaws.MimForRedemptionValue | programs/mana-treasury/src/lib.rs:802-817 | a redemption of active Mana reserves the floor of its share, at least the Mana and at most all MIM |
| TreasuryLaws.DepositSucceedsIff | programs/mana-treasury/src/lib.rs:55-92 | a deposit succeeds exactly when positive, held by the depositor, above the minimum, earning something and with room; it then lands in the active vault and mints the floor of its share; its overflow and balance errors are unreachable |
| TreasuryLaws.DonationsSucceedIff | programs/mana-treasury/src/lib.rs:94-149 | a donation succeeds exactly when positive, held and with room, and lands in the active vault, an asset in its own |
| TreasuryLaws.SwapAssetSucceedsIff | programs/mana-treasury/src/lib.rs:151-216 | an asset swap is accepted exactly when both limits are positive, at most the amount is spent and at least the minimum gained |
| TreasuryLaws.StartDestakeSucceedsIff | programs/mana-treasury/src/lib.rs:218-281 | a positive de-stake never rounds to nothing; one succeeds exactly when the owner has no open request and holds the Mana, and minimum, vault room and unlock time allow; it moves exactly the Mana into escrow and its share to the pending vault |
| TreasuryLaws.FinalizeSucceedsIff | programs/mana-treasury/src/lib.rs:283-326 | an open request can be finalized exactly from its unlock time on; it pays exactly the fixed MIM, burns exactly the escrowed Mana out of the escrow vault, and changes nothing else |
| TreasuryLaws.FinalizeRefusals | programs/mana-treasury/src/lib.rs:283-289 | without a request, or with a finalized one, finalizing is refused at any time |
| TreasuryLaws.DestakePaysWhatItFixed | programs/mana-treasury/src/lib.rs:263-326 | whatever happens between start and finalize, premature attempts included, the owner is paid exactly the share the starting price fixed, at least one to one |
| TreasuryLaws.RequestSurvives | programs/mana-treasury/src/lib.rs:269-280 | nothing touches an open request but the owner finalizing it at or after its unlock time |
| TreasuryLaws.CooldownHoldsIff | programs/mana-treasury/src/lib.rs:274-277 | both timing facts, unlocking the cooldown after the start and not in the past, hold exactly for cooldowns below 2^63; from there on 2^64 seconds are missing |
| TreasuryLaws.DefaultCooldown | programs/mana-treasury/src/lib.rs:47 | while nobody sets another, the cooldown is three days |
| TreasuryLaws.CooldownWraps | programs/mana-treasury/src/lib.rs:274-277 | a run from initialization that sets a cooldown of 2^63 and whose redemption is unlocked at once |
| TreasuryLaws.DepositThenRedeem | programs/mana-treasury/src/lib.rs:782-817 | redeeming what a deposit minted gives back at most the deposit if and only if Mana was active or the vault empty |
| TreasuryLaws.DepositGainsDonation | programs/mana-treasury/src/lib.rs:782-817 | a reachable treasury in which a deposit of one redeems for two |
| TreasuryLaws.StepConserves | programs/mana-treasury/src/lib.rs:55-326 | MIM enters by deposits, donations, swaps and transfers and leaves only by finalizing; Mana is minted by deposits and burnt by finalizing and by holders |
| TreasuryLaws.RunConserves | programs/mana-treasury/src/lib.rs:55-326 | the same summed over every run, failed instructions included |
| TreasuryLaws.CirculatingConserved | programs/mana-treasury/src/lib.rs:55-326 | over every run the Mana in holders' hands changes only by what deposits mint, what goes into escrow and what holders burn; finalizing takes none of it |
| TreasuryLaws.OutsideSteps | programs/mana-treasury/src/lib.rs:142-149 | setting the cooldown touches only it, and what outsiders send or burn only the vault or supply it concerns |
| TreasuryLaws.SumsWithout | programs/mana-treasury/src/lib.rs:721-731 | the sums of escrowed Mana and reserved MIM do not depend on the order of the requests |
| TreasuryAccounts.Accounts.DepositMim | programs/mana-treasury/src/lib.rs:55-92 | the account updates are the deposit step |
| TreasuryAccounts.Accounts.SwapAssetToMim | programs/mana-treasury/src/lib.rs:151-216 | the account updates are the asset swap step |
| TreasuryAccounts.Accounts.StartDestake | programs/mana-treasury/src/lib.rs:218-281 | the account updates are the de-stake step |
| TreasuryAccounts.Accounts.FinalizeDestake | programs/mana-treasury/src/lib.rs:283-326 | the account updates are the finalizing step |
| TreasuryAccounts.Accounts.Process | programs/mana-treasury/src/lib.rs:28-353 | one instruction takes the accounts to the next state of the run, with all of its writes or none, and keeps the invariant and the price |

## Left out

- PoolInvariant.InitializeSucceedsIff: does not model the mint whitelist, the permission account, the switch that disables creation, and the creation fee in lamports, because each is one test that refuses and touches no balance of the pool.
- PoolRun.CollectionIsPayable: does not model the checks of who may collect and into which account, because they are account validation.
- PoolRun.FundPaysOut: does not model the checks of the recipient account, for the same reason.
- TreasuryAccounts.Accounts.SwapAssetToMim: does not model the checks of the signer and of the configured router, because they compare account keys; the router's result is a pair of new balances.
- TreasuryAccounts.Accounts.Process: does not model setting the router, handing over the authority and creating asset vaults, because they touch no balance.
- PoolTrades.SingleSwapPaysAtLeast: assumes that the output mint charges nothing, because an arbitrary fee function may keep more of a larger transfer.
- The token programs: transfers, mints and burns are balance updates that fail atomically. The transfer-fee function is a parameter that never exceeds the amount and equals the capped amount at the full rate; when the token program proposes a candidate inverse fee is left to it. Frozen accounts and other extensions are not modelled.
- The integer square root of the `uint` crate is not part of this model; a square root with the same specification stands for it.
- Mint whitelists and support accounts, permission accounts, the creation fee and the switch that disables creation, owner and authority setters, fee-recipient checks, the recent epoch, and events. The configuration parameters that set keys are accepted or refused as in the program, and leave the rates alone.
- The creator-fee mode is an enumeration; the decoding of its byte, and its error for bytes above 2, is not modelled. Status bits are only read and overwritten as a whole.
- Oracle accounts from earlier versions: oracle theorems start from the zeroed account, for which the rule that fills in a missing last update has no effect. The rule itself is in the model.
- The router call of the treasury's asset swap: its result is a pair of new balances checked as the program checks them; that it touches no other vault is assumed. One asset vault stands for all of them.
- MIM with transfer fees in the treasury, and the checks of who holds the authority.
- Account validation, derived addresses, rent, and the byte layout of accounts.
- The client crate, the scripts and the TypeScript tests.
