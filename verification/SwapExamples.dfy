/** Reachable pools on which the conditions of `SwapLiveness` decide: each differs from a pool or a
    clock with which the same swap goes through in that one condition. */
module SwapExamples {
  import opened Machine
  import opened Outcomes
  import opened Errors
  import opened Tokens
  import opened Fees
  import opened ConstantProduct
  import opened Calculator
  import opened Pool
  import opened PoolSteps
  import opened PoolInvariant
  import opened SwapLiveness
  import AmmConfig
  import Oracle
  import OracleLog
  import PoolRun

  /** Mints without transfer fees and a payer who has everything. */
  function At(now: u64): Context {
    Context(now, Classic, Classic, U64_MAX, U64_MAX)
  }

  const FREE: FeeRates := FeeRates(0, 0, 0, 0)

  /** A pool created at time 0 without any fee rate, open from time 1. */
  function Free(vault0: u64, vault1: u64, feeOn: CreatorFeeOn): Result<PoolState> {
    Initialize(At(0), FREE, vault0, vault1, 0, feeOn, false)
  }

  lemma FreePool(vault0: u64, vault1: u64, feeOn: CreatorFeeOn)
    requires vault0 * vault1 >= 10_000
    ensures var r := Free(vault0, vault1, feeOn);
            && r.Success? && Sound(r.value)
            && Reserve(r.value, Token0) == vault0 && Reserve(r.value, Token1) == vault1
            && Vault(r.value, Token0) == vault0 && Vault(r.value, Token1) == vault1
            && r.value.oracle == Oracle.Fresh()
            && r.value.rates == FREE && r.value.creatorFeeOn == feeOn && !r.value.enableCreatorFee
            && SwapOpen(r.value, 1)
  {
    hide Rounding.IntegerSqrt, Oracle.Fresh, Sound;
    InitializeSucceedsIff(At(0), FREE, vault0, vault1, 0, feeOn, false);
    InitializeIsSound(At(0), FREE, vault0, vault1, 0, feeOn, false);
  }

  lemma RunOfOne(s: PoolState, ix: Instruction)
    ensures Run(s, [ix]) == Next(s, ix)
  {
    assert [ix][..0] == [] && Run(s, []) == s;
  }

  /** An oracle that never ran, or ran one second ago, takes any pool price. */
  lemma ReadySoon(s: PoolState, now: u64)
    requires Reserve(s, Token0) > 0 && Reserve(s, Token1) > 0 && Solvent(s)
    requires s.oracle.index < |s.oracle.observations| && Pending(s.oracle, now) <= 1
    ensures OracleReady(s, now)
  {
    hide Pending, Reserve;
    PricesBelow(s);
  }

  lemma PricesBelow(s: PoolState)
    requires Reserve(s, Token0) > 0 && Reserve(s, Token1) > 0
    ensures 0 <= Reserve(s, Token1) * Q32 / Reserve(s, Token0) <= U128_MAX
    ensures 0 <= Reserve(s, Token0) * Q32 / Reserve(s, Token1) <= U128_MAX
  {
    hide Reserve, TokenPriceX32;
    PricesDefinedIffReservesPositive(s);
  }

  /** Without a fee on the output, the output is what the curve gives for the net input. */
  lemma OutputAt(s: PoolState, inRate: nat, credited: u64, net: nat, out: nat)
    requires s.rates.Valid() && Reserve(s, Token0) > 0 && Reserve(s, Token1) > 0
    requires var onInput := IsCreatorFeeOnInput(s.creatorFeeOn, ZeroForOne);
             InputRate(SwapRates(s), onInput) == inRate && OutputRate(SwapRates(s), onInput) == 0
    requires Net(credited, inRate) == net && CurveOut(net, Reserve(s, Token0), Reserve(s, Token1)) == out
    ensures Output(s, Token0, Token1, credited) == out
  {
    hide Net, CurveOut, Reserve;
    NetBounds(out, 0);
  }

  /** A swap refused only because trade rate and creator rate are both zero: raising the trade rate
      by one lets it through. */
  lemma ZeroRatesRefuseSwap()
    ensures var created := Free(1000, 1000, BothToken);
            && created.Success?
            && SwapIn(created.value, At(1), Token0, Token1, 10, 0) == Failure(ZeroTradingTokens)
            && var raised := Run(created.value, [UpdateConfigIx(0, 1, AmmConfig.NoKey)]);
               SwapIn(raised, At(1), Token0, Token1, 10, 0).Success?
  {
    hide Free, Sound, SwapIn, Next, SwapOpen;
    FreePool(1000, 1000, BothToken);
    var s := Free(1000, 1000, BothToken).value;
    RefusedForRates(s);
    RunOfOne(s, UpdateConfigIx(0, 1, AmmConfig.NoKey));
    RaisedRate(s);
    AcceptedWithRate(s.(rates := FeeRates(1, 0, 0, 0)));
  }

  lemma RaisedRate(s: PoolState)
    requires Sound(s) && s.rates == FREE && SwapOpen(s, 1)
    ensures var s1 := s.(rates := FeeRates(1, 0, 0, 0));
            Next(s, UpdateConfigIx(0, 1, AmmConfig.NoKey)) == s1 && Sound(s1) && SwapOpen(s1, 1)
  {
    hide Sound, ValueKept;
    StepKeeps(s, UpdateConfigIx(0, 1, AmmConfig.NoKey));
  }

  lemma AcceptedWithRate(s: PoolState)
    requires Sound(s) && SwapOpen(s, 1) && s.rates == FeeRates(1, 0, 0, 0)
    requires s.creatorFeeOn == BothToken && !s.enableCreatorFee && s.oracle == Oracle.Fresh()
    requires Reserve(s, Token0) == Vault(s, Token0) == 1000 && Reserve(s, Token1) == 1000
    ensures SwapIn(s, At(1), Token0, Token1, 10, 0).Success?
  {
    hide SwapIn, SwapBaseInput, Output, OracleReady, SwapOpen, ReserveProduct, Rounding.IntegerSqrt;
    SwapInSucceedsIff(s, At(1), Token0, Token1, 10, 0);
    OutputAt(s, 1, 10, 9, 8);
    ReadySoon(s, 1);
  }

  lemma RefusedForRates(s: PoolState)
    requires Sound(s) && SwapOpen(s, 1) && s.rates == FREE && s.creatorFeeOn == BothToken
    ensures SwapIn(s, At(1), Token0, Token1, 10, 0) == Failure(ZeroTradingTokens)
  {
    hide Sound, SwapBaseInput, GetSwapParams, TokenPriceX32, SwapOpen;
    ReservesPositive(s);
    SwapParamsValue(s, Token0, Token1);
    MulU64(Reserve(s, Token0), Reserve(s, Token1));
    SwapBaseInputValue(10, Reserve(s, Token0), Reserve(s, Token1), SwapRates(s), true);
  }

  // ----- Silence -----

  /** A pool without fees or debts, open from time 1. */
  predicate Plain(s: PoolState, r0: nat, r1: nat) {
    && s.rates == FREE && s.creatorFeeOn == OnlyToken1 && !s.enableCreatorFee
    && Reserve(s, Token0) == Vault(s, Token0) == r0 && Reserve(s, Token1) == r1
    && SwapOpen(s, 1)
  }

  /** One unit of token 0 swapped on such a pool. */
  function UnitSwapIx(now: u64): Instruction {
    SwapInIx(At(now), Token0, Token1, 1, 0)
  }

  /** It leaves `left` of the output reserve. */
  predicate UnitLeaves(r0: nat, r1: nat, left: nat) {
    0 < r0 < U64_MAX && 0 < left < r1 <= U64_MAX && CurveOut(1, r0, r1) == r1 - left
  }

  /** A call that shows the prices of a plain pool. */
  predicate Priced(c: OracleLog.Call, r0: nat, r1: nat) {
    r0 > 0 && r1 > 0 && c.price0 == r1 * Q32 / r0 && c.price1 == r0 * Q32 / r1
  }

  /** The oracle can take the call's prices over `elapsed` seconds. */
  predicate Fits(c: OracleLog.Call, elapsed: nat) {
    c.price0 * elapsed <= U128_MAX && c.price1 * elapsed <= U128_MAX
  }

  lemma UnitSwap(s: PoolState, now: u64, r0: nat, r1: nat, left: nat)
    requires Sound(s) && Plain(s, r0, r1) && UnitLeaves(r0, r1, left)
    requires now >= 1
    ensures var r := Step(s, UnitSwapIx(now));
            && (r.Success? <==> OracleReady(s, now))
            && (r.Success? ==> r.value == Next(s, UnitSwapIx(now)) && Sound(r.value) && Plain(r.value, r0 + 1, left))
  {
    hide Sound, SwapIn, SwapBaseInput, TokenPriceX32, Output, OracleReady, CurveOut, ReserveProduct;
    var out := r1 - left;
    SwapInSucceedsIff(s, At(now), Token0, Token1, 1, 0);
    OutputAt(s, 0, 1, 1, out);
    if OracleReady(s, now) {
      SwapInMatchesQuote(s, At(now), Token0, Token1, 1, 0);
      SwapInKeeps(s, At(now), Token0, Token1, 1, 0);
      SwapBaseInputValue(1, r0, r1, SwapRates(s), false);
      NetBounds(out, 0);
    }
  }

  lemma PlainPrices(s: PoolState, c: OracleLog.Call, r0: nat, r1: nat)
    requires Plain(s, r0, r1) && Priced(c, r0, r1)
    ensures TokenPriceX32(s) == Success((c.price0, c.price1))
  {
    hide TokenPriceX32;
    PricesDefinedIffReservesPositive(s);
    var (price0, price1) := TokenPriceX32(s).value;
    assert price0 == c.price0 && price1 == c.price1;
  }

  /** A unit swap on a plain pool: what it leaves and what it shows. */
  lemma UnitSwapShows(s: PoolState, calls: seq<OracleLog.Call>, c: OracleLog.Call, r0: nat, r1: nat, left: nat)
    requires Sound(s) && Plain(s, r0, r1) && UnitLeaves(r0, r1, left) && Priced(c, r0, r1)
    requires s.oracle == OracleLog.After(calls) && c.now >= 1 && OracleReady(s, c.now)
    ensures var s' := Next(s, UnitSwapIx(c.now));
            && Sound(s') && Plain(s', r0 + 1, left)
            && PoolRun.Shown(s, UnitSwapIx(c.now)) == [c]
            && s'.oracle == OracleLog.After(calls + [c])
  {
    hide Sound, Step, Next, Plain, UnitLeaves, Priced, OracleReady, TokenPriceX32, OracleLog.After;
    UnitSwap(s, c.now, r0, r1, left);
    PlainPrices(s, c, r0, r1);
    PoolRun.OracleStep(s, UnitSwapIx(c.now), calls);
  }

  /** A log whose last call opened its own observation. */
  predicate EndsOpen(calls: seq<OracleLog.Call>) {
    && calls != [] && OracleLog.Effective(calls) == calls && calls[|calls| - 1].now > 0
    && var slots := OracleLog.Log(calls);
       slots[|slots| - 1] == OracleLog.Slot(|calls| - 1, |calls| - 1)
  }

  lemma PendingAfter(calls: seq<OracleLog.Call>, now: u64)
    requires EndsOpen(calls) && calls[|calls| - 1].now <= now
    ensures var o := OracleLog.After(calls);
            o.index < |o.observations| && Pending(o, now) == now - calls[|calls| - 1].now
  {
    hide OracleLog.Effective, OracleLog.Log, OracleLog.After, OracleLog.Integral, OracleLog.Increasing;
    OracleLog.RingRefinesLog(calls);
    OracleLog.RunningOracle(OracleLog.After(calls), calls);
  }

  /** After silence since such a log a pool can swap exactly when its prices fit the silence. */
  lemma ReadyAfter(s: PoolState, calls: seq<OracleLog.Call>, c: OracleLog.Call, r0: nat, r1: nat)
    requires Plain(s, r0, r1) && Priced(c, r0, r1) && s.oracle == OracleLog.After(calls)
    requires EndsOpen(calls) && calls[|calls| - 1].now <= c.now
    ensures OracleReady(s, c.now) <==> Fits(c, c.now - calls[|calls| - 1].now)
  {
    hide EndsOpen, OracleLog.After, Pending, Reserve;
    PendingAfter(calls, c.now);
  }

  lemma ReadyFirst(s: PoolState, now: u64)
    requires Sound(s) && s.oracle == Oracle.Fresh()
    ensures OracleReady(s, now)
  {
    hide ReserveProduct, Reserve;
    ReservesPositive(s);
  }

  /** The pool and its oracle after a first unit swap. */
  lemma FirstSwap(s: PoolState, c: OracleLog.Call, r0: nat, r1: nat, left: nat)
    requires Sound(s) && Plain(s, r0, r1) && s.oracle == Oracle.Fresh()
    requires UnitLeaves(r0, r1, left) && Priced(c, r0, r1) && c.now >= 1
    ensures var s' := Next(s, UnitSwapIx(c.now));
            && Sound(s') && Plain(s', r0 + 1, left)
            && PoolRun.Shown(s, UnitSwapIx(c.now)) == [c]
            && s'.oracle == OracleLog.After([c]) && EndsOpen([c])
  {
    hide Sound, Next, Plain, UnitLeaves, Priced, Oracle.Fresh, OracleReady, OracleLog.After, PoolRun.Shown, EndsOpen;
    NoCalls();
    OneCall(c);
    ReadyFirst(s, c.now);
    UnitSwapShows(s, [], c, r0, r1, left);
    assert [] + [c] == [c];
  }

  lemma NoCalls()
    ensures OracleLog.After([]) == Oracle.Fresh()
  {
  }

  lemma OneCall(c: OracleLog.Call)
    requires c.now > 0
    ensures EndsOpen([c])
  {
    assert [c][..0] == [] && OracleLog.Effective([]) == [] && OracleLog.Log([]) == [];
    assert OracleLog.Effective([c]) == [c];
    assert OracleLog.Log([c]) == [OracleLog.Slot(0, 0)];
  }

  lemma RunOfThree(s: PoolState, a: Instruction, b: Instruction, c: Instruction)
    ensures var s1, s2 := Next(s, a), Next(Next(s, a), b);
            && Run(s, [a, b, c]) == Next(s2, c)
            && PoolRun.Trace(s, [a, b, c]) == PoolRun.Shown(s, a) + PoolRun.Shown(s1, b) + PoolRun.Shown(s2, c)
  {
    hide Next, PoolRun.Shown;
    RunOfOne(s, a);
    assert [a, b, c][..2] == [a, b] && [a, b][..1] == [a] && [a][..0] == [];
    assert PoolRun.Trace(s, [a]) == [] + PoolRun.Shown(s, a);
  }

  /** Three unit swaps far enough apart to open an observation each, but not too far. */
  ghost predicate ThreeUnitSwaps(c0: OracleLog.Call, c1: OracleLog.Call, c2: OracleLog.Call,
                                 r0: nat, a: nat, b: nat, c: nat, d: nat) {
    && UnitLeaves(r0, a, b) && UnitLeaves(r0 + 1, b, c) && UnitLeaves(r0 + 2, c, d)
    && Priced(c0, r0, a) && Priced(c1, r0 + 1, b) && Priced(c2, r0 + 2, c)
    && 1 <= c0.now && c0.now + Oracle.UPDATE_DURATION <= c1.now && c1.now + Oracle.UPDATE_DURATION <= c2.now
    && Fits(c1, c1.now - c0.now) && Fits(c2, c2.now - c1.now)
  }

  lemma ThreeSwapsTrace(s: PoolState, c0: OracleLog.Call, c1: OracleLog.Call, c2: OracleLog.Call,
                        r0: nat, a: nat, b: nat, c: nat, d: nat)
    requires Sound(s) && Plain(s, r0, a) && s.oracle == Oracle.Fresh()
    requires ThreeUnitSwaps(c0, c1, c2, r0, a, b, c, d)
    ensures PoolRun.Trace(s, [UnitSwapIx(c0.now), UnitSwapIx(c1.now), UnitSwapIx(c2.now)]) == [c0, c1, c2]
    ensures OracleLog.Effective([c0, c1, c2]) == [c0, c1, c2]
    ensures OracleLog.Log([c0, c1, c2]) == [OracleLog.Slot(0, 0), OracleLog.Slot(1, 1), OracleLog.Slot(2, 2)]
  {
    hide Sound, Next, Plain, UnitLeaves, Priced, Fits, OracleReady, OracleLog.After, OracleLog.Effective,
         OracleLog.Log, EndsOpen, PoolRun.Shown, PoolRun.Trace, Run, Oracle.Fresh;
    ThreeOpen(c0, c1, c2);
    FirstSwap(s, c0, r0, a, b);
    var s1 := Next(s, UnitSwapIx(c0.now));
    ReadyAfter(s1, [c0], c1, r0 + 1, b);
    UnitSwapShows(s1, [c0], c1, r0 + 1, b, c);
    assert [c0] + [c1] == [c0, c1];
    var s2 := Next(s1, UnitSwapIx(c1.now));
    ReadyAfter(s2, [c0, c1], c2, r0 + 2, c);
    UnitSwapShows(s2, [c0, c1], c2, r0 + 2, c, d);
    RunOfThree(s, UnitSwapIx(c0.now), UnitSwapIx(c1.now), UnitSwapIx(c2.now));
    assert [c0] + [c1] + [c2] == [c0, c1, c2];
  }

  lemma ThreeOpen(c0: OracleLog.Call, c1: OracleLog.Call, c2: OracleLog.Call)
    requires 1 <= c0.now && c0.now + Oracle.UPDATE_DURATION <= c1.now && c1.now + Oracle.UPDATE_DURATION <= c2.now
    requires Fits(c1, c1.now - c0.now) && Fits(c2, c2.now - c1.now)
    ensures EndsOpen([c0]) && EndsOpen([c0, c1])
    ensures OracleLog.Effective([c0, c1, c2]) == [c0, c1, c2]
    ensures OracleLog.Log([c0, c1, c2]) == [OracleLog.Slot(0, 0), OracleLog.Slot(1, 1), OracleLog.Slot(2, 2)]
  {
    hide OracleLog.Effective, OracleLog.Log;
    OracleLog.ThreeSlots(c0, c1, c2);
  }

  /** When their integral leaves a u128, readers do not get it. */
  lemma ThreeSwapsMislead(s: PoolState, c0: OracleLog.Call, c1: OracleLog.Call, c2: OracleLog.Call,
                          r0: nat, a: nat, b: nat, c: nat, d: nat)
    requires Sound(s) && Plain(s, r0, a) && s.oracle == Oracle.Fresh()
    requires ThreeUnitSwaps(c0, c1, c2, r0, a, b, c, d)
    requires c1.price0 * (c1.now - c0.now) + c2.price0 * (c2.now - c1.now) > U128_MAX
    ensures var ixs := [UnitSwapIx(c0.now), UnitSwapIx(c1.now), UnitSwapIx(c2.now)];
            Misleads(Run(s, ixs).oracle, PoolRun.Trace(s, ixs), 0, 2)
  {
    var ixs := [UnitSwapIx(c0.now), UnitSwapIx(c1.now), UnitSwapIx(c2.now)];
    var o := Run(s, ixs).oracle;
    ThreeSwapsTrace(s, c0, c1, c2, r0, a, b, c, d);
    PoolRun.OracleFollowsTrace(s, ixs);
    hide Sound, Plain, UnitLeaves, Priced, Fits, Run, PoolRun.Trace, OracleLog.Effective, OracleLog.Log,
         OracleLog.Represents, OracleLog.Increasing, OracleLog.IntegralBetween, OracleLog.Difference;
    OracleLog.ThreeCalls(c0, c1, c2, o);
  }

  /** Two visible observations whose difference is not the price integral between them. */
  ghost predicate Misleads(o: Oracle.OracleState, calls: seq<OracleLog.Call>, i: nat, j: nat) {
    var e, slots := OracleLog.Effective(calls), OracleLog.Log(OracleLog.Effective(calls));
    && |o.observations| == Oracle.OBSERVATION_NUM && OracleLog.Increasing(e)
    && OracleLog.Visible(slots, i) && OracleLog.Visible(slots, j) && i <= j
    && OracleLog.Difference(o, i, j, true) != OracleLog.IntegralBetween(e, slots[i], slots[j], true)
  }

  // A pool of 1000 against 2^63, its output reserve after each of three unit swaps, and the time
  // between them.
  const START: u64 := 0x8000_0000_0000_0000
  const LEFT1: u64 := 9_214_157_878_975_800_008
  const LEFT2: u64 := 9_204_962_112_629_516_775
  const LEFT3: u64 := 9_195_784_682_806_356_739
  const GAP: u64 := 0x400_0000_0000
  const CALL0: OracleLog.Call := OracleLog.Call(1, 39_614_081_257_132_168_796_771_975, 0)
  const CALL1: OracleLog.Call := OracleLog.Call(1 + GAP, 39_534_971_778_603_183_825_970_567, 0)
  const CALL2: OracleLog.Call := OracleLog.Call(1 + 2 * GAP, 39_456_099_036_589_663_785_337_714, 0)

  lemma Arithmetic()
    ensures ThreeUnitSwaps(CALL0, CALL1, CALL2, 1000, START, LEFT1, LEFT2, LEFT3)
    ensures CALL1.price0 * GAP + CALL2.price0 * GAP > U128_MAX
  {
  }

  lemma StartsPlain()
    ensures var created := Free(1000, START, OnlyToken1);
            created.Success? && Sound(created.value) && Plain(created.value, 1000, START)
            && created.value.oracle == Oracle.Fresh()
  {
    hide Free, Sound, Oracle.Fresh, SwapOpen;
    FreePool(1000, START, OnlyToken1);
  }

  /** A swap refused only because nobody has swapped for too long: one second after the last swap it
      goes through, at the end of time the oracle overflows. */
  lemma SilenceRefusesSwap()
    ensures var created := Free(1000, START, OnlyToken1);
            && created.Success?
            && var s := Run(created.value, [UnitSwapIx(1)]);
               && Step(s, UnitSwapIx(2)).Success?
               && Step(s, UnitSwapIx(U64_MAX)).Failure?
               && TokenPriceX32(s).Success?
               && var (price0, price1) := TokenPriceX32(s).value;
                  Oracle.Update(s.oracle, U64_MAX, price0, price1).Failure?
  {
    StartsPlain();
    var s0 := Free(1000, START, OnlyToken1).value;
    hide Free, Sound, Step, Next, Plain, UnitLeaves, Priced, Fits, OracleReady, TokenPriceX32, Oracle.Update,
         OracleLog.After, EndsOpen;
    Arithmetic();
    RunOfOne(s0, UnitSwapIx(1));
    FirstSwap(s0, CALL0, 1000, START, LEFT1);
    SoonOrLate(Run(s0, [UnitSwapIx(1)]));
  }

  lemma SoonOrLate(s: PoolState)
    requires Sound(s) && Plain(s, 1001, LEFT1) && s.oracle == OracleLog.After([CALL0]) && EndsOpen([CALL0])
    ensures Step(s, UnitSwapIx(2)).Success?
    ensures Step(s, UnitSwapIx(U64_MAX)).Failure?
    ensures TokenPriceX32(s).Success?
    ensures Oracle.Update(s.oracle, U64_MAX, TokenPriceX32(s).value.0, TokenPriceX32(s).value.1).Failure?
  {
    hide Sound, Step, Plain, OracleReady, TokenPriceX32, Oracle.Update, OracleLog.After, EndsOpen, CurveOut;
    Arithmetic();
    ReadyAfter(s, [CALL0], CALL1.(now := 2), 1001, LEFT1);
    ReadyAfter(s, [CALL0], CALL1.(now := U64_MAX), 1001, LEFT1);
    UnitSwap(s, 2, 1001, LEFT1, LEFT2);
    UnitSwap(s, U64_MAX, 1001, LEFT1, LEFT2);
    UpdateNeedsReady(s, U64_MAX);
  }

  lemma UpdateNeedsReady(s: PoolState, now: u64)
    requires Sound(s) && !OracleReady(s, now)
    ensures TokenPriceX32(s).Success?
    ensures Oracle.Update(s.oracle, now, TokenPriceX32(s).value.0, TokenPriceX32(s).value.1).Failure?
  {
    hide TokenPriceX32, Oracle.Update, Pending, ReserveProduct, Reserve;
    ReservesPositive(s);
    PricesDefinedIffReservesPositive(s);
    OracleAcceptsIff(s.oracle, now, TokenPriceX32(s).value.0, TokenPriceX32(s).value.1);
  }

  /** A run of a pool in which readers do not get the integral: two times 2^42 seconds of silence. */
  lemma SilenceMisleadsReaders()
    ensures var created := Free(1000, START, OnlyToken1);
            && created.Success?
            && var ixs := [UnitSwapIx(1), UnitSwapIx(1 + GAP), UnitSwapIx(1 + 2 * GAP)];
               Misleads(Run(created.value, ixs).oracle, PoolRun.Trace(created.value, ixs), 0, 2)
  {
    StartsPlain();
    Arithmetic();
    hide Free, Sound, Plain, ThreeUnitSwaps, Run, PoolRun.Trace, Misleads;
    ThreeSwapsMislead(Free(1000, START, OnlyToken1).value, CALL0, CALL1, CALL2, 1000, START, LEFT1, LEFT2, LEFT3);
  }
}
