/** What the treasury keeps over every run: backing, a solvent redemption queue, a price that never
    falls while there are shares. */
module TreasuryLaws {
  import opened Machine
  import opened Rounding
  import opened Outcomes
  import opened Treasury

  // ----- Sums over the open requests -----

  ghost function SumMana(requests: map<Pubkey, Request>): nat {
    if requests == map[] then 0
    else
      var k :| k in requests;
      requests[k].manaAmount + SumMana(requests - {k})
  }

  ghost function SumMim(requests: map<Pubkey, Request>): nat {
    if requests == map[] then 0
    else
      var k :| k in requests;
      requests[k].reservedMim + SumMim(requests - {k})
  }

  /** The sums do not depend on the order the requests are taken in. */
  lemma {:induction false} SumsWithout(requests: map<Pubkey, Request>, owner: Pubkey)
    requires owner in requests
    ensures SumMana(requests) == requests[owner].manaAmount + SumMana(requests - {owner})
    ensures SumMim(requests) == requests[owner].reservedMim + SumMim(requests - {owner})
    decreases |requests|
  {
    assert requests != map[];
    var k :| k in requests && SumMana(requests) == requests[k].manaAmount + SumMana(requests - {k});
    if k != owner {
      SumsWithout(requests - {k}, owner);
      SumsWithout(requests - {owner}, k);
      assert requests - {k} - {owner} == requests - {owner} - {k};
    }
    var m :| m in requests && SumMim(requests) == requests[m].reservedMim + SumMim(requests - {m});
    if m != owner {
      SumsWithout(requests - {m}, owner);
      SumsWithout(requests - {owner}, m);
      assert requests - {m} - {owner} == requests - {owner} - {m};
    }
  }

  lemma SumsWith(requests: map<Pubkey, Request>, owner: Pubkey, request: Request)
    requires owner !in requests
    ensures SumMana(requests[owner := request]) == request.manaAmount + SumMana(requests)
    ensures SumMim(requests[owner := request]) == request.reservedMim + SumMim(requests)
  {
    SumsWithout(requests[owner := request], owner);
    assert requests[owner := request] - {owner} == requests;
  }

  // ----- The invariant -----

  /** Active MIM backs the active Mana one to one, and the pending vaults cover every open request. */
  ghost predicate Backed(s: TreasuryState) {
    && ActiveSupply(s) <= s.activeMim
    && SumMana(s.requests) == s.pendingManaSupply <= s.pendingMana <= s.manaSupply
    && SumMim(s.requests) <= s.pendingMim
    && (forall owner :: owner in s.requests ==> !s.requests[owner].finalized)
  }

  /** MIM per Mana does not fall. */
  predicate NavKept(s: TreasuryState, s': TreasuryState) {
    s'.activeMim * ActiveSupply(s) >= s.activeMim * ActiveSupply(s')
  }

  lemma InitialIsBacked()
    ensures Backed(INITIAL)
  {
    assert INITIAL.requests == map[];
    assert SumMana(map[]) == 0 && SumMim(map[]) == 0;
  }

  // ----- Prices -----

  /** While Mana is active a deposit mints the floor of its share, never more than one to one. */
  lemma ManaForDepositValue(amount: u64, activeMim: u64, activeSupply: u64)
    requires activeSupply <= activeMim
    ensures CalculateManaForDeposit(amount, activeMim, activeSupply) ==
            Success(if activeSupply == 0 then amount else amount * activeSupply / activeMim)
    ensures activeSupply > 0 ==>
              var mana := amount * activeSupply / activeMim;
              0 <= mana <= amount && mana * activeMim <= amount * activeSupply
  {
    if activeSupply > 0 {
      MulU64(amount, activeSupply);
      QuotientFits(amount * activeSupply, activeMim);
      FloorAdjoint(amount * activeSupply, activeMim, amount * activeSupply / activeMim);
      FloorAdjoint(amount * activeSupply, activeMim, amount + 1);
      MulMono(activeSupply, activeMim, amount);
      assert (amount + 1) * activeMim == amount * activeMim + activeMim;
    }
  }

  /** A redemption of active Mana reserves the floor of its share: at least the Mana, at most all MIM. */
  lemma MimForRedemptionValue(mana: u64, activeMim: u64, activeSupply: u64)
    requires 0 < activeSupply <= activeMim && mana <= activeSupply
    ensures var mim := mana * activeMim / activeSupply;
            && CalculateMimForRedemption(mana, activeMim, activeSupply) == Success(mim)
            && mana <= mim <= activeMim
            && mim * activeSupply <= mana * activeMim
  {
    MulU64(mana, activeMim);
    var mim := mana * activeMim / activeSupply;
    FloorAdjoint(mana * activeMim, activeSupply, mim);
    FloorAdjoint(mana * activeMim, activeSupply, mana);
    FloorAdjoint(mana * activeMim, activeSupply, activeMim + 1);
    MulMono(activeSupply, activeMim, mana);
    MulMono(mana, activeSupply, activeMim);
    assert (activeMim + 1) * activeSupply == activeMim * activeSupply + activeSupply;
  }

  /** Taking at most the proportional share leaves at least one MIM per Mana. */
  lemma StaysBacked(m: nat, s: nat, mim: nat, mana: nat)
    requires 0 < s <= m && mana <= s && mim <= m && mim * s <= mana * m
    ensures s - mana <= m - mim
    ensures (m - mim) * s >= m * (s - mana)
  {
    assert (m - mim) * s == m * s - mim * s;
    assert m * (s - mana) == m * s - mana * m;
    MulMono(s, m, s - mana);
    CancelLe(s - mana, m - mim, s);
  }

  // ----- Steps -----

  lemma DepositKeeps(s: TreasuryState, ownMim: u64, amount: u64, minimumMana: u64)
    requires Backed(s) && DepositMim(s, ownMim, amount, minimumMana).Success?
    ensures var s' := DepositMim(s, ownMim, amount, minimumMana).value;
            Backed(s') && (ActiveSupply(s) > 0 ==> NavKept(s, s'))
  {
    ManaForDepositValue(amount, s.activeMim, ActiveSupply(s));
    var mana := CalculateManaForDeposit(amount, s.activeMim, ActiveSupply(s)).value;
    if ActiveSupply(s) > 0 {
      DepositPrice(s.activeMim, ActiveSupply(s), amount, mana);
    }
  }

  lemma DepositPrice(m: nat, s: nat, amount: nat, mana: nat)
    requires mana * m <= amount * s
    ensures (m + amount) * s >= m * (s + mana)
  {
    assert (m + amount) * s == m * s + amount * s;
    assert m * (s + mana) == m * s + mana * m;
  }

  /** A started de-stake reserves at least the Mana it escrows. */
  lemma StartDestakeEffect(s: TreasuryState, owner: Pubkey, ownerMana: u64, mana: u64, minimumMim: u64, now: i64)
    requires Backed(s) && StartDestake(s, owner, ownerMana, mana, minimumMim, now).Success?
    ensures ActiveSupply(s) > 0 && mana <= ActiveSupply(s)
    ensures var reserved := mana * s.activeMim / ActiveSupply(s);
            && mana <= reserved <= s.activeMim
            && StartDestake(s, owner, ownerMana, mana, minimumMim, now).value.requests ==
               s.requests[owner := Request(mana, reserved, now + AsI64(s.cooldown), false)]
            && StartDestake(s, owner, ownerMana, mana, minimumMim, now).value.activeMim == s.activeMim - reserved
  {
    MimForRedemptionValue(mana, s.activeMim, ActiveSupply(s));
  }

  lemma StartDestakeKeeps(s: TreasuryState, owner: Pubkey, ownerMana: u64, mana: u64, minimumMim: u64, now: i64)
    requires Backed(s) && StartDestake(s, owner, ownerMana, mana, minimumMim, now).Success?
    ensures var s' := StartDestake(s, owner, ownerMana, mana, minimumMim, now).value;
            Backed(s') && NavKept(s, s')
  {
    MimForRedemptionValue(mana, s.activeMim, ActiveSupply(s));
    var s' := StartDestake(s, owner, ownerMana, mana, minimumMim, now).value;
    SumsWith(s.requests, owner, s'.requests[owner]);
    StaysBacked(s.activeMim, ActiveSupply(s), s.activeMim - s'.activeMim, mana);
  }

  /** An open request covers its own part of both pending vaults. */
  lemma RequestCovered(s: TreasuryState, owner: Pubkey)
    requires Backed(s) && owner in s.requests
    ensures var request := s.requests[owner];
            && !request.finalized
            && request.manaAmount <= s.pendingManaSupply
            && request.reservedMim <= s.pendingMim
            && SumMana(s.requests - {owner}) == s.pendingManaSupply - request.manaAmount
            && SumMim(s.requests - {owner}) <= s.pendingMim - request.reservedMim
  {
    SumsWithout(s.requests, owner);
  }

  /** Finalizing an open request succeeds exactly from its unlock time on; it then pays exactly the
      MIM fixed at the start, burns exactly the escrowed Mana out of the escrow vault, and leaves price
      and queue, all other Mana and everything else alone. */
  lemma FinalizeSucceedsIff(s: TreasuryState, owner: Pubkey, now: i64)
    requires Backed(s) && owner in s.requests
    ensures var request := s.requests[owner];
            var r := FinalizeDestake(s, owner, now);
            && (r.Success? <==> now >= request.unlock)
            && (r.Failure? ==> r.error == CooldownActive)
            && (r.Success? ==>
                  && r.value.pendingMim == s.pendingMim - request.reservedMim
                  && r.value.manaSupply == s.manaSupply - request.manaAmount
                  && r.value.activeMim == s.activeMim
                  && ActiveSupply(r.value) == ActiveSupply(s)
                  && Circulating(r.value) == Circulating(s)
                  && r.value == s.(pendingMana := s.pendingMana - request.manaAmount,
                                   manaSupply := s.manaSupply - request.manaAmount,
                                   pendingMim := s.pendingMim - request.reservedMim,
                                   pendingManaSupply := s.pendingManaSupply - request.manaAmount,
                                   requests := s.requests - {owner})
                  && Backed(r.value))
  {
    RequestCovered(s, owner);
  }

  /** Without a request, or with one already finalized, finalizing is refused at any time. */
  lemma FinalizeRefusals(s: TreasuryState, owner: Pubkey, now: i64)
    ensures owner !in s.requests ==> FinalizeDestake(s, owner, now) == Failure(NoRequest)
    ensures owner in s.requests && s.requests[owner].finalized ==>
              FinalizeDestake(s, owner, now) == Failure(AlreadyFinalized)
  {
  }

  /** Every successful step keeps the treasury backed, and the price while there is active Mana. */
  lemma StepKeeps(s: TreasuryState, ix: Instruction)
    requires Backed(s) && Step(s, ix).Success?
    ensures Backed(Step(s, ix).value)
    ensures ActiveSupply(s) > 0 ==> NavKept(s, Step(s, ix).value)
  {
    hide DepositMim, StartDestake, FinalizeDestake, SumMana, SumMim;
    match ix
    case DepositIx(ownMim, amount, minimumMana) => DepositKeeps(s, ownMim, amount, minimumMana);
    case StartDestakeIx(owner, ownerMana, mana, minimumMim, now) =>
      StartDestakeKeeps(s, owner, ownerMana, mana, minimumMim, now);
    case FinalizeIx(owner, now) =>
      FinalizeNeedsRequest(s, owner, now);
      FinalizeSucceedsIff(s, owner, now);
    case BurnManaIx(amount) =>
      MulMono(ActiveSupply(s) - amount, ActiveSupply(s), s.activeMim);
    case _ =>
      MulMono(s.activeMim, Step(s, ix).value.activeMim, ActiveSupply(s));
  }

  lemma FinalizeNeedsRequest(s: TreasuryState, owner: Pubkey, now: i64)
    ensures FinalizeDestake(s, owner, now).Success? ==> owner in s.requests
  {
  }

  // ----- Runs -----

  lemma NextKeeps(s: TreasuryState, ix: Instruction)
    requires Backed(s)
    ensures Backed(Next(s, ix))
    ensures ActiveSupply(s) > 0 ==> NavKept(s, Next(s, ix))
  {
    hide Step, Backed;
    if Step(s, ix).Success? { StepKeeps(s, ix); }
  }

  /** Every reachable treasury is backed, through emptying and restarting alike. */
  lemma {:induction false} RunKeepsBacked(s: TreasuryState, ixs: seq<Instruction>)
    requires Backed(s)
    ensures Backed(Run(s, ixs))
  {
    if ixs != [] {
      hide Backed, Next;
      RunKeepsBacked(s, ixs[..|ixs| - 1]);
      NextKeeps(Run(s, ixs[..|ixs| - 1]), ixs[|ixs| - 1]);
    }
  }

  /** From initialization on: active MIM covers the active Mana, the pending vaults cover every open
      request, and the recorded pending supply is exactly their sum. */
  lemma ReachableTreasury(ixs: seq<Instruction>)
    ensures var s := Run(INITIAL, ixs);
            && 0 <= ActiveSupply(s) <= s.activeMim
            && SumMana(s.requests) == s.pendingManaSupply <= s.pendingMana
            && SumMim(s.requests) <= s.pendingMim
            && (ActiveSupply(s) > 0 ==> s.activeMim > 0)
  {
    InitialIsBacked();
    RunKeepsBacked(INITIAL, ixs);
  }

  /** The price never falls over a run in which some Mana stays active. */
  lemma {:induction false} RunKeepsNav(s: TreasuryState, ixs: seq<Instruction>)
    requires Backed(s)
    requires forall k :: 0 <= k < |ixs| ==> ActiveSupply(Run(s, ixs[..k])) > 0
    ensures NavKept(s, Run(s, ixs))
  {
    if ixs != [] {
      hide Backed, Next, ActiveSupply;
      var n := |ixs| - 1;
      assert ixs[..0] == [] && Run(s, []) == s;
      var t, u := Run(s, ixs[..n]), Run(s, ixs);
      forall k | 0 <= k < n ensures ActiveSupply(Run(s, ixs[..n][..k])) > 0 {
        assert ixs[..n][..k] == ixs[..k];
      }
      RunKeepsNav(s, ixs[..n]);
      RunKeepsBacked(s, ixs[..n]);
      NextKeeps(t, ixs[n]);
      NavTransitive(s.activeMim, ActiveSupply(s), t.activeMim, ActiveSupply(t), u.activeMim, ActiveSupply(u));
    } else {
      assert Run(s, ixs) == s;
    }
  }

  lemma NavTransitive(m0: nat, s0: int, m1: nat, s1: int, m2: nat, s2: int)
    requires s1 > 0 && m1 * s0 >= m0 * s1 && m2 * s1 >= m1 * s2
    requires s0 > 0
    ensures m2 * s0 >= m0 * s2
  {
    if s2 <= 0 {
      MulMono(s2, 0, m0);
    } else {
      MulMono(m0 * s1, m1 * s0, s2);
      MulMono(m1 * s2, m2 * s1, s0);
      assert (m0 * s2) * s1 == (m0 * s1) * s2;
      assert (m1 * s0) * s2 == (m1 * s2) * s0;
      assert (m2 * s1) * s0 == (m2 * s0) * s1;
      CancelLe(m0 * s2, m2 * s0, s1);
    }
  }

  // ----- Redemptions -----

  /** A run leaves an owner's open request as it was made, as long as every attempt of the owner to
      finalize it comes before its unlock time. */
  lemma {:induction false} RequestSurvives(s: TreasuryState, ixs: seq<Instruction>, owner: Pubkey)
    requires owner in s.requests
    requires forall k :: 0 <= k < |ixs| && ixs[k].FinalizeIx? && ixs[k].owner == owner ==>
                           ixs[k].now < s.requests[owner].unlock
    ensures owner in Run(s, ixs).requests && Run(s, ixs).requests[owner] == s.requests[owner]
  {
    if ixs != [] {
      RequestSurvives(s, ixs[..|ixs| - 1], owner);
      StepLeavesRequest(Run(s, ixs[..|ixs| - 1]), ixs[|ixs| - 1], owner);
    }
  }

  lemma StepLeavesRequest(s: TreasuryState, ix: Instruction, owner: Pubkey)
    requires owner in s.requests
    requires ix.FinalizeIx? && ix.owner == owner ==> ix.now < s.requests[owner].unlock
    ensures owner in Next(s, ix).requests && Next(s, ix).requests[owner] == s.requests[owner]
  {
    hide CalculateManaForDeposit, CalculateMimForRedemption;
  }

  /** Whatever happens between starting and finalizing a de-stake, premature attempts to finalize it
      included, the owner can finalize from the unlock time on, and is paid exactly the share that
      the price at the start fixed. */
  lemma DestakePaysWhatItFixed(s: TreasuryState, owner: Pubkey, ownerMana: u64, mana: u64, minimumMim: u64,
                               started: i64, ixs: seq<Instruction>, now: i64)
    requires Backed(s) && StartDestake(s, owner, ownerMana, mana, minimumMim, started).Success?
    requires forall k :: 0 <= k < |ixs| && ixs[k].FinalizeIx? && ixs[k].owner == owner ==>
                           ixs[k].now < started + AsI64(s.cooldown)
    ensures ActiveSupply(s) > 0
    ensures var t := Run(StartDestake(s, owner, ownerMana, mana, minimumMim, started).value, ixs);
            var r := FinalizeDestake(t, owner, now);
            && (r.Success? <==> now >= started + AsI64(s.cooldown))
            && (r.Success? ==>
                  && t.pendingMim - r.value.pendingMim == mana * s.activeMim / ActiveSupply(s)
                  && t.pendingMim - r.value.pendingMim >= mana
                  && r.value.activeMim == t.activeMim
                  && ActiveSupply(r.value) == ActiveSupply(t))
  {
    hide StartDestake, FinalizeDestake, Backed, Run;
    StartDestakeEffect(s, owner, ownerMana, mana, minimumMim, started);
    StartDestakeKeeps(s, owner, ownerMana, mana, minimumMim, started);
    var s1 := StartDestake(s, owner, ownerMana, mana, minimumMim, started).value;
    RunKeepsBacked(s1, ixs);
    RequestSurvives(s1, ixs, owner);
    FinalizeSucceedsIff(Run(s1, ixs), owner, now);
  }

  /** The request unlocks the configured number of seconds after its start, and not in the past,
      precisely for cooldowns below 2^63; from there on the cast to i64 turns negative. */
  lemma CooldownHoldsIff(s: TreasuryState, owner: Pubkey, ownerMana: u64, mana: u64, minimumMim: u64, now: i64)
    requires StartDestake(s, owner, ownerMana, mana, minimumMim, now).Success?
    ensures var request := StartDestake(s, owner, ownerMana, mana, minimumMim, now).value.requests[owner];
            && (request.unlock == now + s.cooldown <==> s.cooldown <= I64_MAX)
            && (request.unlock >= now <==> s.cooldown <= I64_MAX)
            && request.unlock ==
               now + s.cooldown - (if s.cooldown < 0x8000_0000_0000_0000 then 0 else 0x1_0000_0000_0000_0000)
  {
    hide CalculateMimForRedemption;
  }

  lemma RunOfOne(s: TreasuryState, a: Instruction)
    ensures Run(s, [a]) == Next(s, a)
  {
    assert [a][..0] == [] && Run(s, []) == s;
  }

  lemma RunOfTwo(s: TreasuryState, a: Instruction, b: Instruction)
    ensures Run(s, [a, b]) == Next(Next(s, a), b)
  {
    RunOfOne(s, a);
    assert [a, b][..1] == [a];
  }

  /** A run that shows the wrap: with a cooldown of 2^63 seconds a request is unlocked 2^63 seconds
      before it is made. */
  lemma CooldownWraps()
    ensures var s := Run(INITIAL, [SetCooldownIx(I64_MAX + 1), DepositIx(1, 1, 0)]);
            var r := StartDestake(s, 0, 1, 1, 0, 0);
            && r.Success? && r.value.requests[0].unlock == I64_MIN
            && FinalizeDestake(r.value, 0, 0).Success?
  {
    RunOfTwo(INITIAL, SetCooldownIx(I64_MAX + 1), DepositIx(1, 1, 0));
    var s := Run(INITIAL, [SetCooldownIx(I64_MAX + 1), DepositIx(1, 1, 0)]);
    assert s == INITIAL.(activeMim := 1, manaSupply := 1, cooldown := I64_MAX + 1);
    assert CalculateMimForRedemption(1, 1, 1) == Success(1);
    ReachableTreasury([SetCooldownIx(I64_MAX + 1), DepositIx(1, 1, 0)]);
  }

  // ----- Deposits -----

  /** How a deposit that earns `earned` is refused, in the order of its tests. */
  predicate DepositRefusals(r: Result<TreasuryState>, amount: u64, earned: u64, minimumMana: u64) {
    if amount == 0 then r == Failure(InvalidAmount)
    else if earned < minimumMana then r == Failure(ExceededSlippage)
    else if earned == 0 then r == Failure(ZeroManaOut)
    else r.Success? || r.error == TokenProgram
  }

  /** On a backed treasury a deposit succeeds exactly when it is positive, earns a positive amount of
      Mana not below the minimum, and both balances have room. It then adds the amount to the active
      vault and mints the floor of its share; its overflow and balance errors are unreachable. */
  lemma DepositSucceedsIff(s: TreasuryState, ownMim: u64, amount: u64, minimumMana: u64)
    requires Backed(s)
    ensures var earned := CalculateManaForDeposit(amount, s.activeMim, ActiveSupply(s));
            && earned.Success? && earned.value <= amount
            && (DepositMim(s, ownMim, amount, minimumMana).Success? <==>
                  && 0 < amount <= ownMim && earned.value >= minimumMana && earned.value > 0
                  && s.activeMim + amount <= U64_MAX && s.manaSupply + earned.value <= U64_MAX)
            && (DepositMim(s, ownMim, amount, minimumMana).Success? ==>
                  DepositMim(s, ownMim, amount, minimumMana).value ==
                  s.(activeMim := s.activeMim + amount, manaSupply := s.manaSupply + earned.value))
            && (ActiveSupply(s) == 0 ==> earned.value == amount)
            && (ActiveSupply(s) > 0 ==> s.activeMim > 0 && earned.value == amount * ActiveSupply(s) / s.activeMim)
            && DepositRefusals(DepositMim(s, ownMim, amount, minimumMana), amount, earned.value, minimumMana)
    ensures DepositMim(s, ownMim, amount, minimumMana) != Failure(MathOverflow)
    ensures DepositMim(s, ownMim, amount, minimumMana) != Failure(InvalidTreasuryBalance)
  {
    hide CalculateManaForDeposit;
    ManaForDepositValue(amount, s.activeMim, ActiveSupply(s));
  }

  /** On a backed treasury a positive de-stake never rounds to nothing, and one succeeds exactly when
      the owner has no open request and holds the Mana, the share meets the minimum, the pending vault
      has room, and the unlock time is in range. It then moves exactly the Mana into escrow and its
      share from the active to the pending vault, and opens the request. */
  lemma StartDestakeSucceedsIff(s: TreasuryState, owner: Pubkey, ownerMana: u64, mana: u64, minimumMim: u64, now: i64)
    requires Backed(s)
    ensures StartDestake(s, owner, ownerMana, mana, minimumMim, now) != Failure(ZeroMimOut)
    ensures 0 < mana <= Circulating(s) ==> ActiveSupply(s) > 0
    ensures var r := StartDestake(s, owner, ownerMana, mana, minimumMim, now);
            && (r.Success? <==>
                  && owner !in s.requests
                  && 0 < mana <= ownerMana && mana <= Circulating(s)
                  && var reserved := mana * s.activeMim / ActiveSupply(s);
                     && reserved >= minimumMim
                     && s.pendingMim + reserved <= U64_MAX
                     && I64_MIN <= now + AsI64(s.cooldown) <= I64_MAX)
            && (r.Success? ==>
                  var reserved := mana * s.activeMim / ActiveSupply(s);
                  && 0 <= reserved <= s.activeMim && s.pendingMana + mana <= s.manaSupply
                  && s.pendingManaSupply + mana <= U64_MAX
                  && r.value == s.(activeMim := s.activeMim - reserved, pendingMim := s.pendingMim + reserved,
                                   pendingMana := s.pendingMana + mana,
                                   pendingManaSupply := s.pendingManaSupply + mana,
                                   requests := s.requests[owner :=
                                     Request(mana, reserved, now + AsI64(s.cooldown), false)]))
            && (owner in s.requests ==> r == Failure(RequestExists))
            && (owner !in s.requests && mana == 0 ==> r == Failure(InvalidAmount))
  {
    hide CalculateMimForRedemption;
    RedemptionNotZero(mana, s.activeMim, ActiveSupply(s));
    if 0 < mana <= Circulating(s) {
      MimForRedemptionValue(mana, s.activeMim, ActiveSupply(s));
    }
  }

  lemma RedemptionNotZero(mana: u64, activeMim: u64, activeSupply: u64)
    requires activeSupply <= activeMim
    ensures var r := CalculateMimForRedemption(mana, activeMim, activeSupply);
            if r.Success? then r.value >= mana else r.error != ZeroMimOut
  {
    if activeSupply > 0 {
      MulU64(mana, activeMim);
      MulMono(activeSupply, activeMim, mana);
      FloorAdjoint(mana * activeMim, activeSupply, mana);
    }
  }

  /** Redeeming at once what a deposit minted gives back at most the deposit, if and only if Mana was
      active before or the vault was empty. A first deposit into a vault that already holds MIM also
      buys all of that MIM. */
  lemma DepositThenRedeem(s: TreasuryState, ownMim: u64, amount: u64, minimumMana: u64)
    requires Backed(s) && DepositMim(s, ownMim, amount, minimumMana).Success?
    ensures var s1 := DepositMim(s, ownMim, amount, minimumMana).value;
            var mana := s1.manaSupply - s.manaSupply;
            && 0 < mana <= amount
            && 0 < ActiveSupply(s1)
            && var back := CalculateMimForRedemption(mana, s1.activeMim, ActiveSupply(s1));
               && back.Success?
               && (back.value <= amount <==> ActiveSupply(s) > 0 || s.activeMim == 0)
               && (ActiveSupply(s) == 0 ==> back.value == s.activeMim + amount)
  {
    hide CalculateMimForRedemption, CalculateManaForDeposit, Backed;
    BackedParts(s);
    var m, supply := s.activeMim, ActiveSupply(s);
    ManaForDepositValue(amount, m, supply);
    DepositKeeps(s, ownMim, amount, minimumMana);
    var s1 := DepositMim(s, ownMim, amount, minimumMana).value;
    BackedParts(s1);
    var mana := s1.manaSupply - s.manaSupply;
    MimForRedemptionValue(mana, m + amount, supply + mana);
    BackIff(mana, m, supply, amount);
  }

  /** A run that shows the gain: after one MIM is donated to the empty treasury, a deposit of one
      redeems for two. */
  lemma DepositGainsDonation()
    ensures var s := Run(INITIAL, [DonateMimIx(1, 1)]);
            var r := DepositMim(s, 1, 1, 0);
            && r.Success? && r.value.manaSupply == s.manaSupply + 1
            && var d := StartDestake(r.value, 0, 1, 1, 0, 0);
               d.Success? && d.value.requests[0].reservedMim == 2
  {
    RunOfOne(INITIAL, DonateMimIx(1, 1));
    var s := Run(INITIAL, [DonateMimIx(1, 1)]);
    assert s == INITIAL.(activeMim := 1);
    var r := DepositMim(s, 1, 1, 0);
    assert r == Success(INITIAL.(activeMim := 2, manaSupply := 1));
    assert CalculateMimForRedemption(1, 2, 1) == Success(2);
  }

  lemma BackedParts(s: TreasuryState)
    requires Backed(s)
    ensures 0 <= ActiveSupply(s) <= s.activeMim
  {
  }

  lemma BackIff(mana: nat, m: nat, supply: nat, amount: nat)
    requires 0 < mana
    requires if supply == 0 then mana == amount else mana * m <= amount * supply
    ensures mana * (m + amount) / (supply + mana) <= amount <==> supply > 0 || m == 0
    ensures supply == 0 ==> mana * (m + amount) / (supply + mana) == m + amount
  {
    if supply > 0 {
      BackAtMost(mana, m, supply, amount);
    } else {
      FloorIs(mana * (m + amount), mana, m + amount);
    }
  }

  lemma BackAtMost(mana: nat, m: nat, supply: nat, amount: nat)
    requires supply + mana > 0 && mana * m <= amount * supply
    ensures mana * (m + amount) / (supply + mana) <= amount
  {
    FloorAdjoint(mana * (m + amount), supply + mana, amount + 1);
    assert (amount + 1) * (supply + mana) == amount * supply + mana * amount + supply + mana;
    assert mana * (m + amount) == mana * m + mana * amount;
  }

  // ----- Donations and asset swaps -----

  /** A donation of MIM succeeds exactly when it is positive, held by the donor, and fits, and lands in
      the active vault; a donation of an asset likewise in the asset vault. */
  lemma DonationsSucceedIff(s: TreasuryState, own: u64, amount: u64)
    ensures DonateMim(s, own, amount) ==
            if amount == 0 then Failure(InvalidAmount)
            else if amount > own || s.activeMim + amount > U64_MAX then Failure(TokenProgram)
            else Success(s.(activeMim := s.activeMim + amount))
    ensures DonateAsset(s, own, amount) ==
            if amount == 0 then Failure(InvalidAmount)
            else if amount > own || s.asset + amount > U64_MAX then Failure(TokenProgram)
            else Success(s.(asset := s.asset + amount))
  {
  }

  /** An asset swap is accepted exactly when both limits are positive, at most `amount` of the asset is
      spent and none gained, and the active vault gains at least the minimum, so more than nothing. */
  lemma SwapAssetSucceedsIff(s: TreasuryState, amount: u64, minimumMim: u64, assetAfter: u64, mimAfter: u64)
    ensures var r := SwapAssetToMim(s, amount, minimumMim, assetAfter, mimAfter);
            && (r.Success? <==>
                  && amount > 0 && minimumMim > 0
                  && assetAfter <= s.asset <= assetAfter + amount
                  && mimAfter >= s.activeMim + minimumMim)
            && (r.Success? ==> r.value == s.(asset := assetAfter, activeMim := mimAfter) && mimAfter > s.activeMim)
            && (amount == 0 || minimumMim == 0 ==> r == Failure(InvalidAmount))
            && (amount > 0 && assetAfter <= s.asset <= assetAfter + amount ==>
                  s.activeMim <= mimAfter < s.activeMim + minimumMim ==> r == Failure(ExceededSlippage))
  {
  }

  /** Setting the cooldown, and what outsiders can do, each touch one thing. */
  lemma OutsideSteps(s: TreasuryState, amount: u64)
    requires Backed(s)
    ensures Next(s, SetCooldownIx(amount)) == s.(cooldown := amount)
    ensures Next(s, SendMimToPendingIx(amount)) ==
            if s.pendingMim + amount <= U64_MAX then s.(pendingMim := s.pendingMim + amount) else s
    ensures Next(s, SendManaToPendingIx(amount)) ==
            if s.pendingMana + amount <= s.manaSupply then s.(pendingMana := s.pendingMana + amount) else s
    ensures Next(s, BurnManaIx(amount)) ==
            if s.pendingMana + amount <= s.manaSupply then s.(manaSupply := s.manaSupply - amount) else s
  {
  }

  /** While nobody sets another cooldown, a request unlocks exactly three days after its start. */
  lemma {:induction false} DefaultCooldown(ixs: seq<Instruction>)
    requires forall k :: 0 <= k < |ixs| ==> !ixs[k].SetCooldownIx?
    ensures Run(INITIAL, ixs).cooldown == 3 * 24 * 3600
  {
    if ixs != [] {
      DefaultCooldown(ixs[..|ixs| - 1]);
      CooldownKept(Run(INITIAL, ixs[..|ixs| - 1]), ixs[|ixs| - 1]);
    }
  }

  lemma CooldownKept(s: TreasuryState, ix: Instruction)
    requires !ix.SetCooldownIx?
    ensures Next(s, ix).cooldown == s.cooldown
  {
    hide CalculateManaForDeposit, CalculateMimForRedemption;
  }

  // ----- Conservation -----

  /** MIM entering the treasury's two vaults, net of what leaves them. */
  function MimIn(s: TreasuryState, ix: Instruction): int {
    match ix
    case DepositIx(_, amount, _) => amount
    case DonateMimIx(_, amount) => amount
    case SwapAssetIx(_, _, _, mimAfter) => mimAfter - s.activeMim
    case FinalizeIx(owner, _) => if owner in s.requests then 0 - s.requests[owner].reservedMim else 0
    case SendMimToPendingIx(amount) => amount
    case _ => 0
  }

  /** Mana minted, net of what is burnt. */
  function ManaMinted(s: TreasuryState, ix: Instruction): int {
    match ix
    case DepositIx(_, amount, _) =>
      var mana := CalculateManaForDeposit(amount, s.activeMim, if ActiveSupply(s) >= 0 then ActiveSupply(s) else 0);
      if mana.Success? then mana.value else 0
    case FinalizeIx(owner, _) => if owner in s.requests then 0 - s.requests[owner].manaAmount else 0
    case BurnManaIx(amount) => 0 - amount
    case _ => 0
  }

  /** Every step conserves: a de-stake only moves MIM between the vaults, and MIM leaves only
      by finalizing a request. */
  lemma StepConserves(s: TreasuryState, ix: Instruction)
    requires Step(s, ix).Success?
    ensures var s' := Step(s, ix).value;
            && s'.activeMim + s'.pendingMim == s.activeMim + s.pendingMim + MimIn(s, ix)
            && s'.manaSupply == s.manaSupply + ManaMinted(s, ix)
            && s'.cooldown == (if ix.SetCooldownIx? then ix.seconds else s.cooldown)
            && s'.asset == (if ix.DonateAssetIx? then s.asset + ix.amount
                            else if ix.SwapAssetIx? then ix.assetAfter else s.asset)
  {
    hide CalculateManaForDeposit, CalculateMimForRedemption;
  }

  /** MIM entering over a run, net of what leaves; failed instructions move none. */
  function TotalMimIn(s: TreasuryState, ixs: seq<Instruction>): int {
    if ixs == [] then 0
    else
      var t, ix := Run(s, ixs[..|ixs| - 1]), ixs[|ixs| - 1];
      TotalMimIn(s, ixs[..|ixs| - 1]) + if Step(t, ix).Success? then MimIn(t, ix) else 0
  }

  function TotalManaMinted(s: TreasuryState, ixs: seq<Instruction>): int {
    if ixs == [] then 0
    else
      var t, ix := Run(s, ixs[..|ixs| - 1]), ixs[|ixs| - 1];
      TotalManaMinted(s, ixs[..|ixs| - 1]) + if Step(t, ix).Success? then ManaMinted(t, ix) else 0
  }

  /** Nothing appears or vanishes over any run: the two MIM vaults together change by exactly what
      came in less what requests were paid, the Mana supply by what was minted less what was burnt. */
  lemma {:induction false} RunConserves(s: TreasuryState, ixs: seq<Instruction>)
    ensures var t := Run(s, ixs);
            && t.activeMim + t.pendingMim == s.activeMim + s.pendingMim + TotalMimIn(s, ixs)
            && t.manaSupply == s.manaSupply + TotalManaMinted(s, ixs)
  {
    if ixs != [] {
      hide Step, MimIn, ManaMinted;
      var t, ix := Run(s, ixs[..|ixs| - 1]), ixs[|ixs| - 1];
      RunConserves(s, ixs[..|ixs| - 1]);
      if Step(t, ix).Success? { StepConserves(t, ix); }
    }
  }

  /** How an instruction changes the Mana outside the escrow vault. */
  function CirculatingChange(s: TreasuryState, ix: Instruction): int {
    match ix
    case DepositIx(_, amount, _) =>
      if ActiveSupply(s) == 0 then amount
      else if s.activeMim == 0 then 0
      else amount * ActiveSupply(s) / s.activeMim
    case StartDestakeIx(_, _, mana, _, _) => 0 - mana
    case SendManaToPendingIx(amount) => 0 - amount
    case BurnManaIx(amount) => 0 - amount
    case _ => 0
  }

  lemma StepCirculates(s: TreasuryState, ix: Instruction)
    requires Backed(s) && Step(s, ix).Success?
    ensures Circulating(Step(s, ix).value) == Circulating(s) + CirculatingChange(s, ix)
  {
    hide Backed, DepositMim, StartDestake, FinalizeDestake, SwapAssetToMim;
    match ix
    case DepositIx(ownMim, amount, minimumMana) => DepositSucceedsIff(s, ownMim, amount, minimumMana);
    case StartDestakeIx(owner, ownerMana, mana, minimumMim, now) =>
      StartDestakeSucceedsIff(s, owner, ownerMana, mana, minimumMim, now);
    case FinalizeIx(owner, now) =>
      FinalizeNeedsRequest(s, owner, now);
      FinalizeSucceedsIff(s, owner, now);
    case SwapAssetIx(amount, minimumMim, assetAfter, mimAfter) =>
      SwapAssetSucceedsIff(s, amount, minimumMim, assetAfter, mimAfter);
    case _ =>
  }

  function TotalCirculatingChange(s: TreasuryState, ixs: seq<Instruction>): int {
    if ixs == [] then 0
    else
      var t, ix := Run(s, ixs[..|ixs| - 1]), ixs[|ixs| - 1];
      TotalCirculatingChange(s, ixs[..|ixs| - 1]) + if Step(t, ix).Success? then CirculatingChange(t, ix) else 0
  }

  /** Over every run the Mana in holders' hands changes only by what deposits mint, what starting a
      de-stake or a transfer puts in escrow, and what holders burn; finalizing takes none of it. */
  lemma {:induction false} CirculatingConserved(s: TreasuryState, ixs: seq<Instruction>)
    requires Backed(s)
    ensures Circulating(Run(s, ixs)) == Circulating(s) + TotalCirculatingChange(s, ixs)
  {
    if ixs != [] {
      hide Backed, Step, CirculatingChange;
      var t, ix := Run(s, ixs[..|ixs| - 1]), ixs[|ixs| - 1];
      CirculatingConserved(s, ixs[..|ixs| - 1]);
      RunKeepsBacked(s, ixs[..|ixs| - 1]);
      if Step(t, ix).Success? { StepCirculates(t, ix); }
    }
  }
}
