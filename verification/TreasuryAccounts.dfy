/** The treasury program on its accounts: each instruction updates them one by one and is proved
    against its step. */
module TreasuryAccounts {
  import opened Machine
  import opened Outcomes
  import opened Treasury
  import Laws = TreasuryLaws

  class Accounts {
    var activeMim: u64
    var pendingMim: u64
    var pendingMana: u64
    var asset: u64
    var manaSupply: u64
    var pendingManaSupply: u64
    var cooldown: u64
    var requests: map<Pubkey, Request>

    /** The accounts as loaded by an instruction. */
    function State(): TreasuryState
      reads this
    {
      TreasuryState(activeMim, pendingMim, pendingMana, asset, manaSupply, pendingManaSupply, cooldown, requests)
    }

    /** `initialize_treasury`. */
    constructor ()
      ensures State() == INITIAL
    {
      activeMim, pendingMim, pendingMana, asset := 0, 0, 0, 0;
      manaSupply, pendingManaSupply, cooldown, requests := 0, 0, DEFAULT_COOLDOWN, map[];
    }

    method DepositMim(ownMim: u64, amount: u64, minimumMana: u64) returns (r: Result<()>)
      modifies this
      ensures match Treasury.DepositMim(old(State()), ownMim, amount, minimumMana)
              case Success(s) => r.Success? && State() == s
              case Failure(e) => r == Failure(e)
    {
      var _ :- Require(amount != 0, InvalidAmount);
      var activeSupply :- ActiveManaSupply(manaSupply, pendingManaSupply);
      var mana :- CalculateManaForDeposit(amount, activeMim, activeSupply);
      var _ :- Require(mana >= minimumMana, ExceededSlippage);
      var _ :- Require(mana > 0, ZeroManaOut);
      activeMim :- Receive(ownMim, activeMim, amount);
      manaSupply :- Credit(manaSupply, mana);
      return Success(());
    }

    method DonateMim(ownMim: u64, amount: u64) returns (r: Result<()>)
      modifies this
      ensures match Treasury.DonateMim(old(State()), ownMim, amount)
              case Success(s) => r.Success? && State() == s
              case Failure(e) => r == Failure(e)
    {
      var _ :- Require(amount != 0, InvalidAmount);
      activeMim :- Receive(ownMim, activeMim, amount);
      return Success(());
    }

    method DonateAsset(ownAsset: u64, amount: u64) returns (r: Result<()>)
      modifies this
      ensures match Treasury.DonateAsset(old(State()), ownAsset, amount)
              case Success(s) => r.Success? && State() == s
              case Failure(e) => r == Failure(e)
    {
      var _ :- Require(amount != 0, InvalidAmount);
      asset :- Receive(ownAsset, asset, amount);
      return Success(());
    }

    method SwapAssetToMim(amount: u64, minimumMim: u64, assetAfter: u64, mimAfter: u64) returns (r: Result<()>)
      modifies this
      ensures match Treasury.SwapAssetToMim(old(State()), amount, minimumMim, assetAfter, mimAfter)
              case Success(s) => r.Success? && State() == s
              case Failure(e) => r == Failure(e)
    {
      var _ :- Require(amount > 0, InvalidAmount);
      var _ :- Require(minimumMim > 0, InvalidAmount);
      var assetBefore, mimBefore := asset, activeMim;
      asset, activeMim := assetAfter, mimAfter;
      var _ :- Require(asset <= assetBefore, InvalidSwapResult);
      var _ :- Require(mimBefore <= activeMim, InvalidSwapResult);
      var _ :- Require(assetBefore - asset <= amount, InvalidSwapResult);
      var _ :- Require(activeMim - mimBefore >= minimumMim, ExceededSlippage);
      return Success(());
    }

    method StartDestake(owner: Pubkey, ownerMana: u64, mana: u64, minimumMim: u64, now: i64) returns (r: Result<()>)
      modifies this
      ensures match Treasury.StartDestake(old(State()), owner, ownerMana, mana, minimumMim, now)
              case Success(s) => r.Success? && State() == s
              case Failure(e) => r == Failure(e)
    {
      var _ :- Require(owner !in requests, RequestExists);
      var _ :- Require(mana != 0, InvalidAmount);
      var activeSupply :- ActiveManaSupply(manaSupply, pendingManaSupply);
      var reserved :- CalculateMimForRedemption(mana, activeMim, activeSupply);
      var _ :- Require(reserved >= minimumMim, ExceededSlippage);
      var _ :- Require(reserved > 0, ZeroMimOut);
      var _ :- Require(mana <= ownerMana && mana <= manaSupply - pendingMana, TokenProgram);
      pendingMana := pendingMana + mana;
      activeMim :- Debit(activeMim, reserved);
      pendingMim :- Credit(pendingMim, reserved);
      pendingManaSupply :- OrOverflow(CheckedAdd64(pendingManaSupply, mana));
      var unlock :- CheckedAddI64(now, AsI64(cooldown));
      requests := requests[owner := Request(mana, reserved, unlock, false)];
      return Success(());
    }

    method FinalizeDestake(owner: Pubkey, now: i64) returns (r: Result<()>)
      modifies this
      ensures match Treasury.FinalizeDestake(old(State()), owner, now)
              case Success(s) => r.Success? && State() == s
              case Failure(e) => r == Failure(e)
    {
      if owner !in requests {
        return Failure(NoRequest);
      }
      var request := requests[owner];
      var _ :- Require(!request.finalized, AlreadyFinalized);
      var _ :- Require(now >= request.unlock, CooldownActive);
      pendingMana :- Debit(pendingMana, request.manaAmount);
      manaSupply :- Debit(manaSupply, request.manaAmount);
      pendingMim :- Debit(pendingMim, request.reservedMim);
      pendingManaSupply :- OrOverflow(CheckedSub64(pendingManaSupply, request.manaAmount));
      requests := requests - {owner};
      return Success(());
    }

    /** Undoes the account writes of a failed instruction. */
    method RollBack(s: TreasuryState)
      modifies this
      ensures State() == s
    {
      activeMim, pendingMim, pendingMana, asset := s.activeMim, s.pendingMim, s.pendingMana, s.asset;
      manaSupply, pendingManaSupply, cooldown, requests := s.manaSupply, s.pendingManaSupply, s.cooldown, s.requests;
    }

    /** Runs one instruction as the runtime does: all of its writes, or none. A backed treasury stays
        backed, and while Mana is active MIM per Mana does not fall. */
    method Process(ix: Instruction) returns (r: Result<()>)
      modifies this
      ensures State() == Next(old(State()), ix)
      ensures match Step(old(State()), ix) case Success(_) => r.Success? case Failure(e) => r == Failure(e)
      ensures old(Laws.Backed(State())) ==>
                && Laws.Backed(State())
                && (ActiveSupply(old(State())) > 0 ==> Laws.NavKept(old(State()), State()))
    {
      hide Laws.Backed, Laws.NavKept, ActiveSupply;
      hide Treasury.DepositMim, Treasury.StartDestake, Treasury.FinalizeDestake, Treasury.SwapAssetToMim;
      var before := State();
      match ix {
        case DepositIx(ownMim, amount, minimumMana) => r := DepositMim(ownMim, amount, minimumMana);
        case DonateMimIx(ownMim, amount) => r := DonateMim(ownMim, amount);
        case DonateAssetIx(ownAsset, amount) => r := DonateAsset(ownAsset, amount);
        case SwapAssetIx(amount, minimumMim, assetAfter, mimAfter) =>
          r := SwapAssetToMim(amount, minimumMim, assetAfter, mimAfter);
        case StartDestakeIx(owner, ownerMana, mana, minimumMim, now) =>
          r := StartDestake(owner, ownerMana, mana, minimumMim, now);
        case FinalizeIx(owner, now) => r := FinalizeDestake(owner, now);
        case SetCooldownIx(seconds) =>
          cooldown := seconds;
          r := Success(());
        case SendMimToPendingIx(amount) => r := SendMimToPending(amount);
        case SendManaToPendingIx(amount) => r := SendManaToPending(amount);
        case BurnManaIx(amount) => r := BurnMana(amount);
      }
      if r.Failure? {
        RollBack(before);
      }
      if Laws.Backed(before) { Laws.NextKeeps(before, ix); }
    }

    method SendMimToPending(amount: u64) returns (r: Result<()>)
      modifies this
      ensures match Step(old(State()), SendMimToPendingIx(amount))
              case Success(s) => r.Success? && State() == s
              case Failure(e) => r == Failure(e)
    {
      pendingMim :- Credit(pendingMim, amount);
      return Success(());
    }

    method SendManaToPending(amount: u64) returns (r: Result<()>)
      modifies this
      ensures match Step(old(State()), SendManaToPendingIx(amount))
              case Success(s) => r.Success? && State() == s
              case Failure(e) => r == Failure(e)
    {
      var _ :- Require(amount <= manaSupply - pendingMana, TokenProgram);
      pendingMana := pendingMana + amount;
      return Success(());
    }

    method BurnMana(amount: u64) returns (r: Result<()>)
      modifies this
      ensures match Step(old(State()), BurnManaIx(amount))
              case Success(s) => r.Success? && State() == s
              case Failure(e) => r == Failure(e)
    {
      var _ :- Require(amount <= manaSupply - pendingMana, TokenProgram);
      manaSupply := manaSupply - amount;
      return Success(());
    }
  }
}
