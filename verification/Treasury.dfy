/** The Mana treasury of programs/mana-treasury/src/lib.rs: a share vault priced by its net asset
    value, with a queue of escrowed redemptions. */
module Treasury {
  import opened Machine
  import opened Outcomes

  const I64_MIN: int := -0x8000_0000_0000_0000
  const I64_MAX: int := 0x7FFF_FFFF_FFFF_FFFF

  type i64 = x: int | I64_MIN <= x <= I64_MAX

  datatype TreasuryError =
    | InvalidAmount | MathOverflow | ExceededSlippage | ZeroManaOut | ZeroMimOut
    | InvalidTreasuryBalance | InvalidSwapResult | CooldownActive | AlreadyFinalized
    | RequestExists    // an owner's request account is created once and closed when finalized
    | NoRequest
    | TokenProgram     // a transfer, mint or burn the token program refuses

  type Result<+T> = Outcome<T, TreasuryError>

  datatype Request = Request(manaAmount: u64, reservedMim: u64, unlock: i64, finalized: bool)

  datatype TreasuryState = TreasuryState(
    activeMim: u64,
    pendingMim: u64,
    pendingMana: u64,
    asset: u64,
    manaSupply: u64,
    pendingManaSupply: u64,
    cooldown: u64,
    requests: map<Pubkey, Request>
  )

  const DEFAULT_COOLDOWN: u64 := 259_200

  const INITIAL: TreasuryState := TreasuryState(0, 0, 0, 0, 0, 0, DEFAULT_COOLDOWN, map[])

  /** `as i64` on a u64: the upper half of the range wraps to negative numbers. */
  function AsI64(x: u64): i64 {
    if x <= I64_MAX then x else x - (U64_MAX + 1)
  }

  function CheckedAddI64(a: i64, b: i64): Result<i64> {
    if I64_MIN <= a + b <= I64_MAX then Success(a + b) else Failure(MathOverflow)
  }

  function OrOverflow<T>(c: Checked<T>): Result<T> {
    if c.Some? then Success(c.value) else Failure(MathOverflow)
  }

  // ----- Prices -----

  function ActiveManaSupply(manaSupply: u64, pendingManaSupply: u64): Result<u64> {
    OrOverflow(CheckedSub64(manaSupply, pendingManaSupply))
  }

  function CalculateManaForDeposit(amount: u64, activeMim: u64, activeSupply: u64): Result<u64> {
    if activeSupply == 0 then Success(amount)
    else
      var _ :- Require(activeMim > 0, InvalidTreasuryBalance);
      var product :- OrOverflow(CheckedMul(amount, activeSupply));
      var mana :- OrOverflow(CheckedDiv(product, activeMim));
      OrOverflow(ToU64(mana))
  }

  function CalculateMimForRedemption(mana: u64, activeMim: u64, activeSupply: u64): Result<u64> {
    if activeSupply == 0 then Failure(InvalidTreasuryBalance)
    else
      var product :- OrOverflow(CheckedMul(mana, activeMim));
      var mim :- OrOverflow(CheckedDiv(product, activeSupply));
      OrOverflow(ToU64(mim))
  }

  // ----- Instructions -----

  /** The balance after a user holding `payer` sends it `amount`. */
  function Receive(payer: u64, balance: u64, amount: u64): Result<u64> {
    var _ :- Require(amount <= payer, TokenProgram);
    Credit(balance, amount)
  }

  /** Tokens arriving in an account that can hold them. */
  function Credit(balance: u64, amount: u64): Result<u64> {
    if balance + amount <= U64_MAX then Success(balance + amount) else Failure(TokenProgram)
  }

  function Debit(balance: u64, amount: u64): Result<u64> {
    if amount <= balance then Success(balance - amount) else Failure(TokenProgram)
  }

  /** `ownMim` is what the depositor holds. */
  function DepositMim(s: TreasuryState, ownMim: u64, amount: u64, minimumMana: u64): Result<TreasuryState> {
    if amount == 0 then Failure(InvalidAmount)
    else
      var activeSupply :- ActiveManaSupply(s.manaSupply, s.pendingManaSupply);
      var mana :- CalculateManaForDeposit(amount, s.activeMim, activeSupply);
      var _ :- Require(mana >= minimumMana, ExceededSlippage);
      var _ :- Require(mana > 0, ZeroManaOut);
      var activeMim :- Receive(ownMim, s.activeMim, amount);
      var manaSupply :- Credit(s.manaSupply, mana);
      Success(s.(activeMim := activeMim, manaSupply := manaSupply))
  }

  function DonateMim(s: TreasuryState, ownMim: u64, amount: u64): Result<TreasuryState> {
    if amount == 0 then Failure(InvalidAmount)
    else
      var activeMim :- Receive(ownMim, s.activeMim, amount);
      Success(s.(activeMim := activeMim))
  }

  function DonateAsset(s: TreasuryState, ownAsset: u64, amount: u64): Result<TreasuryState> {
    if amount == 0 then Failure(InvalidAmount)
    else
      var asset :- Receive(ownAsset, s.asset, amount);
      Success(s.(asset := asset))
  }

  /** The configured router leaves the asset vault and the active vault with the given balances. */
  function SwapAssetToMim(s: TreasuryState, amount: u64, minimumMim: u64, assetAfter: u64,
                          mimAfter: u64): Result<TreasuryState>
  {
    if amount == 0 || minimumMim == 0 then Failure(InvalidAmount)
    else if assetAfter > s.asset || mimAfter < s.activeMim then Failure(InvalidSwapResult)
    else
      var _ :- Require(s.asset - assetAfter <= amount, InvalidSwapResult);
      var _ :- Require(mimAfter - s.activeMim >= minimumMim, ExceededSlippage);
      Success(s.(asset := assetAfter, activeMim := mimAfter))
  }

  /** Mana that is in nobody's escrow. */
  function Circulating(s: TreasuryState): int {
    s.manaSupply - s.pendingMana
  }

  /** `ownerMana` is the owner's Mana balance, part of what circulates. */
  function StartDestake(s: TreasuryState, owner: Pubkey, ownerMana: u64, mana: u64, minimumMim: u64,
                        now: i64): Result<TreasuryState>
  {
    if owner in s.requests then Failure(RequestExists)
    else if mana == 0 then Failure(InvalidAmount)
    else
      var activeSupply :- ActiveManaSupply(s.manaSupply, s.pendingManaSupply);
      var reserved :- CalculateMimForRedemption(mana, s.activeMim, activeSupply);
      var _ :- Require(reserved >= minimumMim, ExceededSlippage);
      var _ :- Require(reserved > 0, ZeroMimOut);
      var _ :- Require(mana <= ownerMana && mana <= Circulating(s), TokenProgram);
      var activeMim :- Debit(s.activeMim, reserved);
      var pendingMim :- Credit(s.pendingMim, reserved);
      var pendingManaSupply :- OrOverflow(CheckedAdd64(s.pendingManaSupply, mana));
      var unlock :- CheckedAddI64(now, AsI64(s.cooldown));
      Success(s.(activeMim := activeMim, pendingMim := pendingMim, pendingMana := s.pendingMana + mana,
                 pendingManaSupply := pendingManaSupply,
                 requests := s.requests[owner := Request(mana, reserved, unlock, false)]))
  }

  function FinalizeDestake(s: TreasuryState, owner: Pubkey, now: i64): Result<TreasuryState> {
    if owner !in s.requests then Failure(NoRequest)
    else
      var request := s.requests[owner];
      var _ :- Require(!request.finalized, AlreadyFinalized);
      var _ :- Require(now >= request.unlock, CooldownActive);
      var pendingMana :- Debit(s.pendingMana, request.manaAmount);
      var manaSupply :- Debit(s.manaSupply, request.manaAmount);
      var pendingMim :- Debit(s.pendingMim, request.reservedMim);
      var pendingManaSupply :- OrOverflow(CheckedSub64(s.pendingManaSupply, request.manaAmount));
      Success(s.(pendingMana := pendingMana, manaSupply := manaSupply, pendingMim := pendingMim,
                 pendingManaSupply := pendingManaSupply, requests := s.requests - {owner}))
  }

  // ----- Runs -----

  datatype Instruction =
    | DepositIx(ownMim: u64, amount: u64, minimumMana: u64)
    | DonateMimIx(ownMim: u64, amount: u64)
    | DonateAssetIx(ownAsset: u64, amount: u64)
    | SwapAssetIx(amount: u64, minimumMim: u64, assetAfter: u64, mimAfter: u64)
    | StartDestakeIx(owner: Pubkey, ownerMana: u64, mana: u64, minimumMim: u64, now: i64)
    | FinalizeIx(owner: Pubkey, now: i64)
    | SetCooldownIx(seconds: u64)
    // What outsiders can do without the program.
    | SendMimToPendingIx(amount: u64)
    | SendManaToPendingIx(amount: u64)
    | BurnManaIx(amount: u64)

  function Step(s: TreasuryState, ix: Instruction): Result<TreasuryState> {
    match ix
    case DepositIx(ownMim, amount, minimumMana) => DepositMim(s, ownMim, amount, minimumMana)
    case DonateMimIx(ownMim, amount) => DonateMim(s, ownMim, amount)
    case DonateAssetIx(ownAsset, amount) => DonateAsset(s, ownAsset, amount)
    case SwapAssetIx(amount, minimumMim, assetAfter, mimAfter) =>
      SwapAssetToMim(s, amount, minimumMim, assetAfter, mimAfter)
    case StartDestakeIx(owner, ownerMana, mana, minimumMim, now) =>
      StartDestake(s, owner, ownerMana, mana, minimumMim, now)
    case FinalizeIx(owner, now) => FinalizeDestake(s, owner, now)
    case SetCooldownIx(seconds) => Success(s.(cooldown := seconds))
    case SendMimToPendingIx(amount) =>
      var pendingMim :- Credit(s.pendingMim, amount);
      Success(s.(pendingMim := pendingMim))
    case SendManaToPendingIx(amount) =>
      var _ :- Require(amount <= Circulating(s), TokenProgram);
      Success(s.(pendingMana := s.pendingMana + amount))
    case BurnManaIx(amount) =>
      var _ :- Require(amount <= Circulating(s), TokenProgram);
      Success(s.(manaSupply := s.manaSupply - amount))
  }

  function Next(s: TreasuryState, ix: Instruction): TreasuryState {
    match Step(s, ix)
    case Success(s') => s'
    case Failure(_) => s
  }

  function Run(s: TreasuryState, ixs: seq<Instruction>): TreasuryState {
    if ixs == [] then s else Next(Run(s, ixs[..|ixs| - 1]), ixs[|ixs| - 1])
  }

  /** The active supply; negative only in states the program cannot reach. */
  function ActiveSupply(s: TreasuryState): int {
    s.manaSupply - s.pendingManaSupply
  }
}
