/** Token movements of programs/cp-swap/src/utils/token.rs. The fee function and the candidate
    inverse belong to the token program and are parameters of a mint. */
module Tokens {
  import opened Machine
  import opened Outcomes
  import opened Errors

  const MAX_FEE_BASIS_POINTS: nat := 10_000

  datatype RawTransferFee = TransferFee(
    basisPoints: nat,
    maximumFee: u64,
    fee: u64 -> u64,
    inverse: u64 -> Checked<u64>
  ) {
    /** What the token program promises of its fee function. */
    ghost predicate Sound() {
      && (forall a: u64 :: fee(a) <= a)
      && (basisPoints == MAX_FEE_BASIS_POINTS ==>
            forall a: u64 :: fee(a) == if a <= maximumFee then a else maximumFee)
    }
  }

  const NO_FEE: RawTransferFee := TransferFee(0, 0, a => 0, a => Some(0))

  type TransferFee = f: RawTransferFee | f.Sound() ghost witness NO_FEE

  /** A mint of the classic token program, or a Token-2022 mint with or without the fee extension. */
  datatype Mint = Classic | Plain2022 | Charging(config: TransferFee)

  /** The fee withheld from a transfer of `amount`. */
  function FeeOn(mint: Mint, amount: u64): (fee: u64)
    ensures fee <= amount
  {
    if mint.Charging? then mint.config.fee(amount) else 0
  }

  /** What arrives of a transfer of `amount`. */
  function Received(mint: Mint, amount: u64): u64 {
    amount - FeeOn(mint, amount)
  }

  /** The fee to add so that `postFee` arrives. */
  function InverseFee(mint: Mint, postFee: u64): Result<u64> {
    match mint
    case Classic => Success(0)
    case Plain2022 =>
      var _ :- Require(postFee != 0, InvalidInput);
      Success(0)
    case Charging(config) =>
      var _ :- Require(postFee != 0, InvalidInput);
      if config.basisPoints == MAX_FEE_BASIS_POINTS then Success(config.maximumFee)
      else
        var fee :- Unwrap(config.inverse(postFee));
        var sent :- Unwrap(CheckedAdd64(postFee, fee));
        var _ :- Require(fee == config.fee(sent), TransferFeeCalculateNotMatch);
        Success(fee)
  }

  /** `postFee` plus its inverse fee, as the callers add them. */
  function AmountToSend(mint: Mint, postFee: u64): Result<u64> {
    var fee :- InverseFee(mint, postFee);
    Unwrap(CheckedAdd64(postFee, fee))
  }

  /** Whenever the inverse fee is accepted, sending the amount plus that fee delivers exactly the
      amount, whatever candidate the token program proposed. */
  lemma SendingDeliversExactly(mint: Mint, postFee: u64)
    requires AmountToSend(mint, postFee).Success?
    ensures var sent := AmountToSend(mint, postFee).value;
            sent >= postFee && Received(mint, sent) == postFee
  {
    if mint.Charging? && mint.config.basisPoints == MAX_FEE_BASIS_POINTS {
      var sent := AmountToSend(mint, postFee).value;
      assert mint.config.fee(sent) == if sent <= mint.config.maximumFee then sent else mint.config.maximumFee;
    }
  }

  /** The fee a mint proposes for `postFee` to arrive: its cap at the full rate, else its candidate. */
  function ProposedFee(mint: Mint, postFee: u64): Checked<u64> {
    match mint
    case Classic => Some(0)
    case Plain2022 => Some(0)
    case Charging(config) => if config.basisPoints == 10_000 then Some(config.maximumFee) else config.inverse(postFee)
  }

  /** An amount can be sent exactly when it is positive, or the mint classic, and the proposed fee on
      top of it fits a u64 and makes exactly the amount arrive; that sum is then sent. */
  lemma AmountToSendIff(mint: Mint, postFee: u64)
    ensures var fee := ProposedFee(mint, postFee);
            AmountToSend(mint, postFee) ==
            if !mint.Classic? && postFee == 0 then Failure(InvalidInput)
            else if !fee.Some? || postFee + fee.value > U64_MAX then Failure(Panicked)
            else if Received(mint, postFee + fee.value) != postFee then Failure(TransferFeeCalculateNotMatch)
            else Success(postFee + fee.value)
  {
    if mint.Charging? && mint.config.basisPoints == 10_000 && postFee + mint.config.maximumFee <= U64_MAX {
      var sent: u64 := postFee + mint.config.maximumFee;
      assert mint.config.fee(sent) == if sent <= mint.config.maximumFee then sent else mint.config.maximumFee;
    }
  }

  /** A vault has room for `credited`, and a transfer of at most `maximum`, which the payer has, is
      found that delivers it. */
  predicate CanCredit(mint: Mint, payer: u64, vault: nat, credited: nat, maximum: u64) {
    && vault + credited <= U64_MAX
    && var sent := AmountToSend(mint, credited);
       sent.Success? && sent.value <= maximum && sent.value <= payer
  }

  /** The vault balance after a user holding `payer` sends `amount` to it; a zero amount moves nothing. */
  function TransferIn(mint: Mint, payer: u64, vault: u64, amount: u64): Result<u64> {
    var received := Received(mint, amount);
    var _ :- Require(amount <= payer && vault + received <= U64_MAX, TokenProgram);
    Success(vault + received)
  }

  /** The vault balance after it pays `amount`. */
  function TransferOut(vault: u64, amount: u64): Result<u64> {
    var _ :- Require(amount <= vault, TokenProgram);
    Success(vault - amount)
  }

  function MintTo(supply: u64, amount: u64): Result<u64> {
    var _ :- Require(supply + amount <= U64_MAX, TokenProgram);
    Success(supply + amount)
  }

  function Burn(supply: u64, balance: u64, amount: u64): Result<u64> {
    var _ :- Require(amount <= balance && amount <= supply, TokenProgram);
    Success(supply - amount)
  }
}
