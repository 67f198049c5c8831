/** The fee rates of a configuration: creation in programs/cp-swap/src/lib.rs, updates in
    programs/cp-swap/src/instructions/admin/update_config.rs. */
module AmmConfig {
  import opened Machine
  import opened Outcomes
  import opened Errors
  import opened Fees
  import opened Calculator

  /** The key of the first remaining account, if there is one. */
  datatype RemainingKey = NoKey | Key(key: Pubkey)

  function Create(trade: u64, creator: u64, protocol: u64, fund: u64): Result<FeeRates> {
    var sum :- Unwrap(Plus64(trade, creator));
    var _ :- Require(sum < FEE_RATE_DENOMINATOR, Panicked);
    var _ :- Require(protocol <= FEE_RATE_DENOMINATOR, Panicked);
    var _ :- Require(fund <= FEE_RATE_DENOMINATOR, Panicked);
    var _ :- Require(fund + protocol <= FEE_RATE_DENOMINATOR, Panicked);
    Success(FeeRates(trade, creator, protocol, fund))
  }

  /** A parameter that sets a key takes it from the remaining accounts, where it must be given and
      not be the default key. */
  function RequiredKey(key: RemainingKey): Result<()> {
    var _ :- Require(key.Key?, InvalidInput);
    Require(key.key != DEFAULT_PUBKEY, RequireViolated)
  }

  predicate SetsKey(param: nat) {
    param in {3, 4, 8, 9, 10}
  }

  /** The rates after `update_amm_config`. The parameters that set keys, the creation fee and the
      creation switch leave the rates alone. */
  function Update(rates: FeeRates, param: nat, value: u64, key: RemainingKey): Result<FeeRates> {
    match param
    case 0 =>
      var sum :- Unwrap(Plus64(value, rates.creator));
      var _ :- Require(sum < FEE_RATE_DENOMINATOR, Panicked);
      Success(rates.(trade := value))
    case 1 =>
      var _ :- Require(value <= FEE_RATE_DENOMINATOR, Panicked);
      var sum :- Unwrap(Plus64(value, rates.fund));
      var _ :- Require(sum <= FEE_RATE_DENOMINATOR, Panicked);
      Success(rates.(protocol := value))
    case 2 =>
      var _ :- Require(value <= FEE_RATE_DENOMINATOR, Panicked);
      var sum :- Unwrap(Plus64(value, rates.protocol));
      var _ :- Require(sum <= FEE_RATE_DENOMINATOR, Panicked);
      Success(rates.(fund := value))
    case 7 =>
      var sum :- Unwrap(Plus64(value, rates.trade));
      var _ :- Require(sum < FEE_RATE_DENOMINATOR, Panicked);
      Success(rates.(creator := value))
    case 5 => Success(rates)
    case 6 => Success(rates)
    case _ =>
      var _ :- Require(SetsKey(param), InvalidInput);
      var _ :- RequiredKey(key);
      Success(rates)
  }

  /** Creation accepts exactly the valid rates, and from valid rates an update is accepted exactly
      when the parameter exists, any key it sets is given and not the default, and the rates it
      would set are valid, whatever overflows on the way. */
  lemma RatesStayValid(rates: FeeRates, param: nat, value: u64, key: RemainingKey)
    ensures Create(rates.trade, rates.creator, rates.protocol, rates.fund) ==
            if rates.Valid() then Success(rates) else Failure(Panicked)
    ensures rates.Valid() ==>
              var wanted := match param
                            case 0 => rates.(trade := value)
                            case 1 => rates.(protocol := value)
                            case 2 => rates.(fund := value)
                            case 7 => rates.(creator := value)
                            case _ => rates;
              Update(rates, param, value, key) ==
              if param > 10 || (SetsKey(param) && key.NoKey?) then Failure(InvalidInput)
              else if SetsKey(param) && key.key == DEFAULT_PUBKEY then Failure(RequireViolated)
              else if wanted.Valid() then Success(wanted)
              else Failure(Panicked)
  {
  }

  /** The configuration account. */
  class AmmConfigAccount {
    var tradeFeeRate: u64
    var protocolFeeRate: u64
    var fundFeeRate: u64
    var creatorFeeRate: u64

    function Rates(): FeeRates
      reads this
    {
      FeeRates(tradeFeeRate, creatorFeeRate, protocolFeeRate, fundFeeRate)
    }

    constructor (rates: FeeRates)
      ensures Rates() == rates
    {
      tradeFeeRate, creatorFeeRate, protocolFeeRate, fundFeeRate :=
        rates.trade, rates.creator, rates.protocol, rates.fund;
    }

    method UpdateAmmConfig(param: nat, value: u64, key: RemainingKey) returns (r: Result<()>)
      modifies this
      ensures match Update(old(Rates()), param, value, key)
              case Success(rates) => r.Success? && Rates() == rates
              case Failure(e) => r == Failure(e) && Rates() == old(Rates())
    {
      match param {
        case 0 => r := UpdateTradeFeeRate(value);
        case 1 => r := UpdateProtocolFeeRate(value);
        case 2 => r := UpdateFundFeeRate(value);
        case 7 => r := UpdateCreatorFeeRate(value);
        case 5 => r := Success(());
        case 6 => r := Success(());
        case _ => r := if SetsKey(param) then RequiredKey(key) else Failure(InvalidInput);
      }
    }

    method UpdateProtocolFeeRate(rate: u64) returns (r: Result<()>)
      modifies this
      ensures Update(old(Rates()), 1, rate, NoKey) == if r.Success? then Success(Rates()) else Failure(r.error)
      ensures r.Failure? ==> Rates() == old(Rates())
    {
      var _ :- Require(rate <= FEE_RATE_DENOMINATOR, Panicked);
      var sum :- Unwrap(Plus64(rate, fundFeeRate));
      var _ :- Require(sum <= FEE_RATE_DENOMINATOR, Panicked);
      protocolFeeRate := rate;
      return Success(());
    }

    method UpdateTradeFeeRate(rate: u64) returns (r: Result<()>)
      modifies this
      ensures Update(old(Rates()), 0, rate, NoKey) == if r.Success? then Success(Rates()) else Failure(r.error)
      ensures r.Failure? ==> Rates() == old(Rates())
    {
      var sum :- Unwrap(Plus64(rate, creatorFeeRate));
      var _ :- Require(sum < FEE_RATE_DENOMINATOR, Panicked);
      tradeFeeRate := rate;
      return Success(());
    }

    method UpdateFundFeeRate(rate: u64) returns (r: Result<()>)
      modifies this
      ensures Update(old(Rates()), 2, rate, NoKey) == if r.Success? then Success(Rates()) else Failure(r.error)
      ensures r.Failure? ==> Rates() == old(Rates())
    {
      var _ :- Require(rate <= FEE_RATE_DENOMINATOR, Panicked);
      var sum :- Unwrap(Plus64(rate, protocolFeeRate));
      var _ :- Require(sum <= FEE_RATE_DENOMINATOR, Panicked);
      fundFeeRate := rate;
      return Success(());
    }

    method UpdateCreatorFeeRate(rate: u64) returns (r: Result<()>)
      modifies this
      ensures Update(old(Rates()), 7, rate, NoKey) == if r.Success? then Success(Rates()) else Failure(r.error)
      ensures r.Failure? ==> Rates() == old(Rates())
    {
      var sum :- Unwrap(Plus64(rate, tradeFeeRate));
      var _ :- Require(sum < FEE_RATE_DENOMINATOR, Panicked);
      creatorFeeRate := rate;
      return Success(());
    }
  }
}
