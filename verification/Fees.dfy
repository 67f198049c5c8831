/** The fee formulas of programs/cp-swap/src/curve/fees.rs. */
module Fees {
  import opened Machine
  import opened Rounding

  const FEE_RATE_DENOMINATOR: u64 := 1_000_000

  function CeilFraction(amount: u128, numerator: u128, denominator: u128): Checked<u128> {
    if denominator == 0 then None
    else
      var product :- CheckedMul(amount, numerator);
      var raised :- CheckedAdd(product, denominator);
      var lowered :- CheckedSub(raised, 1);
      CheckedDiv(lowered, denominator)
  }

  function FloorFraction(amount: u128, numerator: u128, denominator: u128): Checked<u128> {
    if denominator == 0 then None
    else
      var product :- CheckedMul(amount, numerator);
      CheckedDiv(product, denominator)
  }

  function TradingFee(amount: u128, rate: u64): Checked<u128> {
    CeilFraction(amount, rate, FEE_RATE_DENOMINATOR)
  }

  function ProtocolFee(tradeFee: u128, rate: u64): Checked<u128> {
    FloorFraction(tradeFee, rate, FEE_RATE_DENOMINATOR)
  }

  function FundFee(tradeFee: u128, rate: u64): Checked<u128> {
    FloorFraction(tradeFee, rate, FEE_RATE_DENOMINATOR)
  }

  function CreatorFee(amount: u128, rate: u64): Checked<u128> {
    CeilFraction(amount, rate, FEE_RATE_DENOMINATOR)
  }

  function SplitCreatorFee(totalFee: u128, tradeRate: u64, creatorRate: u64): Checked<u128> {
    var rates :- Plus64(tradeRate, creatorRate);
    FloorFraction(totalFee, creatorRate, rates)
  }

  function PreFeeAmount(postFee: u128, rate: u64): Checked<u128> {
    if rate == 0 then Some(postFee)
    else
      var numerator :- CheckedMul(postFee, FEE_RATE_DENOMINATOR);
      var denominator :- CheckedSub(FEE_RATE_DENOMINATOR, rate);
      var raised :- CheckedAdd(numerator, denominator);
      var lowered :- CheckedSub(raised, 1);
      CheckedDiv(lowered, denominator)
  }

  // ----- The same quantities over the naturals -----

  /** What is left of `amount` after a fee of `rate` millionths, rounded up, is taken. */
  function Net(amount: nat, rate: nat): (n: int)
  {
    amount - CeilDiv(amount * rate, FEE_RATE_DENOMINATOR)
  }

  /** The gross amount asked for `net` to be left after the fee. */
  function Gross(net: nat, rate: nat): nat
    requires rate < FEE_RATE_DENOMINATOR
  {
    CeilDiv(net * FEE_RATE_DENOMINATOR, FEE_RATE_DENOMINATOR - rate)
  }

  lemma NetAdjoint(amount: nat, rate: nat, p: int)
    ensures p <= Net(amount, rate) <==> p * FEE_RATE_DENOMINATOR <= amount * (FEE_RATE_DENOMINATOR - rate)
  {
    CeilAdjoint(amount * rate, FEE_RATE_DENOMINATOR, amount - p);
    assert amount * (FEE_RATE_DENOMINATOR - rate) == amount * FEE_RATE_DENOMINATOR - amount * rate;
  }

  lemma GrossAdjoint(net: nat, rate: nat, i: int)
    requires rate < FEE_RATE_DENOMINATOR
    ensures Gross(net, rate) <= i <==> net * FEE_RATE_DENOMINATOR <= i * (FEE_RATE_DENOMINATOR - rate)
  {
    CeilAdjoint(net * FEE_RATE_DENOMINATOR, FEE_RATE_DENOMINATOR - rate, i);
  }

  lemma NetBounds(amount: nat, rate: nat)
    requires rate < FEE_RATE_DENOMINATOR
    ensures 0 <= Net(amount, rate) <= amount
    ensures rate == 0 ==> Net(amount, rate) == amount
  {
    NetAdjoint(amount, rate, 0);
    assert 0 <= amount * (FEE_RATE_DENOMINATOR - rate);
    if rate == 0 { assert amount * rate == 0; }
  }

  lemma GrossBounds(net: nat, rate: nat)
    requires rate < FEE_RATE_DENOMINATOR
    ensures net <= Gross(net, rate)
    ensures rate == 0 ==> Gross(net, rate) == net
  {
    var g := Gross(net, rate);
    GrossAdjoint(net, rate, g);
    assert g * (FEE_RATE_DENOMINATOR - rate) <= g * FEE_RATE_DENOMINATOR;
    if rate == 0 { GrossAdjoint(net, rate, net); }
  }

  /** Taking the fee off the grossed-up amount gives back exactly the amount asked for. */
  lemma GrossUpIsExact(net: nat, rate: nat)
    requires rate < FEE_RATE_DENOMINATOR
    ensures Net(Gross(net, rate), rate) == net
  {
    var g: int := Gross(net, rate);
    var d := FEE_RATE_DENOMINATOR - rate;
    GrossAdjoint(net, rate, g);
    GrossAdjoint(net, rate, g - 1);
    assert (g - 1) * d == g * d - d;
    NetAdjoint(g, rate, net);
    NetAdjoint(g, rate, net + 1);
  }

  /** Two fees on two parts are together at least the fee on the whole. */
  lemma NetSuperadditive(a: nat, b: nat, rate: nat)
    requires rate < FEE_RATE_DENOMINATOR
    ensures Net(a, rate) + Net(b, rate) <= Net(a + b, rate)
  {
    var d := FEE_RATE_DENOMINATOR - rate;
    NetAdjoint(a, rate, Net(a, rate));
    NetAdjoint(b, rate, Net(b, rate));
    NetAdjoint(a + b, rate, Net(a, rate) + Net(b, rate));
    assert (a + b) * d == a * d + b * d;
  }

  lemma NetMonotone(a: nat, b: nat, rate: nat)
    requires a <= b && rate < FEE_RATE_DENOMINATOR
    ensures Net(a, rate) <= Net(b, rate)
  {
    NetAdjoint(a, rate, Net(a, rate));
    NetAdjoint(b, rate, Net(a, rate));
    MulMono(a, b, FEE_RATE_DENOMINATOR - rate);
  }

  // ----- The checked formulas meet them -----

  lemma TradingFeeValue(amount: u128, rate: u64)
    requires amount <= U64_MAX && rate < FEE_RATE_DENOMINATOR
    ensures TradingFee(amount, rate) == Some(amount - Net(amount, rate))
    ensures CreatorFee(amount, rate) == TradingFee(amount, rate)
  {
    MulBound(amount, rate, U64_MAX, FEE_RATE_DENOMINATOR);
  }

  /** Exactly which net amounts the checked gross-up can answer. */
  lemma PreFeeAmountValue(net: u128, rate: u64)
    requires rate < FEE_RATE_DENOMINATOR
    ensures PreFeeAmount(net, rate) == None || PreFeeAmount(net, rate) == Some(Gross(net, rate))
    ensures Gross(net, rate) <= U64_MAX ==> PreFeeAmount(net, rate) == Some(Gross(net, rate))
    ensures net <= U64_MAX ==> PreFeeAmount(net, rate) == Some(Gross(net, rate))
  {
    GrossBounds(net, rate);
  }

  lemma ShareOfFee(tradeFee: u128, rate: u64)
    requires tradeFee <= U64_MAX && rate <= FEE_RATE_DENOMINATOR
    ensures ProtocolFee(tradeFee, rate) == Some(tradeFee * rate / FEE_RATE_DENOMINATOR)
    ensures FundFee(tradeFee, rate) == ProtocolFee(tradeFee, rate)
    ensures 0 <= tradeFee * rate / FEE_RATE_DENOMINATOR <= tradeFee
  {
    MulBound(tradeFee, rate, tradeFee, FEE_RATE_DENOMINATOR);
    MulBound(tradeFee, rate, U64_MAX, FEE_RATE_DENOMINATOR);
  }

  /** Protocol and fund shares together never exceed the trade fee they are cut from. */
  lemma SharesFit(tradeFee: nat, protocolRate: nat, fundRate: nat)
    requires protocolRate + fundRate <= FEE_RATE_DENOMINATOR
    ensures tradeFee * protocolRate / FEE_RATE_DENOMINATOR + tradeFee * fundRate / FEE_RATE_DENOMINATOR <= tradeFee
  {
    var p, f := tradeFee * protocolRate, tradeFee * fundRate;
    assert p + f == tradeFee * (protocolRate + fundRate);
    MulMono(protocolRate + fundRate, FEE_RATE_DENOMINATOR, tradeFee);
  }

  /** The creator's cut of a combined fee is defined exactly when some rate is positive, and fits in it. */
  lemma SplitCreatorFeeValue(totalFee: u128, tradeRate: u64, creatorRate: u64)
    requires totalFee <= U64_MAX && tradeRate + creatorRate < FEE_RATE_DENOMINATOR
    ensures SplitCreatorFee(totalFee, tradeRate, creatorRate) ==
            if tradeRate + creatorRate == 0 then None
            else Some(totalFee * creatorRate / (tradeRate + creatorRate))
    ensures tradeRate + creatorRate > 0 ==> 0 <= totalFee * creatorRate / (tradeRate + creatorRate) <= totalFee
  {
    MulBound(totalFee, creatorRate, U64_MAX, FEE_RATE_DENOMINATOR);
    var rates := tradeRate + creatorRate;
    if rates > 0 {
      MulMono(creatorRate, rates, totalFee);
      FloorAdjoint(totalFee * creatorRate, rates, totalFee + 1);
      assert (totalFee + 1) * rates == totalFee * rates + rates;
    }
  }
}
