/** The quotes of programs/cp-swap/src/curve/calculator.rs. */
module Calculator {
  import opened Machine
  import opened Fees
  import opened ConstantProduct

  datatype FeeRates = FeeRates(trade: u64, creator: u64, protocol: u64, fund: u64) {
    /** What the configuration instructions enforce. */
    predicate Valid() {
      trade + creator < FEE_RATE_DENOMINATOR && protocol + fund <= FEE_RATE_DENOMINATOR
    }
  }

  datatype SwapResult = SwapResult(
    newInputVault: u128,
    newOutputVault: u128,
    inputAmount: u128,
    outputAmount: u128,
    tradeFee: u128,
    protocolFee: u128,
    fundFee: u128,
    creatorFee: u128
  )

  /** An amount between a fee and the curve, with the fees on its side. */
  datatype Charge = Charge(amount: u128, tradeFee: u128, creatorFee: u128)

  function ChargeInput(inputAmount: u128, rates: FeeRates, creatorFeeOnInput: bool): Checked<Charge> {
    if creatorFeeOnInput then
      var rate :- Plus64(rates.trade, rates.creator);
      var totalFee :- TradingFee(inputAmount, rate);
      var creatorFee :- SplitCreatorFee(totalFee, rates.trade, rates.creator);
      var tradeFee :- Minus(totalFee, creatorFee);
      var amount :- CheckedSub(inputAmount, totalFee);
      Some(Charge(amount, tradeFee, creatorFee))
    else
      var tradeFee :- TradingFee(inputAmount, rates.trade);
      var amount :- CheckedSub(inputAmount, tradeFee);
      Some(Charge(amount, tradeFee, 0))
  }

  function SwapBaseInput(inputAmount: u128, inputVault: u128, outputVault: u128, rates: FeeRates,
                         creatorFeeOnInput: bool)
    : Checked<SwapResult>
  {
    var charge :- ChargeInput(inputAmount, rates, creatorFeeOnInput);
    var protocolFee :- ProtocolFee(charge.tradeFee, rates.protocol);
    var fundFee :- FundFee(charge.tradeFee, rates.fund);
    var swapped :- SwapBaseInputWithoutFees(charge.amount, inputVault, outputVault);
    var creatorFee :- if creatorFeeOnInput then Some(charge.creatorFee) else CreatorFee(swapped, rates.creator);
    var outputAmount :- if creatorFeeOnInput then Some(swapped) else CheckedSub(swapped, creatorFee);
    var newInputVault :- CheckedAdd(inputVault, charge.amount);
    var newOutputVault :- CheckedSub(outputVault, swapped);
    Some(SwapResult(newInputVault, newOutputVault, inputAmount, outputAmount,
                    charge.tradeFee, protocolFee, fundFee, creatorFee))
  }

  function GrossOutput(outputAmount: u128, rates: FeeRates, creatorFeeOnInput: bool): Checked<Charge> {
    if creatorFeeOnInput then Some(Charge(outputAmount, 0, 0))
    else
      var withFee :- PreFeeAmount(outputAmount, rates.creator);
      var creatorFee :- Minus(withFee, outputAmount);
      Some(Charge(withFee, 0, creatorFee))
  }

  function GrossInput(swapped: u128, rates: FeeRates, creatorFeeOnInput: bool): Checked<Charge> {
    if creatorFeeOnInput then
      var rate :- Plus64(rates.trade, rates.creator);
      var withFee :- PreFeeAmount(swapped, rate).Unwrap();
      var totalFee :- Minus(withFee, swapped);
      var creatorFee :- SplitCreatorFee(totalFee, rates.trade, rates.creator);
      var tradeFee :- Minus(totalFee, creatorFee);
      Some(Charge(withFee, tradeFee, creatorFee))
    else
      var withFee :- PreFeeAmount(swapped, rates.trade).Unwrap();
      var tradeFee :- Minus(withFee, swapped);
      Some(Charge(withFee, tradeFee, 0))
  }

  function SwapBaseOutput(outputAmount: u128, inputVault: u128, outputVault: u128, rates: FeeRates,
                          creatorFeeOnInput: bool)
    : Checked<SwapResult>
  {
    var gross :- GrossOutput(outputAmount, rates, creatorFeeOnInput);
    var swapped :- SwapBaseOutputWithoutFees(gross.amount, inputVault, outputVault);
    var input :- GrossInput(swapped, rates, creatorFeeOnInput);
    var protocolFee :- ProtocolFee(input.tradeFee, rates.protocol);
    var fundFee :- FundFee(input.tradeFee, rates.fund);
    var newInputVault :- CheckedAdd(inputVault, swapped);
    var newOutputVault :- CheckedSub(outputVault, gross.amount);
    Some(SwapResult(newInputVault, newOutputVault, input.amount, outputAmount,
                    input.tradeFee, protocolFee, fundFee,
                    if creatorFeeOnInput then input.creatorFee else gross.creatorFee))
  }

  // ----- Closed forms -----

  /** The rate charged on the input side. */
  function InputRate(rates: FeeRates, creatorFeeOnInput: bool): nat {
    if creatorFeeOnInput then rates.trade + rates.creator else rates.trade
  }

  /** The rate charged on the output side. */
  function OutputRate(rates: FeeRates, creatorFeeOnInput: bool): nat {
    if creatorFeeOnInput then 0 else rates.creator
  }

  /** A creator fee on the input cannot be split when both rates are zero. */
  predicate Splittable(rates: FeeRates, creatorFeeOnInput: bool) {
    creatorFeeOnInput ==> rates.trade + rates.creator > 0
  }

  /** What every successful quote says about its fees, given the gross input and the output swapped. */
  predicate FeesMatch(q: SwapResult, rates: FeeRates, creatorFeeOnInput: bool, swapped: nat)
    requires rates.Valid() && Splittable(rates, creatorFeeOnInput)
  {
    var total := q.inputAmount - Net(q.inputAmount, InputRate(rates, creatorFeeOnInput));
    && total >= 0
    && q.creatorFee == (if creatorFeeOnInput then total * rates.creator / (rates.trade + rates.creator)
                        else swapped - q.outputAmount)
    && q.tradeFee == total - (if creatorFeeOnInput then q.creatorFee else 0)
    && q.protocolFee == q.tradeFee * rates.protocol / FEE_RATE_DENOMINATOR
    && q.fundFee == q.tradeFee * rates.fund / FEE_RATE_DENOMINATOR
    && q.protocolFee + q.fundFee <= q.tradeFee <= total
  }

  lemma ChargeOnInput(i: u128, rates: FeeRates)
    requires i <= U64_MAX && rates.Valid()
    ensures !Splittable(rates, true) ==> ChargeInput(i, rates, true) == None
    ensures Splittable(rates, true) ==>
              var total := i - Net(i, rates.trade + rates.creator);
              && 0 <= total <= i
              && var c := total * rates.creator / (rates.trade + rates.creator);
                 0 <= c <= total && ChargeInput(i, rates, true) == Some(Charge(i - total, total - c, c))
  {
    hide TradingFee, SplitCreatorFee, Net;
    NetBounds(i, rates.trade + rates.creator);
    TradingFeeValue(i, rates.trade + rates.creator);
    SplitCreatorFeeValue(i - Net(i, rates.trade + rates.creator), rates.trade, rates.creator);
  }

  lemma ChargeOnOutput(i: u128, rates: FeeRates)
    requires i <= U64_MAX && rates.Valid()
    ensures 0 <= Net(i, rates.trade) <= i
    ensures ChargeInput(i, rates, false) == Some(Charge(Net(i, rates.trade), i - Net(i, rates.trade), 0))
  {
    NetBounds(i, rates.trade);
    TradingFeeValue(i, rates.trade);
  }

  /** The exact-in quote in closed form: it never aborts, and is refused only when the creator
      fee cannot be split. */
  lemma SwapBaseInputValue(i: u128, x: u128, y: u128, rates: FeeRates, onInput: bool)
    requires i <= U64_MAX && 0 < x <= U64_MAX && 0 < y <= U64_MAX && rates.Valid()
    ensures !Splittable(rates, onInput) ==> SwapBaseInput(i, x, y, rates, onInput) == None
    ensures Splittable(rates, onInput) ==>
              && SwapBaseInput(i, x, y, rates, onInput).Some?
              && var q := SwapBaseInput(i, x, y, rates, onInput).value;
                 var net := Net(i, InputRate(rates, onInput));
                 && 0 <= net <= i
                 && var out := CurveOut(net, x, y);
                    && out < y
                    && q.newInputVault == x + net
                    && q.newOutputVault == y - out
                    && q.inputAmount == i
                    && q.outputAmount == Net(out, OutputRate(rates, onInput))
                    && q.outputAmount <= out
                    && FeesMatch(q, rates, onInput, out)
  {
    if onInput { ChargeOnInput(i, rates); } else { ChargeOnOutput(i, rates); }
    if Splittable(rates, onInput) {
      var net := Net(i, InputRate(rates, onInput));
      var total := i - net;
      var charge := ChargeInput(i, rates, onInput).value;
      ShareOfFee(charge.tradeFee, rates.protocol);
      ShareOfFee(charge.tradeFee, rates.fund);
      SharesFit(charge.tradeFee, rates.protocol, rates.fund);
      SwapBaseInputWithoutFeesValue(net, x, y);
      CurveOutBounds(net, x, y);
      var out := CurveOut(net, x, y);
      TradingFeeValue(out, rates.creator);
      NetBounds(out, OutputRate(rates, onInput));
    }
  }

  lemma GrossInputValue(swapped: u128, rates: FeeRates, onInput: bool)
    requires rates.Valid()
    ensures var rate := InputRate(rates, onInput);
            var r := GrossInput(swapped, rates, onInput);
            && (!Splittable(rates, onInput) ==> !r.Some?)
            && (r.Some? ==> r.value.amount == Gross(swapped, rate))
            && (Splittable(rates, onInput) && Gross(swapped, rate) <= U64_MAX ==>
                  var total := Gross(swapped, rate) - swapped;
                  && total >= 0
                  && var c := if onInput then total * rates.creator / (rates.trade + rates.creator) else 0;
                     0 <= c <= total && r == Some(Charge(Gross(swapped, rate), total - c, c)))
  {
    var rate := InputRate(rates, onInput);
    PreFeeAmountValue(swapped, rate);
    GrossBounds(swapped, rate);
    if onInput {
      var g := PreFeeAmount(swapped, rate);
      if g.Some? && !Splittable(rates, onInput) {
        SplitCreatorFeeValue(0, rates.trade, rates.creator);
      }
      if Gross(swapped, rate) <= U64_MAX {
        SplitCreatorFeeValue(Gross(swapped, rate) - swapped, rates.trade, rates.creator);
      }
    }
  }

  lemma GrossOutputValue(o: u128, rates: FeeRates, onInput: bool)
    requires o <= U64_MAX && rates.Valid()
    ensures var a := Gross(o, OutputRate(rates, onInput));
            && o <= a <= U128_MAX
            && GrossOutput(o, rates, onInput) == Some(Charge(a, 0, a - o))
  {
    GrossBounds(o, OutputRate(rates, onInput));
    PreFeeAmountValue(o, OutputRate(rates, onInput));
  }

  /** The exact-out quote in closed form. It aborts when the reserve cannot pay, is refused when
      the creator fee cannot be split, and otherwise answers whenever the input is a u64. */
  lemma SwapBaseOutputValue(o: u128, x: u128, y: u128, rates: FeeRates, onInput: bool)
    requires o <= U64_MAX && 0 < x <= U64_MAX && 0 < y <= U64_MAX && rates.Valid()
    ensures var a := Gross(o, OutputRate(rates, onInput));
            var r := SwapBaseOutput(o, x, y, rates, onInput);
            && (a >= y ==> r == Panic)
            && (!Splittable(rates, onInput) ==> !r.Some?)
            && (r.Some? ==>
                  && a < y
                  && var q := r.value;
                     && q.inputAmount == Gross(CurveIn(a, x, y), InputRate(rates, onInput))
                     && q.newInputVault == x + CurveIn(a, x, y)
                     && q.newOutputVault == y - a
                     && q.outputAmount == o)
            && (a < y && Splittable(rates, onInput) && Gross(CurveIn(a, x, y), InputRate(rates, onInput)) <= U64_MAX ==>
                  r.Some? && FeesMatch(r.value, rates, onInput, a))
  {
    var a := Gross(o, OutputRate(rates, onInput));
    GrossOutputValue(o, rates, onInput);
    SwapBaseOutputWithoutFeesValue(a, x, y);
    if a < y {
      var swapped := SwapBaseOutputWithoutFees(a, x, y).value;
      var rate := InputRate(rates, onInput);
      GrossInputValue(swapped, rates, onInput);
      GrossBounds(swapped, rate);
      if Splittable(rates, onInput) && Gross(swapped, rate) <= U64_MAX {
        GrossUpIsExact(swapped, rate);
        var input := GrossInput(swapped, rates, onInput).value;
        ShareOfFee(input.tradeFee, rates.protocol);
        ShareOfFee(input.tradeFee, rates.fund);
        SharesFit(input.tradeFee, rates.protocol, rates.fund);
      }
    }
  }
}
