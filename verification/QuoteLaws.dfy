/** Laws that relate whole quotes to one another: exact-in against exact-out, one swap against
    many, quoted reserves against the reserves really left behind. */
module QuoteLaws {
  import opened Machine
  import opened Rounding
  import opened Fees
  import opened ConstantProduct
  import opened Calculator

  /** Paying `i` in an exact-in swap yields at least `o`. */
  predicate Reaches(i: u64, o: u64, x: u64, y: u64, rates: FeeRates, onInput: bool) {
    var r := SwapBaseInput(i, x, y, rates, onInput);
    r.Some? && o <= r.value.outputAmount
  }

  lemma LeastInput(i: nat, o: nat, x: nat, y: nat, inRate: nat, outRate: nat)
    requires x > 0 && y > 0 && inRate < FEE_RATE_DENOMINATOR && outRate < FEE_RATE_DENOMINATOR
    ensures 0 <= Net(i, inRate)
    ensures var a := Gross(o, outRate);
            o <= Net(CurveOut(Net(i, inRate), x, y), outRate)
            <==> a < y && Gross(CurveIn(a, x, y), inRate) <= i
  {
    NetBounds(i, inRate);
    var net := Net(i, inRate);
    var out := CurveOut(net, x, y);
    var a := Gross(o, outRate);
    NetAdjoint(out, outRate, o);
    GrossAdjoint(o, outRate, out);
    CurveOutBounds(net, x, y);
    if a < y {
      var p := CurveIn(a, x, y);
      CurveOutAdjoint(net, x, y, a);
      CurveInAdjoint(a, x, y, net);
      NetAdjoint(i, inRate, p);
      GrossAdjoint(p, inRate, i);
    }
  }

  /** Exact-in and exact-out are adjoint: an input reaches an output precisely when it is at least
      the input exact-out quotes. So that quote is the least sufficient input, and when there is no
      quote, or it is no u64, no input reaches the output at all. */
  lemma ExactInExactOutAdjoint(i: u64, o: u64, x: u64, y: u64, rates: FeeRates, onInput: bool)
    requires x > 0 && y > 0 && rates.Valid()
    ensures Reaches(i, o, x, y, rates, onInput) <==>
            var r := SwapBaseOutput(o, x, y, rates, onInput); r.Some? && r.value.inputAmount <= i
  {
    LeastInput(i, o, x, y, InputRate(rates, onInput), OutputRate(rates, onInput));
    SwapBaseInputValue(i, x, y, rates, onInput);
    SwapBaseOutputValue(o, x, y, rates, onInput);
  }

  /** Exact-out charges what an exact-in swap of the same gross input charges, and leaves the same
      input reserve; only the output, and a creator fee taken from it, can round up. */
  lemma ExactOutChargesLikeExactIn(o: u64, x: u64, y: u64, rates: FeeRates, onInput: bool)
    requires x > 0 && y > 0 && rates.Valid()
    requires SwapBaseOutput(o, x, y, rates, onInput).Some?
    requires SwapBaseOutput(o, x, y, rates, onInput).value.inputAmount <= U64_MAX
    ensures var q := SwapBaseOutput(o, x, y, rates, onInput).value;
            var r := SwapBaseInput(q.inputAmount, x, y, rates, onInput);
            && r.Some?
            && r.value.tradeFee == q.tradeFee
            && r.value.protocolFee == q.protocolFee
            && r.value.fundFee == q.fundFee
            && r.value.newInputVault == q.newInputVault
            && r.value.newOutputVault <= q.newOutputVault
            && r.value.outputAmount >= o
            && (onInput ==> r.value.creatorFee == q.creatorFee)
            && (!onInput ==> r.value.creatorFee >= q.creatorFee)
  {
    hide SwapBaseInput, SwapBaseOutput, Net, Gross, CurveIn, CurveOut;
    SwapBaseOutputValue(o, x, y, rates, onInput);
    var q := SwapBaseOutput(o, x, y, rates, onInput).value;
    SwapBaseInputValue(q.inputAmount, x, y, rates, onInput);
    ExactInExactOutAdjoint(q.inputAmount, o, x, y, rates, onInput);
    var a := Gross(o, OutputRate(rates, onInput));
    var p := CurveIn(a, x, y);
    GrossUpIsExact(p, InputRate(rates, onInput));
    GrossUpIsExact(o, OutputRate(rates, onInput));
    CurveInAdjoint(a, x, y, p);
    CurveOutAdjoint(p, x, y, a);
    FeeMonotone(a, CurveOut(p, x, y), OutputRate(rates, onInput));
  }

  lemma FeeMonotone(a: nat, b: nat, rate: nat)
    requires a <= b
    ensures a - Net(a, rate) <= b - Net(b, rate)
  {
    MulMono(a, b, rate);
    CeilAdjoint(b * rate, FEE_RATE_DENOMINATOR, b - Net(b, rate));
    CeilAdjoint(a * rate, FEE_RATE_DENOMINATOR, b - Net(b, rate));
  }

  // ----- Reserves -----

  /** The input reserve really left after a swap: what the pool keeps of the trade fee stays in it. */
  function RealInputReserve(q: SwapResult): int {
    q.newInputVault + q.tradeFee - q.protocolFee - q.fundFee
  }

  /** The instruction's guard, with its own checked product. */
  predicate GuardPasses(q: SwapResult, x: u64, y: u64) {
    var after := CheckedMul(q.newInputVault, q.newOutputVault);
    after.Some? && x * y <= after.value
  }

  /** Every unit of the quoted amounts is accounted for: the input is what the curve keeps plus the
      fees charged on it, the output is what leaves the curve less a fee charged on that. */
  predicate Balanced(q: SwapResult, x: int, y: int, onInput: bool) {
    && x + q.inputAmount == q.newInputVault + q.tradeFee + (if onInput then q.creatorFee else 0)
    && y - q.newOutputVault == q.outputAmount + (if onInput then 0 else q.creatorFee)
    && q.protocolFee + q.fundFee <= q.tradeFee <= q.inputAmount
  }

  lemma ExactInBalanced(i: u64, x: u64, y: u64, rates: FeeRates, onInput: bool)
    requires x > 0 && y > 0 && rates.Valid()
    requires SwapBaseInput(i, x, y, rates, onInput).Some?
    ensures Balanced(SwapBaseInput(i, x, y, rates, onInput).value, x, y, onInput)
    ensures SwapBaseInput(i, x, y, rates, onInput).value.inputAmount == i
  {
    hide SwapBaseInput, Net, CurveOut;
    SwapBaseInputValue(i, x, y, rates, onInput);
    NetBounds(i, InputRate(rates, onInput));
    NetBounds(CurveOut(Net(i, InputRate(rates, onInput)), x, y), 0);
  }

  lemma ExactOutBalanced(o: u64, x: u64, y: u64, rates: FeeRates, onInput: bool)
    requires x > 0 && y > 0 && rates.Valid()
    requires SwapBaseOutput(o, x, y, rates, onInput).Some?
    requires SwapBaseOutput(o, x, y, rates, onInput).value.inputAmount <= U64_MAX
    ensures Balanced(SwapBaseOutput(o, x, y, rates, onInput).value, x, y, onInput)
    ensures SwapBaseOutput(o, x, y, rates, onInput).value.outputAmount == o
  {
    hide SwapBaseOutput, Net, CurveIn, Gross;
    SwapBaseOutputValue(o, x, y, rates, onInput);
    var a := Gross(o, OutputRate(rates, onInput));
    GrossUpIsExact(CurveIn(a, x, y), InputRate(rates, onInput));
    GrossBounds(CurveIn(a, x, y), InputRate(rates, onInput));
    GrossBounds(o, 0);
  }

  /** Neither instruction's product guard ever rejects an exact-in quote, and the product of the
      real reserves is larger still. */
  lemma GuardAcceptsExactIn(i: u64, x: u64, y: u64, rates: FeeRates, onInput: bool)
    requires x > 0 && y > 0 && rates.Valid()
    requires SwapBaseInput(i, x, y, rates, onInput).Some?
    ensures var q := SwapBaseInput(i, x, y, rates, onInput).value;
            && GuardPasses(q, x, y)
            && q.newInputVault <= RealInputReserve(q) <= x + i
            && 0 < q.newOutputVault
            && q.newInputVault * q.newOutputVault <= RealInputReserve(q) * q.newOutputVault
  {
    SwapBaseInputValue(i, x, y, rates, onInput);
    var q := SwapBaseInput(i, x, y, rates, onInput).value;
    var net := Net(i, InputRate(rates, onInput));
    var out := CurveOut(net, x, y);
    CurveOutAdjoint(net, x, y, out);
    ProductKept(net, x, y, out);
    ProductAfterOutFits(net, x, y);
    MulMono(q.newInputVault, RealInputReserve(q), q.newOutputVault);
  }

  lemma GuardAcceptsExactOut(o: u64, x: u64, y: u64, rates: FeeRates, onInput: bool)
    requires x > 0 && y > 0 && rates.Valid()
    requires SwapBaseOutput(o, x, y, rates, onInput).Some?
    ensures var q := SwapBaseOutput(o, x, y, rates, onInput).value;
            && GuardPasses(q, x, y)
            && 0 < q.newOutputVault
            && (q.inputAmount <= U64_MAX ==>
                  && q.newInputVault <= RealInputReserve(q) <= x + q.inputAmount
                  && q.newInputVault * q.newOutputVault <= RealInputReserve(q) * q.newOutputVault)
  {
    SwapBaseOutputValue(o, x, y, rates, onInput);
    var q := SwapBaseOutput(o, x, y, rates, onInput).value;
    var a := Gross(o, OutputRate(rates, onInput));
    var p := CurveIn(a, x, y);
    CurveInAdjoint(a, x, y, p);
    ProductKept(p, x, y, a);
    ProductAfterInFits(a, x, y);
    if q.inputAmount <= U64_MAX {
      GrossUpIsExact(p, InputRate(rates, onInput));
      MulMono(q.newInputVault, RealInputReserve(q), q.newOutputVault);
    }
  }

  // ----- Splitting a swap -----

  /** What two consecutive inputs buy from the curve, the reserve between them being at least the
      quoted one, never adds up to more than the output of the joint input. */
  lemma CurveSplit(p1: nat, p2: nat, x: nat, y: nat, x1: nat, a1: nat, a2: nat)
    requires x > 0 && y > 0 && x + p1 <= x1
    requires a1 <= CurveOut(p1, x, y) && a1 <= y
    requires a2 <= CurveOut(p2, x1, y - a1)
    ensures a1 + a2 <= CurveOut(p1 + p2, x, y)
  {
    hide CurveOut;
    var y1 := y - a1;
    var w := x + p1;
    CurveOutAdjoint(p1, x, y, a1);
    CurveOutAdjoint(p2, x1, y1, a2);
    assert a2 * w <= p2 * (y1 - a2) by { MulMono(w, x1, a2); }
    assert x * y <= w * y1 by { ProductKept(p1, x, y, a1); }
    assert w * y1 <= (w + p2) * (y1 - a2) by { ProductKept(p2, w, y1, a2); }
    assert (x + (p1 + p2)) * (y - (a1 + a2)) == (w + p2) * (y1 - a2);
    assert (x + (p1 + p2)) * (y - (a1 + a2)) == x * y - x * (a1 + a2) + (p1 + p2) * (y - (a1 + a2));
    CurveOutAdjoint(p1 + p2, x, y, a1 + a2);
  }

  lemma CurveOutMonotone(p: nat, p': nat, x: nat, y: nat)
    requires x > 0 && y > 0 && p <= p'
    ensures CurveOut(p, x, y) <= CurveOut(p', x, y)
  {
    var a := CurveOut(p, x, y);
    CurveOutBounds(p, x, y);
    CurveOutAdjoint(p, x, y, a);
    CurveOutAdjoint(p', x, y, a);
    MulMono(p, p', y - a);
  }

  lemma QuoteSplit(i: nat, j: nat, x: nat, y: nat, x1: nat, inRate: nat, outRate: nat)
    requires x > 0 && y > 0 && inRate < FEE_RATE_DENOMINATOR && outRate < FEE_RATE_DENOMINATOR
    requires 0 <= Net(i, inRate) && 0 <= Net(j, inRate) && 0 <= Net(i + j, inRate)
    requires x + Net(i, inRate) <= x1
    requires CurveOut(Net(i, inRate), x, y) < y
    ensures var a1 := CurveOut(Net(i, inRate), x, y);
            Net(a1, outRate) + Net(CurveOut(Net(j, inRate), x1, y - a1), outRate)
            <= Net(CurveOut(Net(i + j, inRate), x, y), outRate)
  {
    hide *;
    var p1, p2, p := Net(i, inRate), Net(j, inRate), Net(i + j, inRate);
    NetSuperadditive(i, j, inRate);
    var a1 := CurveOut(p1, x, y);
    var a2 := CurveOut(p2, x1, y - a1);
    CurveSplit(p1, p2, x, y, x1, a1, a2);
    CurveOutMonotone(p1 + p2, p, x, y);
    NetSuperadditive(a1, a2, outRate);
    NetMonotone(a1 + a2, CurveOut(p, x, y), outRate);
  }

  /** Two swaps in a row, the second on the reserves really left by the first, pay at most what
      one swap of the summed input pays. */
  lemma SplitInTwo(i: u64, j: u64, x: u64, y: u64, rates: FeeRates, onInput: bool)
    requires x > 0 && y > 0 && rates.Valid() && i + j <= U64_MAX
    requires SwapBaseInput(i, x, y, rates, onInput).Some?
    ensures var q := SwapBaseInput(i, x, y, rates, onInput).value;
            && 0 < q.newOutputVault <= U64_MAX
            && (0 < RealInputReserve(q) <= U64_MAX ==>
                  var q2 := SwapBaseInput(j, RealInputReserve(q), q.newOutputVault, rates, onInput);
                  var all := SwapBaseInput(i + j, x, y, rates, onInput);
                  q2.Some? && all.Some? && q.outputAmount + q2.value.outputAmount <= all.value.outputAmount)
  {
    hide SwapBaseInput, Net, CurveOut, FeesMatch, RealInputReserve;
    SwapBaseInputValue(i, x, y, rates, onInput);
    GuardAcceptsExactIn(i, x, y, rates, onInput);
    var q := SwapBaseInput(i, x, y, rates, onInput).value;
    var x1, y1 := RealInputReserve(q), q.newOutputVault;
    if x1 <= U64_MAX {
      SwapBaseInputValue(j, x1, y1, rates, onInput);
      SwapBaseInputValue(i + j, x, y, rates, onInput);
      QuoteSplit(i, j, x, y, x1, InputRate(rates, onInput), OutputRate(rates, onInput));
    }
  }

  function Sum(inputs: seq<u64>): nat {
    if inputs == [] then 0 else inputs[0] + Sum(inputs[1..])
  }

  /** Total output of exact-in swaps made one after another, each on the reserves the previous one
      really left; `None` once a swap is refused or a reserve is no u64. */
  function ChainOutput(inputs: seq<u64>, x: u64, y: u64, rates: FeeRates, onInput: bool): Checked<nat> {
    if inputs == [] then Some(0)
    else
      var q :- SwapBaseInput(inputs[0], x, y, rates, onInput);
      if 0 <= RealInputReserve(q) <= U64_MAX && q.newOutputVault <= U64_MAX then
        var rest :- ChainOutput(inputs[1..], RealInputReserve(q), q.newOutputVault, rates, onInput);
        Some(q.outputAmount + rest)
      else
        None
  }

  lemma ChainCons(c: u64, rest: seq<u64>, x: u64, y: u64, rates: FeeRates, onInput: bool, x1: u64, y1: u64)
    requires SwapBaseInput(c, x, y, rates, onInput).Some?
    requires x1 == RealInputReserve(SwapBaseInput(c, x, y, rates, onInput).value)
    requires y1 == SwapBaseInput(c, x, y, rates, onInput).value.newOutputVault
    requires ChainOutput(rest, x1, y1, rates, onInput).Some?
    ensures Sum([c] + rest) == c + Sum(rest)
    ensures ChainOutput([c] + rest, x, y, rates, onInput) ==
            Some(SwapBaseInput(c, x, y, rates, onInput).value.outputAmount
                 + ChainOutput(rest, x1, y1, rates, onInput).value)
  {
    hide SwapBaseInput, RealInputReserve;
    assert ([c] + rest)[1..] == rest;
  }

  /** Splitting never helps: a list of swaps in one direction pays at most one swap of their sum. */
  lemma {:induction false} SplittingNeverHelps(inputs: seq<u64>, x: u64, y: u64, rates: FeeRates, onInput: bool)
    requires x > 0 && y > 0 && rates.Valid()
    requires inputs != [] && Sum(inputs) <= U64_MAX
    requires ChainOutput(inputs, x, y, rates, onInput).Some?
    ensures var all := SwapBaseInput(Sum(inputs), x, y, rates, onInput);
            all.Some? && ChainOutput(inputs, x, y, rates, onInput).value <= all.value.outputAmount
  {
    hide SwapBaseInput, RealInputReserve;
    var q := SwapBaseInput(inputs[0], x, y, rates, onInput).value;
    GuardAcceptsExactIn(inputs[0], x, y, rates, onInput);
    var rest := inputs[1..];
    if rest == [] {
      assert Sum(inputs) == inputs[0];
    } else {
      SplittingNeverHelps(rest, RealInputReserve(q), q.newOutputVault, rates, onInput);
      SplitInTwo(inputs[0], Sum(rest), x, y, rates, onInput);
    }
  }

  // ----- Splitting an exact-out swap -----

  /** An input of `i` buys `o`, over the naturals. */
  predicate Suffices(i: nat, o: nat, x: nat, y: nat, inRate: nat, outRate: nat)
    requires x > 0
  {
    0 <= Net(i, inRate) && o <= Net(CurveOut(Net(i, inRate), x, y), outRate)
  }

  /** When an exact-out swap of `o` leaves at least the quoted input reserve, and `j` buys `n` there,
      the input of the swap and `j` together buy both at the start. */
  lemma CostSplit(o: nat, n: nat, j: nat, x: nat, y: nat, x1: nat, inRate: nat, outRate: nat)
    requires x > 0 && y > 0 && inRate < FEE_RATE_DENOMINATOR && outRate < FEE_RATE_DENOMINATOR
    requires Gross(o, outRate) < y
    requires x + CurveIn(Gross(o, outRate), x, y) <= x1
    requires Suffices(j, n, x1, y - Gross(o, outRate), inRate, outRate)
    ensures Suffices(Gross(CurveIn(Gross(o, outRate), x, y), inRate) + j, o + n, x, y, inRate, outRate)
  {
    hide Net, Gross, CurveIn, CurveOut;
    var a1, a2 := Gross(o, outRate), Gross(n, outRate);
    var p1, p2 := CurveIn(a1, x, y), Net(j, inRate);
    var i := Gross(p1, inRate);
    GrossUpIsExact(p1, inRate);
    GrossUpIsExact(o, outRate);
    GrossUpIsExact(n, outRate);
    var out := CurveOut(p2, x1, y - a1);
    NetAdjoint(out, outRate, n);
    GrossAdjoint(n, outRate, out);
    CurveInAdjoint(a1, x, y, p1);
    CurveOutAdjoint(p1, x, y, a1);
    CurveSplit(p1, p2, x, y, x1, a1, a2);
    NetSuperadditive(i, j, inRate);
    CurveOutMonotone(p1 + p2, Net(i + j, inRate), x, y);
    NetSuperadditive(a1, a2, outRate);
    NetMonotone(a1 + a2, CurveOut(Net(i + j, inRate), x, y), outRate);
  }

  /** Total input of exact-out swaps made one after another, each on the reserves the previous one
      really left; `None` once a swap is refused or an amount is no u64. */
  function ChainCost(outputs: seq<u64>, x: u64, y: u64, rates: FeeRates, onInput: bool): Checked<nat> {
    if outputs == [] then Some(0)
    else
      var q :- SwapBaseOutput(outputs[0], x, y, rates, onInput);
      if q.inputAmount <= U64_MAX && 0 <= RealInputReserve(q) <= U64_MAX && q.newOutputVault <= U64_MAX then
        var rest :- ChainCost(outputs[1..], RealInputReserve(q), q.newOutputVault, rates, onInput);
        Some(q.inputAmount + rest)
      else
        None
  }

  lemma ChainCostCons(c: u64, rest: seq<u64>, x: u64, y: u64, rates: FeeRates, onInput: bool, x1: u64, y1: u64)
    requires SwapBaseOutput(c, x, y, rates, onInput).Some?
    requires SwapBaseOutput(c, x, y, rates, onInput).value.inputAmount <= U64_MAX
    requires x1 == RealInputReserve(SwapBaseOutput(c, x, y, rates, onInput).value)
    requires y1 == SwapBaseOutput(c, x, y, rates, onInput).value.newOutputVault
    requires ChainCost(rest, x1, y1, rates, onInput).Some?
    ensures Sum([c] + rest) == c + Sum(rest)
    ensures ChainCost([c] + rest, x, y, rates, onInput) ==
            Some(SwapBaseOutput(c, x, y, rates, onInput).value.inputAmount
                 + ChainCost(rest, x1, y1, rates, onInput).value)
  {
    hide SwapBaseOutput, RealInputReserve;
    assert ([c] + rest)[1..] == rest;
  }

  lemma NothingSuffices(x: nat, y: nat, inRate: nat, outRate: nat)
    requires x > 0 && y > 0 && inRate < FEE_RATE_DENOMINATOR && outRate < FEE_RATE_DENOMINATOR
    ensures Suffices(0, 0, x, y, inRate, outRate)
  {
    hide Net, CurveOut;
    NetBounds(0, inRate);
    NetBounds(CurveOut(0, x, y), outRate);
  }

  /** The total input of a chain of exact-out swaps buys their summed output in one swap. */
  lemma {:induction false} ChainCostSuffices(outputs: seq<u64>, x: u64, y: u64, rates: FeeRates, onInput: bool)
    requires x > 0 && y > 0 && rates.Valid()
    requires ChainCost(outputs, x, y, rates, onInput).Some?
    ensures Suffices(ChainCost(outputs, x, y, rates, onInput).value, Sum(outputs), x, y,
                     InputRate(rates, onInput), OutputRate(rates, onInput))
  {
    var inRate, outRate := InputRate(rates, onInput), OutputRate(rates, onInput);
    if outputs == [] {
      NothingSuffices(x, y, inRate, outRate);
    } else {
      hide SwapBaseOutput, Suffices, Gross, CurveIn, Net, CurveOut, FeesMatch, RealInputReserve, GuardPasses;
      var o, rest := outputs[0], outputs[1..];
      var q := SwapBaseOutput(o, x, y, rates, onInput).value;
      GuardAcceptsExactOut(o, x, y, rates, onInput);
      SwapBaseOutputValue(o, x, y, rates, onInput);
      ChainCostSuffices(rest, RealInputReserve(q), q.newOutputVault, rates, onInput);
      CostSplit(o, Sum(rest), ChainCost(rest, RealInputReserve(q), q.newOutputVault, rates, onInput).value,
                x, y, RealInputReserve(q), inRate, outRate);
    }
  }

  /** Splitting never saves: exact-out swaps in one direction cost at least one swap of their summed
      output, which has a quote whenever their total is a u64. */
  lemma SplittingNeverSaves(outputs: seq<u64>, x: u64, y: u64, rates: FeeRates, onInput: bool)
    requires x > 0 && y > 0 && rates.Valid()
    requires outputs != [] && ChainCost(outputs, x, y, rates, onInput).Some?
    ensures Sum(outputs) < y
    ensures var cost := ChainCost(outputs, x, y, rates, onInput).value;
            var all := SwapBaseOutput(Sum(outputs), x, y, rates, onInput);
            && (all.Some? ==> all.value.inputAmount <= cost)
            && (cost <= U64_MAX ==> all.Some?)
  {
    hide SwapBaseOutput, Gross, Net, CurveIn, CurveOut;
    var inRate, outRate := InputRate(rates, onInput), OutputRate(rates, onInput);
    var cost, total := ChainCost(outputs, x, y, rates, onInput).value, Sum(outputs);
    ChainCostSuffices(outputs, x, y, rates, onInput);
    LeastInput(cost, total, x, y, inRate, outRate);
    GrossBounds(total, outRate);
    SwapBaseOutputValue(outputs[0], x, y, rates, onInput);
    SwapBaseOutputValue(total, x, y, rates, onInput);
  }
}
