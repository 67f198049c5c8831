/** The curve of programs/cp-swap/src/curve/constant_product.rs. */
module ConstantProduct {
  import opened Machine
  import opened Rounding

  datatype RoundDirection = Floor | Ceiling

  datatype TradingTokens = TradingTokens(token0: u128, token1: u128)

  function SwapBaseInputWithoutFees(inputAmount: u128, inputVault: u128, outputVault: u128): Checked<u128> {
    var numerator :- CheckedMul(inputAmount, outputVault).Unwrap();
    var denominator :- CheckedAdd(inputVault, inputAmount).Unwrap();
    CheckedDiv(numerator, denominator).Unwrap()
  }

  function SwapBaseOutputWithoutFees(outputAmount: u128, inputVault: u128, outputVault: u128): Checked<u128> {
    var numerator :- CheckedMul(inputVault, outputAmount).Unwrap();
    var denominator :- CheckedSub(outputVault, outputAmount).Unwrap();
    CheckedCeilDiv(numerator, denominator).Unwrap()
  }

  /** One side of an LP conversion; rounding up never turns a zero into a one. */
  function LpShare(lpAmount: u128, lpSupply: u128, vault: u128, round: RoundDirection): Checked<u128> {
    var product :- CheckedMul(lpAmount, vault);
    var share :- CheckedDiv(product, lpSupply);
    if round == Ceiling then
      var remainder :- CheckedRem(product, lpSupply);
      if remainder > 0 && share > 0 then CheckedAdd(share, 1).Unwrap() else Some(share)
    else
      Some(share)
  }

  function LpTokensToTradingTokens(lpAmount: u128, lpSupply: u128, vault0: u128, vault1: u128, round: RoundDirection)
    : Checked<TradingTokens>
  {
    var token0 :- LpShare(lpAmount, lpSupply, vault0, round);
    var token1 :- LpShare(lpAmount, lpSupply, vault1, round);
    Some(TradingTokens(token0, token1))
  }

  // ----- The curve over the naturals -----

  /** Output for `p` in: the floor of p * y / (x + p). */
  function CurveOut(p: nat, x: nat, y: nat): nat
    requires x + p > 0
  {
    p * y / (x + p)
  }

  /** Input for `a` out: the ceiling of x * a / (y - a). */
  function CurveIn(a: nat, x: nat, y: nat): nat
    requires a < y
  {
    CeilDiv(x * a, y - a)
  }

  lemma CurveOutAdjoint(p: nat, x: nat, y: nat, a: int)
    requires x + p > 0
    ensures a <= CurveOut(p, x, y) <==> a * x <= p * (y - a)
  {
    FloorAdjoint(p * y, x + p, a);
    assert a * (x + p) == a * x + p * a;
    assert p * (y - a) == p * y - p * a;
  }

  lemma CurveInAdjoint(a: nat, x: nat, y: nat, p: int)
    requires a < y
    ensures CurveIn(a, x, y) <= p <==> a * x <= p * (y - a)
  {
    CeilAdjoint(x * a, y - a, p);
  }

  lemma CurveOutBounds(p: nat, x: nat, y: nat)
    requires x > 0 && y > 0
    ensures CurveOut(p, x, y) < y
  {
    CurveOutAdjoint(p, x, y, y);
    assert y * x > 0;
  }

  /** The product of the reserves after paying `a` for `p`, when `a` is what the curve allows. */
  lemma ProductKept(p: nat, x: nat, y: nat, a: nat)
    requires a * x <= p * (y - a)
    ensures x * y <= (x + p) * (y - a)
  {
    assert (x + p) * (y - a) == x * y - a * x + p * (y - a);
  }

  /** Rounding adds less than one unit of the denominator, so the new product fits a u128. */
  lemma ProductAfterOutFits(p: u64, x: u64, y: u64)
    requires x > 0
    ensures CurveOut(p, x, y) <= y
    ensures (x + p) * (y - CurveOut(p, x, y)) <= U128_MAX
  {
    var a := CurveOut(p, x, y);
    CurveOutAdjoint(p, x, y, a + 1);
    CurveOutAdjoint(p, x, y, y + 1);
    assert (a + 1) * x == a * x + x;
    assert p * (y - (a + 1)) == p * (y - a) - p;
    assert (x + p) * (y - a) == x * y - a * x + p * (y - a);
    MulU64(x, y);
  }

  lemma ProductAfterInFits(a: u64, x: u64, y: u64)
    requires a < y
    ensures (x + CurveIn(a, x, y)) * (y - a) <= U128_MAX
  {
    var p: int := CurveIn(a, x, y);
    CurveInAdjoint(a, x, y, p - 1);
    assert (p - 1) * (y - a) == p * (y - a) - (y - a);
    assert (x + p) * (y - a) == x * y - a * x + p * (y - a);
    MulU64(x, y);
  }

  lemma SwapBaseInputWithoutFeesValue(p: u128, x: u128, y: u128)
    requires p <= U64_MAX && 0 < x <= U64_MAX && y <= U64_MAX
    ensures SwapBaseInputWithoutFees(p, x, y) == Some(CurveOut(p, x, y))
  {
    MulU64(p, y);
  }

  /** Exactly when the exact-out curve answers within u64 operands, and with what. */
  lemma SwapBaseOutputWithoutFeesValue(a: u128, x: u128, y: u128)
    requires x <= U64_MAX && y <= U64_MAX
    ensures SwapBaseOutputWithoutFees(a, x, y) == if a < y then Some(CurveIn(a, x, y)) else Panic
  {
    if a < y {
      MulU64(x, a);
      CheckedCeilDivValue(x * a, y - a);
    } else if x * a <= U128_MAX && a == y {
      CheckedCeilDivValue(x * a, 0);
    }
  }

  // ----- LP conversions -----

  /** On u64 operands and a positive supply the conversion is the plain floor, or the ceiling
      unless the floor is zero. */
  lemma LpShareValue(l: u128, supply: u128, r: u128, round: RoundDirection)
    requires l <= U64_MAX && 0 < supply <= U64_MAX && r <= U64_MAX
    ensures LpShare(l, supply, r, round) ==
            Some(if round == Ceiling && FloorShare(l, supply, r) > 0 then CeilShare(l, supply, r)
                 else FloorShare(l, supply, r))
    ensures 0 <= FloorShare(l, supply, r) && 0 <= CeilShare(l, supply, r)
  {
    MulU64(l, r);
    CeilByRemainder(l * r, supply);
    QuotientFits(l * r, supply);
  }

  /** The exact share l * r / supply, rounded down. */
  function FloorShare(l: nat, supply: nat, r: nat): int
    requires supply > 0
  {
    l * r / supply
  }

  /** The exact share, rounded up. */
  function CeilShare(l: nat, supply: nat, r: nat): int
    requires supply > 0
  {
    CeilDiv(l * r, supply)
  }

  /** The share needs no rounding. */
  predicate ExactShare(l: nat, supply: nat, r: nat)
    requires supply > 0
  {
    l * r % supply == 0
  }

  /** A deposit that is not rejected adds at least its share, less than one unit more. */
  lemma DepositShare(l: nat, supply: nat, r: nat)
    requires supply > 0
    ensures l * r <= CeilShare(l, supply, r) * supply < l * r + supply
  {
    var t := CeilShare(l, supply, r);
    CeilAdjoint(l * r, supply, t);
    CeilAdjoint(l * r, supply, t - 1);
    assert (t - 1) * supply == t * supply - supply;
  }

  /** The quotient of (l * r + l * t) by (supply + l) is pinned to t or t - 1 by how t * supply
      compares with l * r. */
  lemma ShareBack(l: nat, supply: nat, lr: nat, t: nat)
    requires supply > 0 && lr <= t * supply < lr + supply
    ensures (lr + l * t) / (supply + l) == if lr == t * supply then t else t - 1
  {
    var d := supply + l;
    assert t * d == t * supply + l * t;
    if lr == t * supply {
      FloorIs(lr + l * t, d, t);
    } else {
      assert (t - 1) * d == t * d - d;
      FloorIs(lr + l * t, d, t - 1);
    }
  }

  /** Depositing and at once withdrawing the same LP amount gives back the deposit, or exactly
      one unit less: the full amount precisely when the deposit was not rounded. */
  lemma DepositThenWithdraw(l: nat, supply: nat, r: nat)
    requires supply > 0 && FloorShare(l, supply, r) > 0
    ensures var t := CeilShare(l, supply, r);
            && t > 0
            && FloorShare(l, supply + l, r + t) == (if ExactShare(l, supply, r) then t else t - 1)
            && FloorShare(l, supply + l, r + t) > 0
  {
    var lr := l * r;
    var t := CeilShare(l, supply, r);
    DepositShare(l, supply, r);
    CeilByRemainder(lr, supply);
    assert lr == (lr / supply) * supply + lr % supply;
    assert l * (r + t) == lr + l * t;
    ShareBack(l, supply, lr, t);
  }

  /** A withdrawn share fits in the reserve and is worth at most the LP burnt for it. */
  lemma WithdrawShare(l: nat, supply: nat, r: nat)
    requires 0 < supply
    ensures l <= supply ==> 0 <= FloorShare(l, supply, r) <= r
    ensures FloorShare(l, supply, r) * supply <= l * r
  {
    FloorAdjoint(l * r, supply, l * r / supply);
    FloorAdjoint(l * r, supply, 0);
    if l <= supply {
      MulMono(l, supply, r);
      FloorAdjoint(l * r, supply, r + 1);
      assert (r + 1) * supply == r * supply + supply;
    }
  }
}
