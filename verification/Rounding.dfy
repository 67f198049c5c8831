/** Floor and ceiling division, each fixed by its adjunction: every rounding argument of the
    pool is an inequality between products once these are applied. */
module Rounding {

  function CeilDiv(a: nat, b: nat): (q: nat)
    requires b > 0
  {
    (a + b - 1) / b
  }

  lemma FloorAdjoint(a: nat, b: nat, q: int)
    requires b > 0
    ensures q <= a / b <==> q * b <= a
  {
    var d := a / b;
    assert a == d * b + a % b;
    if q <= d { assert q * b <= d * b; } else { assert q * b >= (d + 1) * b; }
  }

  lemma CeilAdjoint(a: nat, b: nat, q: int)
    requires b > 0
    ensures CeilDiv(a, b) <= q <==> a <= q * b
  {
    var d := CeilDiv(a, b);
    assert a + b - 1 == d * b + (a + b - 1) % b;
    if d <= q { assert d * b <= q * b; } else { assert q * b <= (d - 1) * b; assert (d - 1) * b == d * b - b; }
  }

  lemma FloorIs(a: nat, b: nat, q: int)
    requires b > 0 && q * b <= a < q * b + b
    ensures a / b == q
  {
    FloorAdjoint(a, b, q);
    FloorAdjoint(a, b, q + 1);
    assert (q + 1) * b == q * b + b;
  }

  lemma QuotientFits(a: nat, b: nat)
    requires b > 0
    ensures 0 <= a / b <= a
    ensures 0 <= a % b <= a
  {
    FloorAdjoint(a, b, 0);
    FloorAdjoint(a, b, a + 1);
    MulMono(1, b, a + 1);
    assert a == (a / b) * b + a % b;
  }

  /** Bumping the quotient of an inexact division is ceiling division. */
  lemma CeilByRemainder(a: nat, b: nat)
    requires b > 0
    ensures CeilDiv(a, b) == a / b + (if a % b == 0 then 0 else 1)
  {
    var q := a / b + (if a % b == 0 then 0 else 1);
    assert a == (a / b) * b + a % b;
    assert q * b == (a / b) * b + (if a % b == 0 then 0 else b);
    CeilAdjoint(a, b, q);
    CeilAdjoint(a, b, q - 1);
    assert (q - 1) * b == q * b - b;
  }

  lemma SqrtStep(n: nat, r: nat)
    requires r * r <= n / 4 < (r + 1) * (r + 1)
    ensures (2 * r) * (2 * r) <= n < (2 * r + 2) * (2 * r + 2)
  {
    assert (2 * r) * (2 * r) == 4 * (r * r);
    assert (2 * r + 2) * (2 * r + 2) == 4 * ((r + 1) * (r + 1));
  }

  /** The integer square root: the largest r with r * r <= n. */
  function IntegerSqrt(n: nat): (r: nat)
    ensures r * r <= n < (r + 1) * (r + 1)
  {
    if n < 2 then n
    else
      var half := IntegerSqrt(n / 4);
      SqrtStep(n, half);
      var s := 2 * half;
      if (s + 1) * (s + 1) <= n then s + 1 else s
  }

  lemma RootIsLargest(r: nat, n: nat)
    requires r * r <= n
    ensures r <= IntegerSqrt(n)
  {
    SquareMono(IntegerSqrt(n) + 1, r);
  }

  // Order facts about products, stated for the shapes the proofs use.
  lemma MulMono(a: int, b: int, c: int)
    requires a <= b && 0 <= c
    ensures a * c <= b * c
  {
  }

  lemma CancelLe(a: int, b: int, c: int)
    requires a * c <= b * c && c > 0
    ensures a <= b
  {
  }

  lemma SquareMono(a: nat, b: nat)
    ensures a * a <= b * b <==> a <= b
  {
    if a <= b {
      MulMono(a, b, a);
      MulMono(a, b, b);
    } else {
      MulMono(b, a, b);
      assert a * b < a * a;
    }
  }
}
