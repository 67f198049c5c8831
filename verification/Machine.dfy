/** Machine integers as the programs use them. Both crates are built with overflow checks on,
    so a plain `+` or `-` that leaves its type aborts, while a `checked_` operation yields `None`
    that the caller may turn into an error or unwrap. */
module Machine {
  import opened Rounding

  const U64_MAX: int := 0xFFFF_FFFF_FFFF_FFFF
  const U128_MAX: int := 0xFFFF_FFFF_FFFF_FFFF_FFFF_FFFF_FFFF_FFFF

  type u64 = x: int | 0 <= x <= U64_MAX
  type u128 = x: int | 0 <= x <= U128_MAX

  /** 2^64 and 2^128 are the first numbers that no longer fit. */
  lemma Widths()
    ensures U64_MAX + 1 == 0x1_0000_0000 * 0x1_0000_0000
    ensures U128_MAX + 1 == (U64_MAX + 1) * (U64_MAX + 1)
  {
  }

  /** An account address, of which only the identity matters. */
  type Pubkey = nat

  const DEFAULT_PUBKEY: Pubkey := 0

  /** An `Option` whose computation may also abort the instruction. */
  datatype Checked<+T> = Some(value: T) | None | Panic {

    predicate IsFailure() {
      !Some?
    }

    function PropagateFailure<U>(): Checked<U>
      requires IsFailure()
    {
      if None? then None else Panic
    }

    function Extract(): T
      requires Some?
    {
      value
    }

    /** `unwrap()`: a missing value aborts. */
    function Unwrap(): Checked<T> {
      if None? then Panic else this
    }
  }

  // The `checked_` family on u128.
  function CheckedMul(a: u128, b: u128): Checked<u128> {
    if a * b <= U128_MAX then Some(a * b) else None
  }

  function CheckedAdd(a: u128, b: u128): Checked<u128> {
    if a + b <= U128_MAX then Some(a + b) else None
  }

  function CheckedSub(a: u128, b: u128): Checked<u128> {
    if b <= a then Some(a - b) else None
  }

  function CheckedDiv(a: u128, b: u128): Checked<u128> {
    if b == 0 then None else Some(Quotient(a, b))
  }

  function CheckedRem(a: u128, b: u128): Checked<u128> {
    if b == 0 then None else Some(Remainder(a, b))
  }

  function Quotient(a: u128, b: u128): u128
    requires b > 0
  {
    QuotientFits(a, b);
    a / b
  }

  function Remainder(a: u128, b: u128): u128
    requires b > 0
  {
    QuotientFits(a, b);
    a % b
  }

  // The plain operators.
  function Minus(a: u128, b: u128): Checked<u128> {
    CheckedSub(a, b).Unwrap()
  }

  function Plus64(a: u64, b: u64): Checked<u64> {
    if a + b <= U64_MAX then Some(a + b) else Panic
  }

  function CheckedAdd64(a: u64, b: u64): Checked<u64> {
    if a + b <= U64_MAX then Some(a + b) else None
  }

  function CheckedSub64(a: u64, b: u64): Checked<u64> {
    if b <= a then Some(a - b) else None
  }

  /** `u64::try_from` on a u128. */
  function ToU64(a: u128): Checked<u64> {
    if a <= U64_MAX then Some(a) else None
  }

  /** Ceiling division as the program does it: bump the quotient when something is left over. */
  function CheckedCeilDiv(a: u128, b: u128): Checked<u128> {
    var quotient :- CheckedDiv(a, b);
    var remainder :- CheckedRem(a, b);
    if remainder != 0 then CheckedAdd(quotient, 1) else Some(quotient)
  }

  lemma CheckedCeilDivValue(a: u128, b: u128)
    ensures CheckedCeilDiv(a, b) == if b == 0 then None else Some(CeilDiv(a, b))
  {
    if b > 0 {
      CeilByRemainder(a, b);
      CeilAdjoint(a, b, a);
      MulMono(1, b, a);
    }
  }

  lemma MulBound(a: int, b: int, A: int, B: int)
    requires 0 <= a <= A && 0 <= b <= B
    ensures 0 <= a * b <= A * B
  {
    assert a * b <= A * b;
    assert A * b <= A * B;
  }

  /** Two u64 factors never overflow a u128 product. */
  lemma MulU64(a: u64, b: u64)
    ensures 0 <= a * b <= U64_MAX * U64_MAX <= U128_MAX
  {
    MulBound(a, b, U64_MAX, U64_MAX);
  }
}
