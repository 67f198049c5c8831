/** The price oracle of programs/cp-swap/src/states/oracle.rs: a ring of cumulative prices. */
module Oracle {
  import opened Machine
  import opened Outcomes
  import opened Errors

  const OBSERVATION_NUM: nat := 100
  const UPDATE_DURATION: u64 := 15

  datatype Observation = Observation(timestamp: u64, cumulative0: u128, cumulative1: u128)

  datatype OracleState = OracleState(
    initialized: bool,
    index: nat,
    observations: seq<Observation>,
    lastUpdate: u64
  )

  function SaturatingSub(a: u64, b: u64): u64 {
    if a >= b then a - b else 0
  }

  function WrappingAdd(a: u128, b: u128): u128 {
    (a + b) % (U128_MAX + 1)
  }

  function NextIndex(index: nat): nat {
    if index == OBSERVATION_NUM - 1 then 0 else index + 1
  }

  /** The account as allocated: all zeros. */
  function Fresh(): (s: OracleState)
    ensures |s.observations| == OBSERVATION_NUM
    ensures forall i :: 0 <= i < OBSERVATION_NUM ==> s.observations[i] == Observation(0, 0, 0)
  {
    OracleState(false, 0, seq(OBSERVATION_NUM, i => Observation(0, 0, 0)), 0)
  }

  /** The state after an update; a failed update leaves none. */
  function Update(s: OracleState, now: u64, price0: u128, price1: u128): Result<OracleState>
  {
    var _ :- Require(s.index < |s.observations| && NextIndex(s.index) < |s.observations|, Panicked);
    if !s.initialized then
      Success(OracleState(true, s.index, s.observations[s.index := Observation(now, 0, 0)], now))
    else
      var last := s.observations[s.index];
      var lastUpdate := if s.lastUpdate == 0 then last.timestamp else s.lastUpdate;
      var sinceObservation := SaturatingSub(now, last.timestamp);
      var sinceUpdate := SaturatingSub(now, lastUpdate);
      if sinceUpdate == 0 || sinceObservation == 0 then Success(s.(lastUpdate := lastUpdate))
      else
        var delta0 :- OkOr(CheckedMul(price0, sinceUpdate), MathOverflow);
        var delta1 :- OkOr(CheckedMul(price1, sinceUpdate), MathOverflow);
        var sum0 := WrappingAdd(last.cumulative0, delta0);
        var sum1 := WrappingAdd(last.cumulative1, delta1);
        if sinceObservation < UPDATE_DURATION then
          Success(s.(observations := s.observations[s.index := Observation(last.timestamp, sum0, sum1)],
                     lastUpdate := now))
        else
          var next := NextIndex(s.index);
          Success(OracleState(true, next, s.observations[next := Observation(now, sum0, sum1)], now))
  }

  /** The oracle account. */
  class ObservationState {
    var initialized: bool
    var index: nat
    var observations: array<Observation>
    var lastUpdate: u64

    ghost predicate Valid()
      reads this
    {
      observations.Length == OBSERVATION_NUM && index < OBSERVATION_NUM
    }

    function Value(): OracleState
      reads this, observations
    {
      OracleState(initialized, index, observations[..], lastUpdate)
    }

    constructor ()
      ensures Valid() && fresh(observations)
      ensures Value() == Fresh()
    {
      initialized, index, lastUpdate := false, 0, 0;
      observations := new Observation[OBSERVATION_NUM](i => Observation(0, 0, 0));
    }

    method UpdatePrice(now: u64, price0: u128, price1: u128) returns (r: Result<()>)
      requires Valid()
      modifies this, observations
      ensures Valid() && observations == old(observations)
      ensures match Update(old(Value()), now, price0, price1)
              case Success(next) => r.Success? && Value() == next
              case Failure(e) => r == Failure(e)
    {
      if !initialized {
        initialized := true;
        observations[index] := Observation(now, 0, 0);
        lastUpdate := now;
        return Success(());
      }
      var last := observations[index];
      var next := NextIndex(index);
      if lastUpdate == 0 {
        lastUpdate := last.timestamp;
      }
      var sinceObservation := SaturatingSub(now, last.timestamp);
      var sinceUpdate := SaturatingSub(now, lastUpdate);
      if sinceUpdate == 0 || sinceObservation == 0 {
        return Success(());
      }
      var delta0 :- OkOr(CheckedMul(price0, sinceUpdate), MathOverflow);
      var delta1 :- OkOr(CheckedMul(price1, sinceUpdate), MathOverflow);
      if sinceObservation < UPDATE_DURATION {
        observations[index] := Observation(last.timestamp,
          WrappingAdd(last.cumulative0, delta0), WrappingAdd(last.cumulative1, delta1));
      } else {
        observations[next] := Observation(now,
          WrappingAdd(last.cumulative0, delta0), WrappingAdd(last.cumulative1, delta1));
        index := next;
      }
      lastUpdate := now;
      return Success(());
    }

    /** Puts back an earlier value, as the runtime does for a failed instruction. */
    method Restore(s: OracleState)
      requires Valid() && |s.observations| == OBSERVATION_NUM && s.index < OBSERVATION_NUM
      modifies this, observations
      ensures Valid() && observations == old(observations)
      ensures Value() == s
    {
      initialized, index, lastUpdate := s.initialized, s.index, s.lastUpdate;
      forall i | 0 <= i < OBSERVATION_NUM {
        observations[i] := s.observations[i];
      }
      assert observations[..] == s.observations;
    }
  }
}
