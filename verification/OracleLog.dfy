/** The oracle refines an unbounded log: its ring holds the last slots of a log of price integrals
    that never wraps and never forgets. */
module OracleLog {
  import opened Machine
  import opened Outcomes
  import opened Errors
  import opened Oracle
  import Rounding

  datatype Call = Call(now: u64, price0: u128, price1: u128)

  /** The ring after a list of calls; a failing call is rolled back. */
  function After(calls: seq<Call>): OracleState {
    if calls == [] then Fresh()
    else
      var s := After(calls[..|calls| - 1]);
      var c := calls[|calls| - 1];
      match Update(s, c.now, c.price0, c.price1)
      case Success(next) => next
      case Failure(_) => s
  }

  // ----- The specification -----

  /** A call counts when it is the first, or is later than the previous one that counted and both
      price-time products fit. */
  predicate Counts(e: seq<Call>, c: Call) {
    e == [] ||
    var elapsed := c.now - e[|e| - 1].now;
    elapsed > 0 && c.price0 * elapsed <= U128_MAX && c.price1 * elapsed <= U128_MAX
  }

  function Effective(calls: seq<Call>): seq<Call> {
    if calls == [] then []
    else
      var e := Effective(calls[..|calls| - 1]);
      var c := calls[|calls| - 1];
      if Counts(e, c) then e + [c] else e
  }

  /** Price times elapsed time, summed over the first n effective calls; the first sets the start. */
  function Integral(e: seq<Call>, n: nat, price: Call -> nat): nat
    requires n <= |e|
    requires Increasing(e)
  {
    if n <= 1 then 0
    else Integral(e, n - 1, price) + price(e[n - 1]) * (e[n - 1].now - e[n - 2].now)
  }

  predicate Increasing(e: seq<Call>) {
    forall i, j :: 0 <= i < j < |e| ==> e[i].now < e[j].now
  }

  /** A run of effective calls that share one observation. */
  datatype Slot = Slot(first: nat, last: nat)

  /** The log: a call within the update duration of the slot's first call joins it. */
  function Log(e: seq<Call>): (slots: seq<Slot>)
    ensures e != [] ==> slots != [] && slots[|slots| - 1].last == |e| - 1
    ensures forall k :: 0 <= k < |slots| ==> slots[k].first <= slots[k].last < |e|
  {
    if e == [] then []
    else
      var slots := Log(e[..|e| - 1]);
      var n := |e| - 1;
      if slots != [] && e[n].now - e[slots[|slots| - 1].first].now < UPDATE_DURATION then
        slots[..|slots| - 1] + [Slot(slots[|slots| - 1].first, n)]
      else
        slots + [Slot(n, n)]
  }

  function Price0(c: Call): nat { c.price0 }

  function Price1(c: Call): nat { c.price1 }

  function SlotValue(e: seq<Call>, slot: Slot): Observation
    requires Increasing(e) && slot.first < |e| && slot.last < |e|
  {
    Observation(e[slot.first].now,
                Integral(e, slot.last + 1, Price0) % (U128_MAX + 1),
                Integral(e, slot.last + 1, Price1) % (U128_MAX + 1))
  }

  /** Log entry j stands in the ring at its index modulo the ring's length. */
  ghost predicate Shows(s: OracleState, e: seq<Call>, slots: seq<Slot>, j: nat)
    requires Increasing(e) && j < |slots| && slots[j].first < |e| && slots[j].last < |e|
    requires |s.observations| == OBSERVATION_NUM
  {
    s.observations[j % OBSERVATION_NUM] == SlotValue(e, slots[j])
  }

  /** The ring shows exactly the last hundred slots of the log, and zeros where the log is shorter. */
  ghost predicate Window(s: OracleState, e: seq<Call>, slots: seq<Slot>)
    requires Increasing(e)
    requires forall k :: 0 <= k < |slots| ==> slots[k].first <= slots[k].last < |e|
    requires |s.observations| == OBSERVATION_NUM
  {
    && s.index == (|slots| - 1) % OBSERVATION_NUM
    && (forall j :: 0 <= j < |slots| && |slots| - j <= OBSERVATION_NUM ==> Shows(s, e, slots, j))
    && (forall k :: |slots| <= k < OBSERVATION_NUM ==> s.observations[k] == Observation(0, 0, 0))
  }

  ghost predicate Represents(s: OracleState, e: seq<Call>)
    requires Increasing(e)
  {
    if e == [] then s == Fresh()
    else
      && s.initialized
      && |s.observations| == OBSERVATION_NUM
      && s.lastUpdate == e[|e| - 1].now
      && Window(s, e, Log(e))
  }

  // ----- The log -----

  lemma {:induction false} EffectiveIncreasing(calls: seq<Call>)
    ensures Increasing(Effective(calls))
  {
    if calls != [] {
      EffectiveIncreasing(calls[..|calls| - 1]);
    }
  }

  /** A slot's accumulation ends less than 15 seconds after its timestamp. */
  predicate Short(e: seq<Call>, slot: Slot) {
    slot.first <= slot.last < |e| && e[slot.first].now <= e[slot.last].now < e[slot.first].now + 15
  }

  /** A slot starts right after the one before it, at least 15 seconds later. */
  predicate Follows(e: seq<Call>, before: Slot, slot: Slot) {
    && slot.first == before.last + 1
    && before.first < |e| && slot.first < |e|
    && e[slot.first].now >= e[before.first].now + 15
  }

  /** The slots cut the whole history into short runs, each a full duration after the last. */
  ghost predicate Shaped(e: seq<Call>, slots: seq<Slot>) {
    && (forall k :: 0 <= k < |slots| ==> Short(e, slots[k]))
    && (forall k :: 0 < k < |slots| ==> Follows(e, slots[k - 1], slots[k]))
    && (slots == [] <==> e == [])
    && (slots != [] ==> slots[0].first == 0 && slots[|slots| - 1].last == |e| - 1)
  }

  lemma ShapeJoined(e: seq<Call>, c: Call, slots: seq<Slot>)
    requires e != [] && Shaped(e, slots)
    requires var at := e[slots[|slots| - 1].first].now; at <= c.now < at + UPDATE_DURATION
    ensures Shaped(e + [c], slots[..|slots| - 1] + [Slot(slots[|slots| - 1].first, |e|)])
  {
    var n := |slots| - 1;
    var slots' := slots[..n] + [Slot(slots[n].first, |e|)];
    forall k | 0 <= k < |slots'| ensures Short(e + [c], slots'[k]) {
      assert Short(e, slots[k]);
    }
    forall k | 0 < k < |slots'| ensures Follows(e + [c], slots'[k - 1], slots'[k]) {
      assert Follows(e, slots[k - 1], slots[k]);
    }
  }

  lemma ShapeOpened(e: seq<Call>, c: Call, slots: seq<Slot>)
    requires Shaped(e, slots)
    requires e != [] ==> e[slots[|slots| - 1].first].now + UPDATE_DURATION <= c.now
    ensures Shaped(e + [c], slots + [Slot(|e|, |e|)])
  {
    var slots' := slots + [Slot(|e|, |e|)];
    forall k | 0 <= k < |slots'| ensures Short(e + [c], slots'[k]) {
      if k < |slots| { assert Short(e, slots[k]); }
    }
    forall k | 0 < k < |slots'| ensures Follows(e + [c], slots'[k - 1], slots'[k]) {
      if k < |slots| { assert Follows(e, slots[k - 1], slots[k]); } else { assert Short(e, slots[k - 1]); }
    }
  }

  lemma {:induction false} ShapeGrows(e: seq<Call>, c: Call)
    requires Shaped(e, Log(e)) && (e != [] ==> e[|e| - 1].now < c.now)
    ensures Shaped(e + [c], Log(e + [c]))
  {
    LogOfExtension(e, c);
    var slots := Log(e);
    if e != [] {
      assert Short(e, slots[|slots| - 1]);
      if c.now - e[slots[|slots| - 1].first].now < UPDATE_DURATION {
        ShapeJoined(e, c, slots);
      } else {
        ShapeOpened(e, c, slots);
      }
    } else {
      ShapeOpened(e, c, slots);
    }
  }

  lemma IncreasingBefore(e: seq<Call>)
    requires e != [] && Increasing(e)
    ensures var before := e[..|e| - 1];
            Increasing(before) && (before != [] ==> before[|before| - 1].now < e[|e| - 1].now)
  {
  }

  lemma {:induction false} LogShape(e: seq<Call>)
    requires Increasing(e)
    ensures Shaped(e, Log(e))
  {
    if e != [] {
      var before, c := e[..|e| - 1], e[|e| - 1];
      assert e == before + [c];
      IncreasingBefore(e);
      LogShape(before);
      hide Shaped, Log, Integral, Increasing;
      ShapeGrows(before, c);
    }
  }

  lemma {:induction false} IntegralOfPrefix(e: seq<Call>, c: Call, n: nat, price: Call -> nat)
    requires Increasing(e + [c]) && n <= |e|
    ensures Increasing(e)
    ensures Integral(e + [c], n, price) == Integral(e, n, price)
  {
    assert forall i :: 0 <= i < |e| ==> e[i] == (e + [c])[i];
    if n > 1 {
      IntegralOfPrefix(e, c, n - 1, price);
    }
  }

  lemma WrappingSum(total: nat, delta: u128)
    ensures WrappingAdd(total % (U128_MAX + 1), delta) == (total + delta) % (U128_MAX + 1)
  {
  }

  /** Values of earlier slots do not change when the history grows. */
  lemma SlotValueKept(e: seq<Call>, c: Call, slot: Slot)
    requires Increasing(e + [c]) && slot.first <= slot.last < |e|
    ensures Increasing(e)
    ensures SlotValue(e + [c], slot) == SlotValue(e, slot)
  {
    IntegralOfPrefix(e, c, slot.last + 1, Price0);
    IntegralOfPrefix(e, c, slot.last + 1, Price1);
  }

  lemma {:induction false} IntegralGrown(e: seq<Call>, c: Call, price: Call -> nat)
    requires e != [] && Increasing(e + [c])
    ensures Increasing(e)
    ensures Integral(e + [c], |e| + 1, price) ==
            Integral(e, |e|, price) + price(c) * (c.now - e[|e| - 1].now)
  {
    IntegralOfPrefix(e, c, |e|, price);
    hide Increasing;
    assert (e + [c])[|e|] == c && (e + [c])[|e| - 1] == e[|e| - 1];
  }

  /** The value of the slot that ends with the new call, from the value of the last slot before it. */
  lemma SlotValueGrown(e: seq<Call>, c: Call, first: nat, delta0: u128, delta1: u128)
    requires e != [] && Increasing(e + [c]) && first <= |e|
    requires Increasing(e)
    requires delta0 == c.price0 * (c.now - e[|e| - 1].now)
    requires delta1 == c.price1 * (c.now - e[|e| - 1].now)
    ensures SlotValue(e + [c], Slot(first, |e|)) ==
            Observation((e + [c])[first].now,
                        WrappingAdd(Integral(e, |e|, Price0) % (U128_MAX + 1), delta0),
                        WrappingAdd(Integral(e, |e|, Price1) % (U128_MAX + 1), delta1))
  {
    hide Integral, WrappingAdd, Increasing;
    IntegralGrown(e, c, Price0);
    IntegralGrown(e, c, Price1);
    WrappingSum(Integral(e, |e|, Price0), delta0);
    WrappingSum(Integral(e, |e|, Price1), delta1);
  }

  lemma LogOfExtension(e: seq<Call>, c: Call)
    ensures Log(e + [c]) ==
            var slots := Log(e);
            if slots != [] && c.now - e[slots[|slots| - 1].first].now < UPDATE_DURATION then
              slots[..|slots| - 1] + [Slot(slots[|slots| - 1].first, |e|)]
            else
              slots + [Slot(|e|, |e|)]
  {
    assert (e + [c])[..|e|] == e;
  }

  lemma RingDistinct(j: nat, n: nat)
    requires j < n < j + OBSERVATION_NUM
    ensures j % OBSERVATION_NUM != n % OBSERVATION_NUM
  {
  }

  /** A call that counts and comes soon enough lands in the slot the ring is at. */
  lemma WindowJoined(s: OracleState, e: seq<Call>, slots: seq<Slot>, c: Call, o: Observation)
    requires Increasing(e) && Increasing(e + [c]) && Shaped(e, slots) && e != []
    requires |s.observations| == OBSERVATION_NUM && Window(s, e, slots)
    requires o == SlotValue(e + [c], Slot(slots[|slots| - 1].first, |e|))
    requires Short(e + [c], Slot(slots[|slots| - 1].first, |e|))
    ensures var slots' := slots[..|slots| - 1] + [Slot(slots[|slots| - 1].first, |e|)];
            && (forall k :: 0 <= k < |slots'| ==> slots'[k].first <= slots'[k].last < |e + [c]|)
            && Window(s.(observations := s.observations[s.index := o], lastUpdate := c.now), e + [c], slots')
  {
    hide Integral, SlotValue, Increasing;
    var n := |slots| - 1;
    var slots' := slots[..n] + [Slot(slots[n].first, |e|)];
    var s' := s.(observations := s.observations[s.index := o], lastUpdate := c.now);
    forall k | 0 <= k < |slots'| ensures slots'[k].first <= slots'[k].last < |e + [c]| {
      assert Short(e, slots[k]);
    }
    forall j | 0 <= j < |slots'| && |slots'| - j <= OBSERVATION_NUM ensures Shows(s', e + [c], slots', j) {
      if j < n {
        assert Shows(s, e, slots, j);
        assert Short(e, slots[j]);
        RingDistinct(j, n);
        SlotValueKept(e, c, slots[j]);
      }
    }
  }

  /** A call that counts and comes later opens the next slot, over the oldest one in the ring. */
  lemma WindowOpened(s: OracleState, e: seq<Call>, slots: seq<Slot>, c: Call, o: Observation)
    requires Increasing(e) && Increasing(e + [c]) && Shaped(e, slots) && e != []
    requires |s.observations| == OBSERVATION_NUM && Window(s, e, slots)
    requires o == SlotValue(e + [c], Slot(|e|, |e|))
    ensures var slots' := slots + [Slot(|e|, |e|)];
            var next := NextIndex(s.index);
            && (forall k :: 0 <= k < |slots'| ==> slots'[k].first <= slots'[k].last < |e + [c]|)
            && Window(OracleState(true, next, s.observations[next := o], c.now), e + [c], slots')
  {
    hide Integral, SlotValue, Increasing, NextIndex;
    var n := |slots|;
    var slots' := slots + [Slot(|e|, |e|)];
    var next := NextIndex(s.index);
    NextIsModular(n);
    assert next == n % OBSERVATION_NUM;
    var s' := OracleState(true, next, s.observations[next := o], c.now);
    forall k | 0 <= k < |slots'| ensures slots'[k].first <= slots'[k].last < |e + [c]| {
      if k < n { assert Short(e, slots[k]); }
    }
    assert Shows(s', e + [c], slots', n);
    forall j | 0 <= j < n && n + 1 - j <= OBSERVATION_NUM ensures Shows(s', e + [c], slots', j) {
      assert Shows(s, e, slots, j);
      assert Short(e, slots[j]);
      RingDistinct(j, n);
      SlotValueKept(e, c, slots[j]);
    }
  }

  lemma NextIsModular(n: nat)
    requires n > 0
    ensures NextIndex((n - 1) % OBSERVATION_NUM) == n % OBSERVATION_NUM
  {
  }

  /** What an update does once the oracle is running and its timestamps are in order; the rule for
      accounts without a last update then has no effect. */
  lemma UpdateValue(s: OracleState, c: Call)
    requires s.initialized && |s.observations| == OBSERVATION_NUM && s.index < OBSERVATION_NUM
    requires s.observations[s.index].timestamp <= s.lastUpdate
    ensures var last := s.observations[s.index];
            var elapsed := c.now - s.lastUpdate;
            var r := Update(s, c.now, c.price0, c.price1);
            if elapsed <= 0 then r == Success(s)
            else if c.price0 * elapsed > U128_MAX || c.price1 * elapsed > U128_MAX then r == Failure(MathOverflow)
            else
              && 0 <= c.price0 * elapsed && 0 <= c.price1 * elapsed
              && var sum0 := WrappingAdd(last.cumulative0, c.price0 * elapsed);
                 var sum1 := WrappingAdd(last.cumulative1, c.price1 * elapsed);
                 if c.now - last.timestamp < UPDATE_DURATION then
                   r == Success(s.(observations := s.observations[s.index := Observation(last.timestamp, sum0, sum1)],
                                   lastUpdate := c.now))
                 else
                   var next := NextIndex(s.index);
                   r == Success(OracleState(true, next, s.observations[next := Observation(c.now, sum0, sum1)], c.now))
  {
    hide WrappingAdd;
    var elapsed := c.now - s.lastUpdate;
    if elapsed > 0 {
      MulBound(c.price0, elapsed, c.price0, elapsed);
      MulBound(c.price1, elapsed, c.price1, elapsed);
    }
  }

  /** An account without a last update behaves as if it had last been updated at its observation. */
  lemma MissingLastUpdate(s: OracleState, now: u64, price0: u128, price1: u128)
    requires s.initialized && s.lastUpdate == 0 && s.index < |s.observations| == OBSERVATION_NUM
    ensures Update(s, now, price0, price1) ==
            Update(s.(lastUpdate := s.observations[s.index].timestamp), now, price0, price1)
  {
    hide WrappingAdd, CheckedMul;
  }

  /** One update keeps the ring in step with the log. */
  lemma UpdateRefinesLog(s: OracleState, e: seq<Call>, c: Call)
    requires Increasing(e) && Represents(s, e)
    ensures Counts(e, c) ==>
              && Increasing(e + [c])
              && Update(s, c.now, c.price0, c.price1).Success?
              && Represents(Update(s, c.now, c.price0, c.price1).value, e + [c])
    ensures !Counts(e, c) ==>
              Update(s, c.now, c.price0, c.price1) == Success(s) ||
              Update(s, c.now, c.price0, c.price1) == Failure(MathOverflow)
  {
    if e == [] {
      FirstUpdate(s, c);
      assert [] + [c] == [c];
    } else if Counts(e, c) {
      CountingUpdateRefinesLog(s, e, c);
    } else {
      hide Update, WrappingAdd, Log, Integral, Increasing, Shaped, Window;
      RunningOracle(s, e);
      UpdateValue(s, c);
    }
  }

  lemma FirstUpdate(s: OracleState, c: Call)
    requires s == Fresh()
    ensures Update(s, c.now, c.price0, c.price1).Success?
    ensures Increasing([c]) && Represents(Update(s, c.now, c.price0, c.price1).value, [c])
  {
    assert Log([c]) == [Slot(0, 0)];
    assert Shows(Update(s, c.now, c.price0, c.price1).value, [c], [Slot(0, 0)], 0);
  }

  lemma RunningOracle(s: OracleState, e: seq<Call>)
    requires e != [] && Increasing(e) && Represents(s, e)
    ensures var slots := Log(e);
            && Shaped(e, slots)
            && s.index < OBSERVATION_NUM
            && s.observations[s.index] == SlotValue(e, slots[|slots| - 1])
            && Short(e, slots[|slots| - 1])
            && s.observations[s.index].timestamp <= s.lastUpdate
  {
    LogShape(e);
    var slots := Log(e);
    assert Shows(s, e, slots, |slots| - 1) && Short(e, slots[|slots| - 1]);
  }

  lemma IncreasingGrows(e: seq<Call>, c: Call)
    requires Increasing(e) && (e != [] ==> e[|e| - 1].now < c.now)
    ensures Increasing(e + [c])
  {
  }

  lemma CountingUpdateRefinesLog(s: OracleState, e: seq<Call>, c: Call)
    requires e != [] && Increasing(e) && Represents(s, e) && Counts(e, c)
    ensures Increasing(e + [c])
    ensures Update(s, c.now, c.price0, c.price1).Success?
    ensures Represents(Update(s, c.now, c.price0, c.price1).value, e + [c])
  {
    hide Update, WrappingAdd, Log, Integral, Increasing, Shaped, Window;
    IncreasingGrows(e, c);
    RunningOracle(s, e);
    UpdateValue(s, c);
    LogOfExtension(e, c);
    var slots := Log(e);
    var first := slots[|slots| - 1].first;
    var elapsed := c.now - s.lastUpdate;
    if c.now - e[first].now < UPDATE_DURATION {
      JoiningUpdate(s, e, c, slots, first, c.price0 * elapsed, c.price1 * elapsed);
    } else {
      OpeningUpdate(s, e, c, slots, c.price0 * elapsed, c.price1 * elapsed);
    }
  }

  lemma JoiningUpdate(s: OracleState, e: seq<Call>, c: Call, slots: seq<Slot>, first: nat,
                                         delta0: u128, delta1: u128)
    requires e != [] && Increasing(e) && Increasing(e + [c]) && Shaped(e, slots)
    requires |s.observations| == OBSERVATION_NUM && Window(s, e, slots)
    requires first == slots[|slots| - 1].first && first < |e| && c.now - e[first].now < UPDATE_DURATION
    requires s.observations[s.index] == SlotValue(e, Slot(first, |e| - 1))
    requires delta0 == c.price0 * (c.now - e[|e| - 1].now) && delta1 == c.price1 * (c.now - e[|e| - 1].now)
    ensures var last := s.observations[s.index];
            var o := Observation(last.timestamp, WrappingAdd(last.cumulative0, delta0),
                                 WrappingAdd(last.cumulative1, delta1));
            var slots' := slots[..|slots| - 1] + [Slot(first, |e|)];
            && (forall k :: 0 <= k < |slots'| ==> slots'[k].first <= slots'[k].last < |e + [c]|)
            && Window(s.(observations := s.observations[s.index := o], lastUpdate := c.now), e + [c], slots')
  {
    var slot := Slot(first, |e|);
    SlotValueGrown(e, c, first, delta0, delta1);
    assert (e + [c])[first] == e[first];
    assert (e + [c])[|e|] == c;
    assert Short(e + [c], slot);
    WindowJoined(s, e, slots, c, SlotValue(e + [c], slot));
  }

  lemma OpeningUpdate(s: OracleState, e: seq<Call>, c: Call, slots: seq<Slot>, delta0: u128,
                                         delta1: u128)
    requires e != [] && Increasing(e) && Increasing(e + [c]) && Shaped(e, slots)
    requires |s.observations| == OBSERVATION_NUM && Window(s, e, slots)
    requires s.observations[s.index] == SlotValue(e, slots[|slots| - 1])
    requires delta0 == c.price0 * (c.now - e[|e| - 1].now) && delta1 == c.price1 * (c.now - e[|e| - 1].now)
    ensures var last := s.observations[s.index];
            var o := Observation(c.now, WrappingAdd(last.cumulative0, delta0), WrappingAdd(last.cumulative1, delta1));
            var slots' := slots + [Slot(|e|, |e|)];
            var next := NextIndex(s.index);
            && (forall k :: 0 <= k < |slots'| ==> slots'[k].first <= slots'[k].last < |e + [c]|)
            && Window(OracleState(true, next, s.observations[next := o], c.now), e + [c], slots')
  {
    SlotValueGrown(e, c, |e|, delta0, delta1);
    assert (e + [c])[|e|] == c;
    WindowOpened(s, e, slots, c, SlotValue(e + [c], Slot(|e|, |e|)));
  }

  /** After any list of calls the ring is the window onto the log of their effective part. */
  lemma {:induction false} RingRefinesLog(calls: seq<Call>)
    ensures Increasing(Effective(calls))
    ensures Represents(After(calls), Effective(calls))
  {
    EffectiveIncreasing(calls);
    if calls != [] {
      var before := calls[..|calls| - 1];
      RingRefinesLog(before);
      UpdateRefinesLog(After(before), Effective(before), calls[|calls| - 1]);
    }
  }

  // ----- What a reader of the ring gets -----

  /** The log slots a reader can still see. */
  predicate Visible(slots: seq<Slot>, j: int) {
    0 <= j < |slots| && |slots| - j <= OBSERVATION_NUM
  }

  /** In every reachable state the index is in range, consecutive visible observations are at least
      15 seconds apart, and a further call never moves the last update back. */
  lemma RingOrder(calls: seq<Call>, c: Call, j: int)
    ensures var s, slots := After(calls), Log(Effective(calls));
            && |s.observations| == 100 && s.index < 100
            && s.lastUpdate <= After(calls + [c]).lastUpdate
            && (Visible(slots, j) && Visible(slots, j - 1) ==>
                  s.observations[j % 100].timestamp >= s.observations[(j - 1) % 100].timestamp + 15)
  {
    hide Log, Integral, Effective, After, Update, Increasing, Shaped;
    LastUpdateAdvances(calls, c);
    RingRefinesLog(calls);
    var e, slots := Effective(calls), Log(Effective(calls));
    if Visible(slots, j) && Visible(slots, j - 1) {
      VisibleTimestamp(calls, e, slots, j);
      VisibleTimestamp(calls, e, slots, j - 1);
      SlotsSpaced(e, slots, j);
    }
  }

  lemma SlotsSpaced(e: seq<Call>, slots: seq<Slot>, j: int)
    requires Increasing(e) && slots == Log(e) && 0 < j < |slots|
    ensures Follows(e, slots[j - 1], slots[j])
  {
    hide Log, Increasing;
    LogShape(e);
  }

  lemma LastUpdateAdvances(calls: seq<Call>, c: Call)
    ensures var s := After(calls);
            |s.observations| == 100 && s.index < 100 && s.lastUpdate <= After(calls + [c]).lastUpdate
  {
    hide Log, Integral, Shows;
    RingRefinesLog(calls);
    var s, e := After(calls), Effective(calls);
    assert (calls + [c])[..|calls|] == calls;
    UpdateRefinesLog(s, e, c);
  }

  /** `wrapping_sub` on a u128. */
  function WrappingSub(a: u128, b: u128): u128 {
    (a - b) % (U128_MAX + 1)
  }

  lemma WrappingDifference(a: nat, b: nat)
    requires a <= b <= a + U128_MAX
    ensures WrappingSub(b % (U128_MAX + 1), a % (U128_MAX + 1)) == b - a
  {
  }

  lemma {:induction false} IntegralMonotone(e: seq<Call>, m: nat, n: nat, price: Call -> nat)
    requires Increasing(e) && m <= n <= |e|
    ensures Integral(e, m, price) <= Integral(e, n, price)
  {
    if m < n {
      IntegralMonotone(e, m, n - 1, price);
      if n > 1 {
        MulBound(price(e[n - 1]), e[n - 1].now - e[n - 2].now, price(e[n - 1]), e[n - 1].now - e[n - 2].now);
      }
    }
  }

  /** The accumulator and the price of one token. */
  function Cumulative(o: Observation, first: bool): u128 {
    if first then o.cumulative0 else o.cumulative1
  }

  function PriceOf(first: bool): Call -> nat {
    if first then Price0 else Price1
  }

  /** Price times time between the ends of two slots. */
  function IntegralBetween(e: seq<Call>, from: Slot, to: Slot, first: bool): int
    requires Increasing(e) && from.last < |e| && to.last < |e|
  {
    Integral(e, to.last + 1, PriceOf(first)) - Integral(e, from.last + 1, PriceOf(first))
  }

  lemma SlotDifference(e: seq<Call>, from: Slot, to: Slot, first: bool)
    requires Increasing(e) && from.first < |e| && to.first < |e| && from.last <= to.last < |e|
    ensures WrappingSub(Cumulative(SlotValue(e, to), first), Cumulative(SlotValue(e, from), first))
            == IntegralBetween(e, from, to, first)
            <==> IntegralBetween(e, from, to, first) <= U128_MAX
  {
    hide Integral, WrappingSub, Increasing;
    IntegralMonotone(e, from.last + 1, to.last + 1, PriceOf(first));
    if IntegralBetween(e, from, to, first) <= U128_MAX {
      WrappingDifference(Integral(e, from.last + 1, PriceOf(first)), Integral(e, to.last + 1, PriceOf(first)));
    }
  }

  /** What a reader computes from log entries i and j. */
  function Difference(s: OracleState, i: nat, j: nat, first: bool): u128
    requires |s.observations| == OBSERVATION_NUM
  {
    WrappingSub(Cumulative(s.observations[j % OBSERVATION_NUM], first),
                Cumulative(s.observations[i % OBSERVATION_NUM], first))
  }

  /** The wrapped difference of two visible observations is the exact integral of the price over the
      time between them if and only if that integral fits a u128. */
  lemma DifferenceIsIntegral(calls: seq<Call>, e: seq<Call>, slots: seq<Slot>, i: nat, j: nat, first: bool)
    requires e == Effective(calls) && slots == Log(e) && Increasing(e)
    requires Visible(slots, i) && Visible(slots, j) && i <= j
    ensures |After(calls).observations| == OBSERVATION_NUM
    ensures Difference(After(calls), i, j, first) == IntegralBetween(e, slots[i], slots[j], first)
            <==> IntegralBetween(e, slots[i], slots[j], first) <= U128_MAX
  {
    hide Log, Integral, WrappingSub, Effective, IntegralBetween, SlotValue, Cumulative, After;
    RingRefinesLog(calls);
    LogShape(e);
    assert Shows(After(calls), e, slots, i) && Shows(After(calls), e, slots, j);
    SlotsInOrder(e, slots, i, j);
    SlotDifference(e, slots[i], slots[j], first);
  }

  /** An integral is at most the highest price times the time. */
  lemma {:induction false} IntegralBounded(e: seq<Call>, m: nat, n: nat, price: Call -> nat, bound: nat)
    requires Increasing(e) && 0 < m <= n <= |e|
    requires forall k :: m <= k < n ==> price(e[k]) <= bound
    ensures Integral(e, n, price) - Integral(e, m, price) <= bound * (e[n - 1].now - e[m - 1].now)
  {
    if m < n {
      IntegralBounded(e, m, n - 1, price, bound);
      hide Increasing;
      var before := Integral(e, n - 1, price) - Integral(e, m, price);
      BoundGrows(before, bound, e[n - 2].now - e[m - 1].now, price(e[n - 1]), e[n - 1].now - e[n - 2].now);
    }
  }

  lemma BoundGrows(before: int, bound: nat, time: int, price: nat, elapsed: nat)
    requires before <= bound * time && price <= bound
    ensures before + price * elapsed <= bound * (time + elapsed)
  {
    Rounding.MulMono(price, bound, elapsed);
    assert bound * (time + elapsed) == bound * time + bound * elapsed;
  }

  /** Every effective call is one of the calls. */
  lemma {:induction false} EffectiveFromCalls(calls: seq<Call>)
    ensures forall k :: 0 <= k < |Effective(calls)| ==> Effective(calls)[k] in calls
  {
    if calls != [] {
      EffectiveFromCalls(calls[..|calls| - 1]);
    }
  }

  /** All prices shown are at most `bound`. */
  ghost predicate PricesWithin(calls: seq<Call>, bound: nat) {
    forall c :: c in calls ==> c.price0 <= bound && c.price1 <= bound
  }

  lemma IntegralBetweenBounded(calls: seq<Call>, e: seq<Call>, from: Slot, to: Slot, first: bool, bound: nat, span: nat)
    requires e == Effective(calls) && Increasing(e) && from.last <= to.last < |e|
    requires PricesWithin(calls, bound)
    requires e[to.last].now - e[from.last].now <= span
    ensures IntegralBetween(e, from, to, first) <= bound * span
  {
    hide Integral, Effective, Increasing;
    EffectiveFromCalls(calls);
    var m, n := from.last + 1, to.last + 1;
    forall k | m <= k < n ensures PriceOf(first)(e[k]) <= bound {
      assert e[k] in calls;
    }
    IntegralBounded(e, m, n, PriceOf(first), bound);
    Rounding.MulMono(e[n - 1].now - e[m - 1].now, span, bound);
  }

  /** Over at most `span` seconds prices of at most `bound` cannot overflow the difference. */
  lemma DifferenceExactWithin(calls: seq<Call>, e: seq<Call>, slots: seq<Slot>, i: nat, j: nat, first: bool,
                              bound: nat, span: nat)
    requires e == Effective(calls) && slots == Log(e) && Increasing(e)
    requires Visible(slots, i) && Visible(slots, j) && i <= j
    requires PricesWithin(calls, bound) && bound * span <= U128_MAX
    requires e[slots[j].last].now - e[slots[i].last].now <= span
    ensures |After(calls).observations| == OBSERVATION_NUM
    ensures Difference(After(calls), i, j, first) == IntegralBetween(e, slots[i], slots[j], first)
  {
    hide Log, Effective, After, Difference, IntegralBetween, Increasing, Shaped, PricesWithin;
    DifferenceIsIntegral(calls, e, slots, i, j, first);
    LogShape(e);
    SlotsInOrder(e, slots, i, j);
    IntegralBetweenBounded(calls, e, slots[i], slots[j], first, bound, span);
  }

  /** A visible observation carries the timestamp of its slot's first call. */
  lemma VisibleTimestamp(calls: seq<Call>, e: seq<Call>, slots: seq<Slot>, j: nat)
    requires e == Effective(calls) && slots == Log(e) && Increasing(e) && Visible(slots, j)
    ensures |After(calls).observations| == OBSERVATION_NUM
    ensures Short(e, slots[j])
    ensures After(calls).observations[j % OBSERVATION_NUM].timestamp == e[slots[j].first].now
  {
    hide Log, Integral, Effective, After, Increasing;
    RingRefinesLog(calls);
    LogShape(e);
    assert Shows(After(calls), e, slots, j);
    assert Short(e, slots[j]);
  }

  /** So a reader who knows a bound on prices can tell from two timestamps that the difference of
      their observations is the exact integral. */
  lemma DifferenceExactByTimestamps(calls: seq<Call>, e: seq<Call>, slots: seq<Slot>, i: nat, j: nat, first: bool,
                                    bound: nat)
    requires e == Effective(calls) && slots == Log(e) && Increasing(e)
    requires Visible(slots, i) && Visible(slots, j) && i <= j
    requires PricesWithin(calls, bound)
    ensures |After(calls).observations| == OBSERVATION_NUM
    ensures var from := After(calls).observations[i % OBSERVATION_NUM].timestamp;
            var to := After(calls).observations[j % OBSERVATION_NUM].timestamp;
            && from <= to
            && (bound * (to - from + UPDATE_DURATION) <= U128_MAX ==>
                  Difference(After(calls), i, j, first) == IntegralBetween(e, slots[i], slots[j], first))
  {
    hide Log, Effective, After, Difference, IntegralBetween, Shaped, PricesWithin;
    VisibleTimestamp(calls, e, slots, i);
    VisibleTimestamp(calls, e, slots, j);
    LogShape(e);
    SlotsInOrder(e, slots, i, j);
    var from, to := e[slots[i].first].now, e[slots[j].first].now;
    if bound * (to - from + UPDATE_DURATION) <= U128_MAX {
      DifferenceExactWithin(calls, e, slots, i, j, first, bound, to - from + UPDATE_DURATION);
    }
  }

  /** Beyond that it can fail: at a price of 2^95 three calls 2^32 seconds apart reach an integral of
      2^128, of which the wrapped difference shows nothing. */
  lemma DifferenceWraps()
    ensures var price := 0x8000_0000_0000_0000_0000_0000;
            var calls := [Call(0, price, 0), Call(0x1_0000_0000, price, 0), Call(0x2_0000_0000, price, 0)];
            var e, slots := Effective(calls), Log(Effective(calls));
            && e == calls && Increasing(e)
            && slots == [Slot(0, 0), Slot(1, 1), Slot(2, 2)]
            && |After(calls).observations| == OBSERVATION_NUM
            && IntegralBetween(e, slots[0], slots[2], true) == U128_MAX + 1
            && Difference(After(calls), 0, 2, true) == 0
  {
    hide After, Represents, IntegralBetween, Difference, Effective, Log, Increasing;
    var price := 0x8000_0000_0000_0000_0000_0000;
    var c0, c1, c2 := Call(0, price, 0), Call(0x1_0000_0000, price, 0), Call(0x2_0000_0000, price, 0);
    ThreeSlots(c0, c1, c2);
    RingRefinesLog([c0, c1, c2]);
    ThreeCalls(c0, c1, c2, After([c0, c1, c2]));
  }

  lemma ThreeSlots(c0: Call, c1: Call, c2: Call)
    requires Counts([c0], c1) && Counts([c0, c1], c2)
    requires c1.now - c0.now >= UPDATE_DURATION && c2.now - c1.now >= UPDATE_DURATION
    ensures Effective([c0]) == [c0] && Log([c0]) == [Slot(0, 0)]
    ensures Effective([c0, c1]) == [c0, c1] && Log([c0, c1]) == [Slot(0, 0), Slot(1, 1)]
    ensures Effective([c0, c1, c2]) == [c0, c1, c2]
    ensures Log([c0, c1, c2]) == [Slot(0, 0), Slot(1, 1), Slot(2, 2)]
  {
    var e := [c0, c1, c2];
    assert e[..2] == [c0, c1] && [c0, c1][..1] == [c0] && [c0][..0] == [];
  }

  lemma ThreeCalls(c0: Call, c1: Call, c2: Call, s: OracleState)
    requires c0.now < c1.now < c2.now && Increasing([c0, c1, c2])
    requires Log([c0, c1, c2]) == [Slot(0, 0), Slot(1, 1), Slot(2, 2)] && Represents(s, [c0, c1, c2])
    ensures |s.observations| == OBSERVATION_NUM
    ensures var between := IntegralBetween([c0, c1, c2], Slot(0, 0), Slot(2, 2), true);
            && between == c1.price0 * (c1.now - c0.now) + c2.price0 * (c2.now - c1.now)
            && Difference(s, 0, 2, true) == between % (U128_MAX + 1)
  {
    hide Integral, Increasing, Log;
    var e, slots := [c0, c1, c2], Log([c0, c1, c2]);
    assert Shows(s, e, slots, 0) && Shows(s, e, slots, 2);
    IntegralOfThree(c0, c1, c2, Price0);
  }

  lemma IntegralOfThree(c0: Call, c1: Call, c2: Call, price: Call -> nat)
    requires Increasing([c0, c1, c2])
    ensures Integral([c0, c1, c2], 1, price) == 0
    ensures Integral([c0, c1, c2], 3, price) == price(c1) * (c1.now - c0.now) + price(c2) * (c2.now - c1.now)
  {
    assert Integral([c0, c1, c2], 2, price) == price(c1) * (c1.now - c0.now);
  }

  lemma {:induction false} SlotsInOrder(e: seq<Call>, slots: seq<Slot>, i: nat, j: nat)
    requires Shaped(e, slots) && i <= j < |slots|
    ensures slots[i].last <= slots[j].last < |e|
    ensures slots[i].first <= slots[j].first
  {
    assert Short(e, slots[j]);
    if i < j {
      SlotsInOrder(e, slots, i, j - 1);
      assert Follows(e, slots[j - 1], slots[j]);
    }
  }
}
