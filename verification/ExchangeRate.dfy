/** The learned exchange-rate interval and its estimators (packages/pay/src/controllers/exchange-rate.ts). */
module ExchangeRate {
  import opened Basics
  import opened Amounts

  /** Rates `r` with `lower <= r < upper`. */
  datatype Interval = Interval(lower: Ratio, upper: PositiveRatio)

  /** A reply to a packet of `source` units; `delivered` is absent when the reply is not authentic. */
  datatype Observation = Observation(source: nat, delivered: Option<nat>)

  ghost predicate Contains(i: Interval, r: Ratio) {
    Le(i.lower, r) && Lt(r, i.upper)
  }

  predicate NonEmpty(i: Interval) {
    Lt(i.lower, i.upper)
  }

  predicate Ignored(o: Observation) {
    o.source == 0 || o.delivered.None?
  }

  /** The interval that a single packet pins the rate to. */
  function PacketInterval(o: Observation): Interval
    requires !Ignored(o)
  {
    Interval(Ratio(o.delivered.value, o.source), Ratio(o.delivered.value + 1, o.source))
  }

  /** The rate moved: the packet's interval and the learned one are disjoint. */
  predicate Resets(i: Interval, o: Observation) {
    !Ignored(o) &&
    (Le(PacketInterval(o).upper, i.lower) || Le(i.upper, PacketInterval(o).lower))
  }

  function Observe(i: Interval, o: Observation): Interval {
    if Ignored(o) then i
    else if Resets(i, o) then PacketInterval(o)
    else
      var p := PacketInterval(o);
      Interval(if Lt(i.lower, p.lower) then p.lower else i.lower,
               if Lt(p.upper, i.upper) then p.upper else i.upper)
  }

  function ObserveAll(i: Interval, os: seq<Observation>): Interval {
    if os == [] then i else Observe(ObserveAll(i, os[..|os| - 1]), os[|os| - 1])
  }

  /** Intermediaries floor: a constant rate `r` explains a reply of `floor(source * r)`. */
  ghost predicate Explains(r: Ratio, o: Observation) {
    Ignored(o) || MulFloor(o.source, r) == o.delivered.value
  }

  // ---- the interval over any sequence of replies ----

  lemma ObserveNonEmpty(i: Interval, o: Observation)
    requires NonEmpty(i)
    ensures NonEmpty(Observe(i, o))
  {
  }

  lemma {:induction false} StaysNonEmpty(i: Interval, os: seq<Observation>)
    requires NonEmpty(i)
    ensures NonEmpty(ObserveAll(i, os))
  {
    if os != [] {
      StaysNonEmpty(i, os[..|os| - 1]);
      ObserveNonEmpty(ObserveAll(i, os[..|os| - 1]), os[|os| - 1]);
    }
  }

  /** A packet's interval holds exactly the rates that floor to what it delivered. */
  lemma PacketIntervalExact(o: Observation, r: Ratio)
    requires !Ignored(o)
    ensures Contains(PacketInterval(o), r) <==> Explains(r, o)
  {
    var d, s := o.delivered.value, o.source;
    MulFloorAdjoint(d, s, r);
    MulFloorAdjoint(d + 1, s, r);
  }

  /** Without a reset, an observation intersects the interval with the rates that explain it. */
  lemma ObserveIntersects(i: Interval, o: Observation, r: Ratio)
    requires !Resets(i, o)
    ensures Contains(Observe(i, o), r) <==> Contains(i, r) && Explains(r, o)
  {
    if !Ignored(o) {
      var p := PacketInterval(o);
      PacketIntervalExact(o, r);
      if Lt(i.lower, p.lower) {
        if Le(p.lower, r) { LeTrans(i.lower, p.lower, r); }
      } else if Le(i.lower, r) {
        LeTrans(p.lower, i.lower, r);
      }
      if Lt(p.upper, i.upper) {
        if Lt(r, p.upper) { LtLeTrans(r, p.upper, i.upper); }
      } else if Lt(r, i.upper) {
        LtLeTrans(r, i.upper, p.upper);
      }
    }
  }

  /** Index of the last observation that reset the interval, if any. */
  function LastReset(i: Interval, os: seq<Observation>): (k: Option<nat>)
    ensures k.Some? ==> k.value < |os|
  {
    if os == [] then None
    else if Resets(ObserveAll(i, os[..|os| - 1]), os[|os| - 1]) then Some(|os| - 1)
    else LastReset(i, os[..|os| - 1])
  }

  ghost predicate ExplainsAll(r: Ratio, os: seq<Observation>) {
    forall o :: o in os ==> Explains(r, o)
  }

  /** The rates the learned interval stands for: those that explain every reply since the last reset. */
  ghost predicate Consistent(i: Interval, os: seq<Observation>, r: Ratio) {
    match LastReset(i, os)
    case None => Contains(i, r) && ExplainsAll(r, os)
    case Some(k) => ExplainsAll(r, os[k..])
  }

  lemma ExplainsAllSnoc(r: Ratio, os: seq<Observation>, k: nat)
    requires k < |os|
    ensures ExplainsAll(r, os[k..]) <==> ExplainsAll(r, os[..|os| - 1][k..]) && Explains(r, os[|os| - 1])
  {
  }

  /** The learned interval is exactly the set of rates consistent with the history. */
  lemma {:induction false} IntervalIsExact(i: Interval, os: seq<Observation>, r: Ratio)
    ensures Contains(ObserveAll(i, os), r) <==> Consistent(i, os, r)
  {
    if os != [] {
      var init, last := os[..|os| - 1], os[|os| - 1];
      var before := ObserveAll(i, init);
      if Resets(before, last) {
        PacketIntervalExact(last, r);
        assert os[|os| - 1..] == [last];
      } else {
        IntervalIsExact(i, init, r);
        ObserveIntersects(before, last, r);
        match LastReset(i, os) {
          case None =>
            ExplainsAllSnoc(r, os, 0);
            assert os[0..] == os && init[0..] == init;
          case Some(k) => ExplainsAllSnoc(r, os, k);
        }
      }
    }
  }

  /** With one constant rate inside the initial interval nothing ever resets and the rate stays inside. */
  lemma {:induction false} ConstantRateNeverResets(i: Interval, os: seq<Observation>, r: Ratio)
    requires Contains(i, r) && ExplainsAll(r, os)
    ensures LastReset(i, os).None? && Contains(ObserveAll(i, os), r)
  {
    if os != [] {
      var init, last := os[..|os| - 1], os[|os| - 1];
      ConstantRateNeverResets(i, init, r);
      var before := ObserveAll(i, init);
      assert Explains(r, last);
      if Resets(before, last) {
        var p := PacketInterval(last);
        PacketIntervalExact(last, r);
        if Le(p.upper, before.lower) {
          LeTrans(p.upper, before.lower, r);
        } else {
          LeTrans(before.upper, p.lower, r);
        }
        assert false;
      }
      ObserveIntersects(before, last, r);
    }
  }

  // ---- the estimators ----

  function LowDestination(i: Interval, source: nat): nat {
    Min(MulFloor(source, i.lower), MAX_U64)
  }

  function HighDestination(i: Interval, source: nat): nat {
    Min(SatSub(MulCeil(source, i.upper), 1), MAX_U64)
  }

  /** What a path of rate `r` credits, capped at the largest packet amount. */
  function Delivers(source: nat, r: Ratio): nat {
    Min(MulFloor(source, r), MAX_U64)
  }

  /** Least source amount that may deliver the target, and least that must. */
  function EstimateSource(i: Interval, target: nat): Option<(nat, nat)> {
    match Reciprocal(i.lower)
    case None => None
    case Some(inverse) =>
      Some((MulFloor(target, Ratio(i.upper.b, i.upper.a)) + 1, MulCeil(target, inverse)))
  }

  lemma HighIsLargest(i: Interval, source: nat, r: Ratio)
    requires Lt(r, i.upper)
    ensures MulFloor(source, r) <= SatSub(MulCeil(source, i.upper), 1)
  {
    var d, c := MulFloor(source, r), MulCeil(source, i.upper);
    MulFloorAdjoint(d, source, r);
    MulCeilAdjoint(c, source, i.upper);
    if source == 0 {
      MulFloorAdjoint(1, source, r);
    } else if c <= d {
      MulMonotone(c, d, i.upper.b);
      // d/source <= r < upper <= d/source
      var q := Ratio(d, source);
      LeLtTrans(q, r, i.upper);
      assert false;
    }
  }

  lemma DestinationEstimateSound(i: Interval, source: nat, r: Ratio)
    requires Contains(i, r)
    ensures LowDestination(i, source) <= Delivers(source, r) <= HighDestination(i, source)
  {
    MulFloorMonotone(source, i.lower, r);
    HighIsLargest(i, source, r);
  }

  /** Both destination estimates are attained by rates of the interval. */
  lemma DestinationEstimateTight(i: Interval, source: nat) returns (low: Ratio, high: Ratio)
    requires NonEmpty(i)
    ensures Contains(i, low) && Delivers(source, low) == LowDestination(i, source)
    ensures Contains(i, high) && Delivers(source, high) == HighDestination(i, source)
  {
    low, high := i.lower, i.lower;
    HighIsLargest(i, source, i.lower);
    var top := SatSub(MulCeil(source, i.upper), 1);
    if source > 0 && MulFloor(source, i.lower) < top {
      high := Ratio(top, source);
      MulFloorAdjoint(top, source, i.lower);
      MulCeilAdjoint(top, source, i.upper);
      MulFloorAdjoint(top, source, high);
      MulFloorAdjoint(top + 1, source, high);
      assert top * source < (top + 1) * source;
    } else if source == 0 {
      MulCeilAdjoint(0, source, i.upper);
    }
  }

  /** At every rate of the interval this amount delivers the target. */
  ghost predicate AlwaysDelivers(i: Interval, target: nat, source: nat) {
    forall r :: Contains(i, r) ==> target <= MulFloor(source, r)
  }

  /** There is an estimate exactly when some amount delivers the target at every rate of the interval. */
  lemma EstimateExistsIff(i: Interval, target: nat)
    requires NonEmpty(i) && target > 0
    ensures EstimateSource(i, target).Some? <==> exists source: nat :: AlwaysDelivers(i, target, source)
  {
    if EstimateSource(i, target).Some? {
      HighSourceIsLeastSufficient(i, target, EstimateSource(i, target).value.1);
      assert AlwaysDelivers(i, target, EstimateSource(i, target).value.1);
    } else {
      forall source: nat ensures !AlwaysDelivers(i, target, source) {
        MulFloorAdjoint(target, source, i.lower);
        assert Contains(i, i.lower);
      }
    }
  }

  /** The high source estimate: the least amount that every rate of the interval turns into the target. */
  lemma HighSourceIsLeastSufficient(i: Interval, target: nat, source: nat)
    requires NonEmpty(i) && EstimateSource(i, target).Some?
    ensures EstimateSource(i, target).value.1 <= source <==> AlwaysDelivers(i, target, source)
  {
    var inverse := Ratio(i.lower.b, i.lower.a);
    MulCeilAdjoint(source, target, inverse);
    MulFloorAdjoint(target, source, i.lower);
    if target <= MulFloor(source, i.lower) {
      forall r | Contains(i, r) ensures target <= MulFloor(source, r) {
        MulFloorMonotone(source, i.lower, r);
      }
    } else {
      assert Contains(i, i.lower);
    }
  }

  /** The low source estimate: the least amount that some rate of the interval turns into the target. */
  lemma LowSourceIsLeastPossible(i: Interval, target: nat, source: nat)
    requires NonEmpty(i) && EstimateSource(i, target).Some? && target > 0
    ensures EstimateSource(i, target).value.0 <= source
            <==> exists r :: Contains(i, r) && target <= MulFloor(source, r)
  {
    var inverse := Ratio(i.upper.b, i.upper.a);
    MulFloorAdjoint(source, target, inverse);
    // the estimate is at most `source` exactly when source * upper exceeds the target
    if target * i.upper.b < source * i.upper.a {
      var r := SomeRateDelivers(i, target, source);
    } else {
      forall r | Contains(i, r) ensures MulFloor(source, r) < target {
        MulFloorAdjoint(target, source, r);
        if target * r.b <= source * r.a {
          assert target * r.b > 0;
          if source > 0 {
            LeLtTrans(Ratio(target, source), r, i.upper);
          }
          assert false;
        }
      }
    }
  }

  lemma SomeRateDelivers(i: Interval, target: nat, source: nat) returns (r: Ratio)
    requires NonEmpty(i) && target * i.upper.b < source * i.upper.a
    ensures Contains(i, r) && target <= MulFloor(source, r)
  {
    assert source > 0 by {
      assert source == 0 ==> source * i.upper.a == 0;
    }
    var exact := Ratio(target, source);
    r := if Le(i.lower, exact) then exact else i.lower;
    MulFloorAdjoint(target, source, r);
  }

  /** The controller object: each reply updates the two bounds in place. */
  class ExchangeRateController {
    var lowerBoundRate: Ratio
    var upperBoundRate: PositiveRatio

    function View(): Interval
      reads this
    {
      Interval(lowerBoundRate, upperBoundRate)
    }

    constructor (lower: Ratio := Ratio(0, 1), upper: PositiveRatio := Ratio(MAX_U64, 1))
      ensures View() == Interval(lower, upper)
    {
      lowerBoundRate, upperBoundRate := lower, upper;
    }

    method ApplyReply(sourceAmount: nat, destinationAmount: Option<nat>)
      modifies this
      ensures View() == Observe(old(View()), Observation(sourceAmount, destinationAmount))
      ensures old(NonEmpty(View())) ==> NonEmpty(View())
    {
      ghost var o := Observation(sourceAmount, destinationAmount);
      if old(NonEmpty(View())) {
        ObserveNonEmpty(View(), o);
      }
      if sourceAmount == 0 || destinationAmount.None? {
        return;
      }
      var packetUpper := Ratio(destinationAmount.value + 1, sourceAmount);
      var packetLower := Ratio(destinationAmount.value, sourceAmount);
      if Le(packetUpper, lowerBoundRate) || Le(upperBoundRate, packetLower) {
        upperBoundRate := packetUpper;
        lowerBoundRate := packetLower;
        return;
      }
      if Lt(lowerBoundRate, packetLower) {
        lowerBoundRate := packetLower;
      }
      if Lt(packetUpper, upperBoundRate) {
        upperBoundRate := packetUpper;
      }
    }
  }
}
