/** The probing send loop (packages/pay/src/senders/rate-probe.ts). */
module RateProbe {
  import opened Basics
  import opened Amounts
  import ER = ExchangeRate
  import MP = MaxPacket

  /** The fields of the sender. */
  datatype Probe = Probe(queue: seq<nat>, inFlight: set<nat>)

  datatype Report = Report(maxPacketAmount: nat, rate: ER.Interval)

  datatype Outcome = Running | Done(report: Report) | Failed

  /** A whole run: the sender, its controllers, the network and the scheduled attempts. */
  datatype Run = Run(probe: Probe, max: MP.State, rate: ER.Interval,
                     outstanding: multiset<nat>, attempts: nat, outcome: Outcome)

  datatype Event =
    | Attempt                                                           // a scheduled attempt to send
    | HeldBack                                                          // the pacer drops an attempt
    | Arrive(amount: nat, signal: MP.Signal, delivered: Option<nat>)    // a reply

  const TEST_AMOUNTS: seq<nat> :=
    [0, 1_000_000_000_000, 100_000_000_000, 10_000_000_000, 1_000_000_000, 100_000_000,
     10_000_000, 1_000_000, 100_000, 10_000, 1_000]

  function Start(): Run {
    Run(Probe(TEST_AMOUNTS, {}), MP.State(MP.Unknown, 0),
        ER.Interval(Ratio(0, 1), Ratio(MAX_U64, 1)), multiset{}, 1, Running)
  }

  /** The amount to send, if any, and the fields afterwards. */
  function NextProbe(p: Probe): (Probe, Option<nat>) {
    if p.queue == [] then (p, None)
    else
      var amount := p.queue[0];
      if amount in p.inFlight then (p.(queue := p.queue[1..]), None)
      else (Probe(p.queue[1..], p.inFlight + {amount}), Some(amount))
  }

  function Settle(p: Probe, amount: nat, max: MP.State): Probe {
    var next := MP.NextMax(max).GetOr(amount);
    Probe(if next in p.queue then p.queue else p.queue + [next], p.inFlight - {amount})
  }

  function Receive(s: Run, amount: nat, signal: MP.Signal, delivered: Option<nat>): Run {
    var (max, failed) := MP.Apply(s.max, MP.Reply(amount, signal));
    var rate := ER.Observe(s.rate, ER.Observation(amount, delivered));
    var complete := MP.ProbeComplete(max);
    Run(Settle(s.probe, amount, max), max, rate, s.outstanding - multiset{amount},
        if s.outcome.Running? && !failed && !complete then s.attempts + 1 else s.attempts,
        if !s.outcome.Running? then s.outcome
        else if failed then Failed
        else if complete then Done(Report(MP.LimitOf(max), rate))
        else Running)
  }

  function Step(s: Run, e: Event): Run {
    match e
    case Attempt =>
      if s.attempts == 0 || !s.outcome.Running? then s
      else
        var (probe, amount) := NextProbe(s.probe);
        if amount.None? then s.(probe := probe, attempts := s.attempts - 1)
        else s.(probe := probe, outstanding := s.outstanding + multiset{amount.value})
    case HeldBack =>
      if s.attempts == 0 || s.outstanding == multiset{} then s else s.(attempts := s.attempts - 1)
    case Arrive(amount, signal, delivered) =>
      if amount !in s.outstanding then s else Receive(s, amount, signal, delivered)
  }

  function Exec(s: Run, es: seq<Event>): Run {
    if es == [] then s else Step(Exec(s, es[..|es| - 1]), es[|es| - 1])
  }

  // ---- every run ----

  ghost predicate Sound(s: Run) {
    && s.outstanding == multiset(s.probe.inFlight)
    && (s.outcome.Running? ==> s.outstanding != multiset{} || (s.attempts > 0 && s.probe.queue != []))
  }

  lemma StepKeepsSound(s: Run, e: Event)
    requires Sound(s)
    ensures Sound(Step(s, e))
  {
    match e {
      case Attempt =>
        var (probe, amount) := NextProbe(s.probe);
        if s.probe.queue != [] && amount.None? {
          assert s.probe.queue[0] in s.outstanding;
        }
      case HeldBack =>
      case Arrive(amount, _, _) =>
        assert amount in s.outstanding ==>
          multiset(s.probe.inFlight) - multiset{amount} == multiset(s.probe.inFlight - {amount});
    }
  }

  /**
   * Whatever the replies and their order: an amount is never in flight twice, and a run
   * that has not ended always has a packet out or a scheduled attempt with something to send.
   */
  lemma {:induction false} ProbeNeverStuck(es: seq<Event>)
    ensures Sound(Exec(Start(), es))
  {
    if es != [] {
      ProbeNeverStuck(es[..|es| - 1]);
      StepKeepsSound(Exec(Start(), es[..|es| - 1]), es[|es| - 1]);
    }
  }

  // ---- runs over a path with one threshold and one rate ----

  /** The reply comes from a path that carries amounts up to `threshold` at rate `rate`. */
  ghost predicate Honest(e: Event, threshold: nat, rate: Ratio) {
    e.Arrive? ==>
      && e.signal == MP.PathReply(threshold, e.amount).signal
      && e.delivered == if e.amount <= threshold then Some(MulFloor(e.amount, rate)) else None
  }

  ghost predicate HonestRun(es: seq<Event>, threshold: nat, rate: Ratio) {
    forall e :: e in es ==> Honest(e, threshold, rate)
  }

  function ExpectedMax(threshold: nat): nat {
    if threshold < MP.MAX_PROBE_AMOUNT then threshold else MAX_U64
  }

  ghost predicate OnPath(s: Run, threshold: nat, rate: Ratio) {
    && MP.Brackets(s.max, threshold)
    && (!s.max.limit.Unknown? ==> s.max.limit.max < MP.MAX_PROBE_AMOUNT)
    && ER.Contains(s.rate, rate)
    && (forall a :: a in s.probe.queue ==> a <= MP.MAX_PROBE_AMOUNT)
    && (forall a :: a in s.outstanding ==> a <= MP.MAX_PROBE_AMOUNT)
    && !s.outcome.Failed?
    && (s.outcome.Done? ==>
          && s.outcome.report.maxPacketAmount == ExpectedMax(threshold)
          && ER.Contains(s.outcome.report.rate, rate))
  }

  lemma ReceiveKeepsOnPath(s: Run, amount: nat, threshold: nat, rate: Ratio)
    requires OnPath(s, threshold, rate) && 1 <= threshold && amount in s.outstanding
    ensures var e := MP.PathReply(threshold, amount).signal;
            var d := if amount <= threshold then Some(MulFloor(amount, rate)) else None;
            OnPath(Receive(s, amount, e, d), threshold, rate)
  {
    var signal := MP.PathReply(threshold, amount).signal;
    var d := if amount <= threshold then Some(MulFloor(amount, rate)) else None;
    var s' := Receive(s, amount, signal, d);
    MP.PathReplyKeepsBracket(s.max, threshold, amount);
    assert ER.Contains(s'.rate, rate) by {
      var o := ER.Observation(amount, d);
      ER.ConstantRateNeverResets(s.rate, [o], rate);
      assert ER.ObserveAll(s.rate, [o]) == ER.Observe(ER.ObserveAll(s.rate, [o][..0]), o);
    }
    if s'.max.limit.Imprecise? { MP.NextProbeInGap(s'.max); }
  }

  lemma StepKeepsOnPath(s: Run, e: Event, threshold: nat, rate: Ratio)
    requires OnPath(s, threshold, rate) && 1 <= threshold && Honest(e, threshold, rate)
    ensures OnPath(Step(s, e), threshold, rate)
  {
    if e.Arrive? && e.amount in s.outstanding {
      ReceiveKeepsOnPath(s, e.amount, threshold, rate);
    } else if e.Attempt? && s.probe.queue != [] {
      assert s.probe.queue == [s.probe.queue[0]] + s.probe.queue[1..];
      assert forall a :: a in s.probe.queue[1..] ==> a in s.probe.queue;
      assert s.probe.queue[0] in s.probe.queue;
    }
  }

  lemma {:induction false} RunStaysOnPath(es: seq<Event>, threshold: nat, rate: Ratio)
    requires 1 <= threshold <= MAX_U64 && Lt(rate, Ratio(MAX_U64, 1)) && HonestRun(es, threshold, rate)
    ensures OnPath(Exec(Start(), es), threshold, rate)
  {
    if es == [] {
      assert forall a :: a in TEST_AMOUNTS ==> a <= MP.MAX_PROBE_AMOUNT;
    } else {
      RunStaysOnPath(es[..|es| - 1], threshold, rate);
      StepKeepsOnPath(Exec(Start(), es[..|es| - 1]), es[|es| - 1], threshold, rate);
    }
  }

  /**
   * Over such a path, in any reply order, the probe never fails, and when it completes it reports
   * the exact threshold (or no limit, if the largest test packet got through) and a rate interval
   * around the real rate.
   */
  lemma ProbeReportsThePath(es: seq<Event>, threshold: nat, rate: Ratio)
    requires 1 <= threshold <= MAX_U64 && Lt(rate, Ratio(MAX_U64, 1)) && HonestRun(es, threshold, rate)
    ensures var outcome := Exec(Start(), es).outcome;
            match outcome
            case Running => true
            case Failed => false
            case Done(report) =>
              && report.maxPacketAmount == ExpectedMax(threshold)
              && ER.Contains(report.rate, rate)
  {
    RunStaysOnPath(es, threshold, rate);
  }

  /** The sender object. */
  class RateProbeSender {
    var remainingTestAmounts: seq<nat>
    var inFlightAmounts: set<nat>
    const maxPacketController: MP.MaxPacketAmountController

    function View(): Probe
      reads this
    {
      Probe(remainingTestAmounts, inFlightAmounts)
    }

    constructor (controller: MP.MaxPacketAmountController)
      ensures View() == Start().probe && maxPacketController == controller
    {
      remainingTestAmounts, inFlightAmounts := TEST_AMOUNTS, {};
      maxPacketController := controller;
    }

    /** Yields nothing, or commits to a test packet. */
    method NextState() returns (amount: Option<nat>)
      modifies this
      ensures (View(), amount) == NextProbe(old(View()))
    {
      if remainingTestAmounts == [] {
        return None;
      }
      var probeAmount := remainingTestAmounts[0];
      remainingTestAmounts := remainingTestAmounts[1..];
      if probeAmount in inFlightAmounts {
        return None;
      }
      inFlightAmounts := inFlightAmounts + {probeAmount};
      return Some(probeAmount);
    }

    method ApplyReply(probeAmount: nat) returns (complete: bool)
      requires this as object != maxPacketController
      modifies this
      ensures View() == Settle(old(View()), probeAmount, old(maxPacketController.View()))
      ensures complete == MP.ProbeComplete(maxPacketController.View())
      ensures maxPacketController.View() == old(maxPacketController.View())
    {
      inFlightAmounts := inFlightAmounts - {probeAmount};
      var next := MP.NextMax(maxPacketController.View()).GetOr(probeAmount);
      if next !in remainingTestAmounts {
        remainingTestAmounts := remainingTestAmounts + [next];
      }
      complete := MP.ProbeComplete(maxPacketController.View());
    }
  }
}
