/** An honest probe ends: a bound on its replies (packages/pay/src/senders/rate-probe.ts:81-116). */
module ProbeProgress {
  import opened Basics
  import opened Amounts
  import opened RateProbe
  import MP = MaxPacket

  /** Packets that are in flight or queued: eleven at first, and never more. */
  function Jobs(s: Run): nat {
    |s.probe.queue| + |s.probe.inFlight|
  }

  const MAX_JOBS: nat := 11

  ghost predicate Active(s: Run) {
    && Sound(s)
    && Jobs(s) <= MAX_JOBS
    && (s.outcome.Running? ==> !MP.ProbeComplete(s.max))
  }

  lemma StepKeepsActive(s: Run, e: Event)
    requires Active(s)
    ensures Active(Step(s, e)) && (Step(s, e).outcome.Running? ==> s.outcome.Running?)
  {
    StepKeepsSound(s, e);
    if e.Attempt? && s.probe.queue != [] {
      var amount := s.probe.queue[0];
      assert amount !in s.probe.inFlight ==> |s.probe.inFlight + {amount}| == |s.probe.inFlight| + 1;
    }
    if e.Arrive? && e.amount in s.outstanding {
      assert e.amount in s.probe.inFlight;
      assert |s.probe.inFlight - {e.amount}| == |s.probe.inFlight| - 1;
    }
  }

  // ---- what an answer to an amount is worth ----

  /** Whichever way the path answers this amount, the gap falls below 2^(k - 1). */
  predicate Splits(max: MP.State, amount: nat, k: nat) {
    k > 0 && MP.LimitOf(max) < amount + Pow2(k - 1) && amount <= max.capacity + Pow2(k - 1)
  }

  lemma AnswerSplits(max: MP.State, threshold: nat, amount: nat, k: nat)
    requires MP.Encloses(max, threshold) && 1 <= threshold && !max.limit.Unknown? && Splits(max, amount, k)
    ensures MP.Gap(MP.Apply(max, MP.PathReply(threshold, amount)).0) < Pow2(k - 1)
  {
  }

  /** The next probe of a search is such an amount, and stays one as the search goes on. */
  lemma NextProbeSplits(max: MP.State, k: nat)
    requires MP.Valid(max) && max.limit.Imprecise? && MP.Gap(max) < Pow2(k)
    ensures k > 0 && Splits(max, MP.NextMax(max).value, k)
  {
    assert MP.Gap(max) > 0;
  }

  lemma SplitsStays(max: MP.State, threshold: nat, answered: nat, amount: nat, k: nat)
    requires MP.Encloses(max, threshold) && 1 <= threshold && !max.limit.Unknown? && Splits(max, amount, k)
    ensures Splits(MP.Apply(max, MP.PathReply(threshold, answered)).0, amount, k)
  {
  }

  // ---- jobs from before the current halving ----

  function StaleQueued(queue: seq<nat>, max: MP.State, k: nat): (n: nat)
    ensures n <= |queue|
  {
    if queue == [] then 0 else (if Splits(max, queue[0], k) then 0 else 1) + StaleQueued(queue[1..], max, k)
  }

  function StaleOf(amounts: set<nat>, max: MP.State, k: nat): set<nat> {
    set a | a in amounts && !Splits(max, a, k)
  }

  function Stale(s: Run, k: nat): nat {
    StaleQueued(s.probe.queue, s.max, k) + |StaleOf(s.probe.inFlight, s.max, k)|
  }

  lemma StaleAtMostJobs(s: Run, k: nat)
    ensures Stale(s, k) <= Jobs(s)
  {
    SubsetSize(StaleOf(s.probe.inFlight, s.max, k), s.probe.inFlight);
  }

  lemma {:induction false} SubsetSize(xs: set<nat>, ys: set<nat>)
    requires xs <= ys
    ensures |xs| <= |ys|
  {
    if xs != {} {
      var x :| x in xs;
      SubsetSize(xs - {x}, ys - {x});
    }
  }

  lemma {:induction false} StaleQueuedSnoc(queue: seq<nat>, amount: nat, max: MP.State, k: nat)
    requires Splits(max, amount, k)
    ensures StaleQueued(queue + [amount], max, k) == StaleQueued(queue, max, k)
  {
    if queue == [] {
      assert [] + [amount] == [amount];
    } else {
      StaleQueuedSnoc(queue[1..], amount, max, k);
      assert (queue + [amount])[1..] == queue[1..] + [amount];
    }
  }

  lemma {:induction false} StaleQueuedShrinks(queue: seq<nat>, max: MP.State, threshold: nat, answered: nat, k: nat)
    requires MP.Encloses(max, threshold) && 1 <= threshold && !max.limit.Unknown?
    ensures StaleQueued(queue, MP.Apply(max, MP.PathReply(threshold, answered)).0, k) <= StaleQueued(queue, max, k)
  {
    if queue != [] {
      StaleQueuedShrinks(queue[1..], max, threshold, answered, k);
      if Splits(max, queue[0], k) { SplitsStays(max, threshold, answered, queue[0], k); }
    }
  }

  lemma StaleOfShrinks(amounts: set<nat>, max: MP.State, threshold: nat, answered: nat, k: nat)
    requires MP.Encloses(max, threshold) && 1 <= threshold && !max.limit.Unknown?
    requires answered in amounts && !Splits(max, answered, k)
    ensures var max' := MP.Apply(max, MP.PathReply(threshold, answered)).0;
            |StaleOf(amounts - {answered}, max', k)| < |StaleOf(amounts, max, k)|
  {
    var max' := MP.Apply(max, MP.PathReply(threshold, answered)).0;
    var before, after := StaleOf(amounts, max, k), StaleOf(amounts - {answered}, max', k);
    forall a | a in after ensures a in before - {answered} {
      if Splits(max, a, k) { SplitsStays(max, threshold, answered, a, k); }
    }
    SubsetSize(after, before - {answered});
    assert |before - {answered}| == |before| - 1;
  }

  // ---- every reply makes progress ----

  ghost predicate Searching(s: Run, threshold: nat, rate: Ratio) {
    Active(s) && OnPath(s, threshold, rate) && 1 <= threshold && !s.max.limit.Unknown?
  }

  lemma StepKeepsSearching(s: Run, e: Event, threshold: nat, rate: Ratio)
    requires Searching(s, threshold, rate) && Honest(e, threshold, rate)
    ensures Searching(Step(s, e), threshold, rate)
  {
    StepKeepsActive(s, e);
    StepKeepsOnPath(s, e, threshold, rate);
    if e.Arrive? && e.amount in s.outstanding { MP.PathReplyKeepsBracket(s.max, threshold, e.amount); }
  }

  predicate IsReply(s: Run, e: Event) {
    e.Arrive? && e.amount in s.outstanding
  }

  /** A reply halves the gap, or uses up a job from before the last halving; nothing adds such a job. */
  ghost predicate Progresses(s: Run, s': Run, k: nat) {
    MP.Gap(s'.max) < Pow2(k) && (Stale(s', k) < Stale(s, k) || (k > 0 && MP.Gap(s'.max) < Pow2(k - 1)))
  }

  lemma ReplyProgresses(s: Run, e: Event, threshold: nat, rate: Ratio, k: nat)
    requires Searching(s, threshold, rate) && Honest(e, threshold, rate) && IsReply(s, e) && MP.Gap(s.max) < Pow2(k)
    requires Step(s, e).outcome.Running?
    ensures Progresses(s, Step(s, e), k)
  {
    var s' := Step(s, e);
    StepKeepsSearching(s, e, threshold, rate);
    MP.PathReplyKeepsBracket(s.max, threshold, e.amount);
    assert s'.max == MP.Apply(s.max, MP.PathReply(threshold, e.amount)).0;
    if Splits(s.max, e.amount, k) {
      AnswerSplits(s.max, threshold, e.amount, k);
    } else {
      StaleOfShrinks(s.probe.inFlight, s.max, threshold, e.amount, k);
      StaleQueuedShrinks(s.probe.queue, s.max, threshold, e.amount, k);
      NextProbeSplits(s'.max, k);
      StaleQueuedSnoc(s.probe.queue, MP.NextMax(s'.max).value, s'.max, k);
    }
  }

  lemma OtherStepsAddNothing(s: Run, e: Event, k: nat)
    requires !IsReply(s, e)
    ensures Step(s, e).max == s.max && Stale(Step(s, e), k) <= Stale(s, k)
  {
    if e.Attempt? && s.probe.queue != [] {
      var amount, inFlight := s.probe.queue[0], s.probe.inFlight;
      var more := StaleOf(inFlight + {amount}, s.max, k);
      if Splits(s.max, amount, k) {
        assert more == StaleOf(inFlight, s.max, k);
      } else {
        assert more == StaleOf(inFlight, s.max, k) + {amount};
      }
    }
  }

  // ---- whole runs ----

  function Replies(s: Run, es: seq<Event>): nat {
    if es == [] then 0
    else
      var init, last := es[..|es| - 1], es[|es| - 1];
      Replies(s, init) + (if IsReply(Exec(s, init), last) then 1 else 0)
  }

  /** Halvings still to come, each worth all the jobs and one more reply, and the jobs from before the last one. */
  function Potential(s: Run, k: nat): nat {
    (MAX_JOBS + 1) * k + Stale(s, k)
  }

  /** Each reply of a running search takes at least one from the potential. */
  lemma {:induction false} RepliesUsePotential(s: Run, es: seq<Event>, threshold: nat, rate: Ratio, k: nat)
    returns (k': nat)
    requires Searching(s, threshold, rate) && HonestRun(es, threshold, rate) && MP.Gap(s.max) < Pow2(k)
    ensures var s' := Exec(s, es);
            && Searching(s', threshold, rate)
            && (s'.outcome.Running? ==>
                  MP.Gap(s'.max) < Pow2(k') && Potential(s', k') + Replies(s, es) <= Potential(s, k))
  {
    if es == [] {
      k' := k;
    } else {
      var init, last := es[..|es| - 1], es[|es| - 1];
      k' := RepliesUsePotential(s, init, threshold, rate, k);
      var t := Exec(s, init);
      StepKeepsActive(t, last);
      StepKeepsSearching(t, last, threshold, rate);
      if Step(t, last).outcome.Running? {
        k' := StepUsesPotential(t, last, threshold, rate, k');
      }
    }
  }

  lemma StepUsesPotential(s: Run, e: Event, threshold: nat, rate: Ratio, k: nat) returns (k': nat)
    requires Searching(s, threshold, rate) && Honest(e, threshold, rate) && MP.Gap(s.max) < Pow2(k)
    requires Step(s, e).outcome.Running?
    ensures MP.Gap(Step(s, e).max) < Pow2(k')
    ensures Potential(Step(s, e), k') + (if IsReply(s, e) then 1 else 0) <= Potential(s, k)
  {
    k' := k;
    if IsReply(s, e) {
      ReplyProgresses(s, e, threshold, rate, k);
      if Stale(Step(s, e), k) >= Stale(s, k) {
        k' := k - 1;
        StepKeepsActive(s, e);
        StaleAtMostJobs(Step(s, e), k');
      }
    } else {
      OtherStepsAddNothing(s, e, k);
    }
  }

  lemma {:induction false} EveryRunIsActive(es: seq<Event>)
    ensures Active(Exec(Start(), es))
  {
    if es != [] {
      EveryRunIsActive(es[..|es| - 1]);
      StepKeepsActive(Exec(Start(), es[..|es| - 1]), es[|es| - 1]);
    }
  }

  lemma {:induction false} ExecConcat(s: Run, es: seq<Event>, fs: seq<Event>)
    ensures Exec(s, es + fs) == Exec(Exec(s, es), fs)
    decreases fs
  {
    if fs == [] {
      assert es + fs == es;
    } else {
      ExecConcat(s, es, fs[..|fs| - 1]);
      assert (es + fs)[..|es + fs| - 1] == es + fs[..|fs| - 1];
    }
  }

  /** Forty halvings close any gap below the largest test amount, and each takes at most twelve replies. */
  const MAX_REPLIES: nat := 480

  lemma LargestGap()
    ensures MP.MAX_PROBE_AMOUNT <= Pow2(40)
  {
    assert Pow2(8) == 0x100;
    assert Pow2(16) == 0x1_0000;
    assert Pow2(24) == 0x100_0000;
    assert Pow2(32) == 0x1_0000_0000;
  }

  lemma SearchEnds(s: Run, fs: seq<Event>, threshold: nat, rate: Ratio)
    requires Searching(s, threshold, rate) && HonestRun(fs, threshold, rate)
    ensures Exec(s, fs).outcome.Running? ==> Replies(s, fs) < MAX_REPLIES
  {
    GapBelow(s, threshold, rate);
    var k := RepliesUsePotential(s, fs, threshold, rate, 40);
    StaleAtMostJobs(s, 40);
    if Exec(s, fs).outcome.Running? { StillSearching(Exec(s, fs), threshold, rate, k); }
  }

  lemma GapBelow(s: Run, threshold: nat, rate: Ratio)
    requires Searching(s, threshold, rate)
    ensures MP.Gap(s.max) < Pow2(40)
  {
    LargestGap();
  }

  /** A search that still runs has a gap to close. */
  lemma StillSearching(s: Run, threshold: nat, rate: Ratio, k: nat)
    requires Searching(s, threshold, rate) && s.outcome.Running? && MP.Gap(s.max) < Pow2(k)
    ensures k > 0
  {
    assert MP.Gap(s.max) > 0;
  }

  /** The answer to the largest test packet ends the probe or starts the search. */
  lemma LargestReplyDecides(s: Run, e: Event, threshold: nat, rate: Ratio)
    requires OnPath(s, threshold, rate) && 1 <= threshold && Honest(e, threshold, rate)
    requires IsReply(s, e) && e.amount == MP.MAX_PROBE_AMOUNT
    ensures !Step(s, e).outcome.Running? || !Step(s, e).max.limit.Unknown?
  {
  }

  /**
   * Over an honest path a probe that is still running has had fewer than 480 replies since the one to its largest
   * packet, or since the first F08, in whatever order they came.
   */
  lemma ProbeEnds(es: seq<Event>, fs: seq<Event>, threshold: nat, rate: Ratio)
    requires 1 <= threshold <= MAX_U64 && Lt(rate, Ratio(MAX_U64, 1)) && HonestRun(es + fs, threshold, rate)
    requires es != [] && IsReply(Exec(Start(), es[..|es| - 1]), es[|es| - 1])
    requires es[|es| - 1].amount == MP.MAX_PROBE_AMOUNT || !Exec(Start(), es).max.limit.Unknown?
    ensures Exec(Start(), es + fs).outcome.Running? ==> Replies(Exec(Start(), es), fs) < MAX_REPLIES
  {
    var init, last := es[..|es| - 1], es[|es| - 1];
    HonestParts(es, fs, threshold, rate);
    HonestParts(init, [last], threshold, rate);
    assert init + [last] == es;
    RunStaysOnPath(init, threshold, rate);
    RunStaysOnPath(es, threshold, rate);
    EveryRunIsActive(es);
    ExecConcat(Start(), es, fs);
    if last.amount == MP.MAX_PROBE_AMOUNT { LargestReplyDecides(Exec(Start(), init), last, threshold, rate); }
    if Exec(Start(), es).max.limit.Unknown? {
      StaysEnded(Exec(Start(), es), fs);
    } else {
      SearchEnds(Exec(Start(), es), fs, threshold, rate);
    }
  }

  lemma HonestParts(es: seq<Event>, fs: seq<Event>, threshold: nat, rate: Ratio)
    requires HonestRun(es + fs, threshold, rate)
    ensures HonestRun(es, threshold, rate) && HonestRun(fs, threshold, rate)
  {
    assert forall e :: e in es || e in fs ==> e in es + fs;
  }

  lemma {:induction false} StaysEnded(s: Run, es: seq<Event>)
    requires !s.outcome.Running?
    ensures Exec(s, es).outcome == s.outcome
  {
    if es != [] { StaysEnded(s, es[..|es| - 1]); }
  }
}
