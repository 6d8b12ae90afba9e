/** Discovery of the path's maximum packet amount (packages/pay/src/controllers/max-packet.ts). */
module MaxPacket {
  import opened Basics
  import opened Amounts

  datatype Limit = Unknown | Precise(max: nat) | Imprecise(max: nat)

  datatype State = State(limit: Limit, capacity: nat)

  /** The two amounts an F08 reject may carry. */
  datatype Metadata = Metadata(received: nat, maximum: nat)

  /** What a reply tells about the packet size. */
  datatype Signal = TooLarge(metadata: Option<Metadata>) | Authentic | Unauthenticated

  datatype Reply = Reply(source: nat, signal: Signal)

  /** Largest test packet amount of the rate probe (packages/pay/src/senders/rate-probe.ts:27). */
  const MAX_PROBE_AMOUNT: nat := 1_000_000_000_000

  function LimitOf(s: State): nat {
    if s.limit.Unknown? then MAX_U64 else s.limit.max
  }

  function NextMax(s: State): Option<nat> {
    match s.limit
    case Precise(max) => Some(max)
    case Imprecise(max) => Some(DivideCeil(SatSub(max, s.capacity), 2) + s.capacity)
    case Unknown => None
  }

  predicate ProbeComplete(s: State) {
    || (s.limit.Precise? && s.capacity == s.limit.max)
    || (s.limit.Unknown? && s.capacity >= MAX_PROBE_AMOUNT)
  }

  function AdjustCapacity(s: State, ack: nat): State {
    var capacity := Min(Max(s.capacity, ack), LimitOf(s));
    if s.limit.Imprecise? && capacity == s.limit.max then State(Precise(s.limit.max), capacity)
    else State(s.limit, capacity)
  }

  /** The maximum an F08 implies, or nothing when the F08 contradicts itself. */
  function ImpliedMax(metadata: Option<Metadata>, source: nat): Option<nat> {
    match metadata
    case None => Some(SatSub(source, 1))
    case Some(m) =>
      if m.received <= m.maximum then None
      else Some(MulFloor(m.maximum, Ratio(source, m.received)))
  }

  /** The new state, and whether the path turned out unable to carry anything. */
  function Reduce(s: State, metadata: Option<Metadata>, source: nat): (State, bool) {
    match ImpliedMax(metadata, source)
    case None => (s, false)
    case Some(newMax) =>
      if newMax == 0 then (s, true)
      else if !s.limit.Unknown? && s.limit.max <= newMax then (s, false)
      else
        var limit := if metadata.Some? then Precise(newMax) else Imprecise(newMax);
        (AdjustCapacity(State(limit, s.capacity), s.capacity), false)
  }

  function Apply(s: State, r: Reply): (State, bool) {
    match r.signal
    case TooLarge(metadata) => Reduce(s, metadata, r.source)
    case Authentic => (AdjustCapacity(s, r.source), false)
    case Unauthenticated => (s, false)
  }

  function ApplyAll(s: State, rs: seq<Reply>): State
    decreases rs
  {
    if rs == [] then s else ApplyAll(Apply(s, rs[0]).0, rs[1..])
  }

  // ---- what every sequence of replies keeps ----

  ghost predicate Valid(s: State) {
    && s.capacity <= LimitOf(s)
    && (!s.limit.Unknown? ==> s.limit.max > 0)
    && (s.limit.Imprecise? ==> s.capacity < s.limit.max)
  }

  lemma ImpliedMaxAtMostSource(metadata: Option<Metadata>, source: nat)
    requires ImpliedMax(metadata, source).Some?
    ensures ImpliedMax(metadata, source).value <= source
  {
  }

  lemma ApplyKeepsValid(s: State, r: Reply)
    requires Valid(s) && r.source <= MAX_U64
    ensures Valid(Apply(s, r).0)
    ensures LimitOf(Apply(s, r).0) <= LimitOf(s)
  {
    if r.signal.TooLarge? && ImpliedMax(r.signal.metadata, r.source).Some? {
      ImpliedMaxAtMostSource(r.signal.metadata, r.source);
    }
  }

  /** For any replies the limit never rises and the verified capacity stays within it. */
  lemma {:induction false} LimitNeverRises(s: State, rs: seq<Reply>)
    requires Valid(s) && forall r :: r in rs ==> r.source <= MAX_U64
    ensures Valid(ApplyAll(s, rs))
    ensures LimitOf(ApplyAll(s, rs)) <= LimitOf(s)
    decreases rs
  {
    if rs != [] {
      ApplyKeepsValid(s, rs[0]);
      LimitNeverRises(Apply(s, rs[0]).0, rs[1..]);
    }
  }

  /** While the maximum is imprecise the next probe is new information: above the capacity, within the limit. */
  lemma NextProbeInGap(s: State)
    requires Valid(s) && s.limit.Imprecise?
    ensures NextMax(s).Some? && s.capacity < NextMax(s).value <= LimitOf(s)
  {
  }

  // ---- binary search over a path that carries exactly the amounts up to a threshold ----

  /** Reply of a path that accepts amounts up to `threshold` and sends F08s without metadata. */
  function PathReply(threshold: nat, source: nat): Reply {
    Reply(source, if source <= threshold then Authentic else TooLarge(None))
  }

  /** The threshold lies between the verified capacity and the limit. */
  ghost predicate Encloses(s: State, threshold: nat) {
    Valid(s) && s.capacity <= threshold <= LimitOf(s)
  }

  /** A precise maximum that was not reached yet, as in a payment that starts with the quoted maximum. */
  predicate Unverified(s: State) {
    s.limit.Precise? && s.capacity < s.limit.max
  }

  ghost predicate Brackets(s: State, threshold: nat) {
    Encloses(s, threshold) && !Unverified(s)
  }

  function Gap(s: State): nat {
    SatSub(LimitOf(s), s.capacity)
  }

  lemma PathReplyKeepsBracket(s: State, threshold: nat, source: nat)
    requires Encloses(s, threshold) && 1 <= threshold && (s.limit.Unknown? ==> source <= MAX_U64)
    ensures var (s', failed) := Apply(s, PathReply(threshold, source));
            && !failed && Encloses(s', threshold) && Gap(s') <= Gap(s)
            && (s'.limit.Unknown? ==> s.limit.Unknown?)
            && (Unverified(s') ==> Unverified(s))
            && (Unverified(s) && !Unverified(s') ==> Gap(s') < Gap(s))
  {
  }

  /** A reply to the probe amount halves the gap, or replaces an unverified maximum by a search below it. */
  lemma ProbeHalvesGap(s: State, threshold: nat)
    requires Encloses(s, threshold) && 1 <= threshold && !s.limit.Unknown?
    ensures var s' := Apply(s, PathReply(threshold, NextMax(s).value)).0;
            if Unverified(s) then !Unverified(s') && Gap(s') < Gap(s) else Gap(s') <= Gap(s) / 2
  {
  }

  /** A reply to the probe amount in force when it arrives, or to any other packet. */
  datatype Arrival = ToProbe | ToOther(source: nat)

  function Search(s: State, threshold: nat, es: seq<Arrival>): State
    decreases es
  {
    if es == [] then s
    else
      var source := match es[0]
                    case ToProbe => NextMax(s).GetOr(0)
                    case ToOther(amount) => amount;
      Search(Apply(s, PathReply(threshold, source)).0, threshold, es[1..])
  }

  function Probes(es: seq<Arrival>): nat {
    if es == [] then 0 else (if es[0].ToProbe? then 1 else 0) + Probes(es[1..])
  }

  /** As many probe replies as the binary search needs, and one more to give up an unverified maximum. */
  ghost predicate Enough(s: State, probes: nat) {
    if Unverified(s) then probes > 0 && Gap(s) <= Pow2(probes - 1) else Gap(s) < Pow2(probes)
  }

  /**
   * Whatever else arrives in between, after n replies to current probes a gap below 2^n
   * has closed and the controller knows the threshold precisely.
   */
  lemma {:induction false} SearchFindsThreshold(s: State, threshold: nat, es: seq<Arrival>)
    requires Encloses(s, threshold) && 1 <= threshold && !s.limit.Unknown? && Enough(s, Probes(es))
    ensures Search(s, threshold, es) == State(Precise(threshold), threshold)
    decreases es
  {
    if es != [] {
      var source := if es[0].ToProbe? then NextMax(s).value else es[0].source;
      PathReplyKeepsBracket(s, threshold, source);
      if es[0].ToProbe? { ProbeHalvesGap(s, threshold); }
      SearchFindsThreshold(Apply(s, PathReply(threshold, source)).0, threshold, es[1..]);
    }
  }

  /** A payment starts with the quoted maximum; when the path shrinks below it, the search finds the new threshold. */
  lemma ShrunkPathIsFound(quoted: nat, threshold: nat, es: seq<Arrival>)
    requires 1 <= threshold <= quoted && Probes(es) > 0 && quoted <= Pow2(Probes(es) - 1)
    ensures Search(State(Precise(quoted), 0), threshold, es) == State(Precise(threshold), threshold)
  {
    SearchFindsThreshold(State(Precise(quoted), 0), threshold, es);
  }

  /** The controller object. */
  class MaxPacketAmountController {
    var state: Limit
    var verifiedPathCapacity: nat

    function View(): State
      reads this
    {
      State(state, verifiedPathCapacity)
    }

    constructor (precise: Option<nat>)
      ensures View() == State(if precise.Some? then Precise(precise.value) else Unknown, 0)
    {
      state := if precise.Some? then Precise(precise.value) else Unknown;
      verifiedPathCapacity := 0;
    }

    method GetMaxPacketAmountLimit() returns (limit: nat)
      ensures limit == LimitOf(View())
    {
      match state {
        case Unknown => limit := MAX_U64;
        case Precise(max) => limit := max;
        case Imprecise(max) => limit := max;
      }
    }

    method ApplyReply(reply: Reply) returns (failed: bool)
      modifies this
      ensures (View(), failed) == Apply(old(View()), reply)
    {
      failed := false;
      match reply.signal {
        case TooLarge(metadata) => failed := ReduceMaxPacketAmount(metadata, reply.source);
        case Authentic => AdjustPathCapacity(reply.source);
        case Unauthenticated =>
      }
    }

    method ReduceMaxPacketAmount(metadata: Option<Metadata>, sourceAmount: nat) returns (failed: bool)
      modifies this
      ensures (View(), failed) == Reduce(old(View()), metadata, sourceAmount)
    {
      var newMax: nat;
      match metadata {
        case Some(m) =>
          if m.received <= m.maximum {
            return false;
          }
          newMax := MulFloor(m.maximum, Ratio(sourceAmount, m.received));
        case None => newMax := SatSub(sourceAmount, 1);
      }
      if newMax == 0 {
        return true;
      }
      if !state.Unknown? && newMax >= state.max {
        return false;
      }
      state := if metadata.Some? then Precise(newMax) else Imprecise(newMax);
      AdjustPathCapacity(verifiedPathCapacity);
      return false;
    }

    method AdjustPathCapacity(ackAmount: nat)
      modifies this
      ensures View() == AdjustCapacity(old(View()), ackAmount)
    {
      var limit := GetMaxPacketAmountLimit();
      verifiedPathCapacity := Min(Max(verifiedPathCapacity, ackAmount), limit);
      if state.Imprecise? && verifiedPathCapacity == state.max {
        state := Precise(state.max);
      }
    }
  }
}
