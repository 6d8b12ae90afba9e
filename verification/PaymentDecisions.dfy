/** What the sender decides to send, and how it judges a reply (packages/pay/src/senders/payment.ts:100-272). */
module PaymentDecisions {
  import opened Basics
  import opened Amounts
  import opened Payment
  import ER = ExchangeRate

  // ---- the size of a packet ----

  /** The budget, the path and the packet format admit this many units. */
  ghost predicate Allowed(q: Quote, s: Sender, maxPacket: Option<nat>, amount: nat) {
    && s.amountSent + s.sourceAmountInFlight + amount <= q.maxSourceAmount
    && (maxPacket.Some? ==> amount <= maxPacket.value)
    && amount <= MAX_U64
  }

  /** At every rate that may be the real one, this many units deliver all that is not yet delivered or in flight. */
  ghost predicate Suffices(q: Quote, s: Sender, rate: ER.Interval, amount: nat) {
    forall r :: ER.Contains(rate, r)
      ==> q.minDeliveryAmount <= s.amountDelivered + s.destinationAmountInFlight + MulFloor(amount, r)
  }

  /** There is no budget left, or enough is in flight already. */
  ghost predicate NothingToSend(q: Quote, s: Sender) {
    || s.amountSent + s.sourceAmountInFlight >= q.maxSourceAmount
    || (q.kind.FixedDelivery? && s.amountDelivered + s.destinationAmountInFlight >= q.minDeliveryAmount)
  }

  lemma YieldsIff(q: Quote, s: Sender, maxPacket: Option<nat>, rate: ER.Interval)
    ensures NextState(q, s, maxPacket, rate).Yield? <==> NothingToSend(q, s)
  {
  }

  lemma SufficesIff(q: Quote, s: Sender, rate: ER.Interval, amount: nat)
    requires ER.NonEmpty(rate) && Remaining(q, s) > 0 && ER.EstimateSource(rate, Remaining(q, s)).Some?
    ensures Suffices(q, s, rate, amount) <==> ER.EstimateSource(rate, Remaining(q, s)).value.1 <= amount
  {
    ER.HighSourceIsLeastSufficient(rate, Remaining(q, s), amount);
  }

  /**
   * The amount the sender settles on: allowed, as large as allowed up to what a fixed delivery needs, and for a
   * fixed delivery no more than it needs.
   */
  ghost predicate RightSize(q: Quote, s: Sender, maxPacket: Option<nat>, rate: ER.Interval, amount: nat) {
    && Allowed(q, s, maxPacket, amount)
    && (q.kind.FixedDelivery? && amount > 0 ==> !Suffices(q, s, rate, amount - 1))
    && (Allowed(q, s, maxPacket, amount + 1) ==> q.kind.FixedDelivery? && Suffices(q, s, rate, amount))
  }

  /** A packet completes the payment when it spends the budget, or when it surely delivers the rest. */
  ghost predicate Completes(q: Quote, s: Sender, rate: ER.Interval, amount: nat) {
    match q.kind
    case FixedSend => s.amountSent + s.sourceAmountInFlight + amount == q.maxSourceAmount
    case FixedDelivery => Suffices(q, s, rate, amount)
  }

  /** One source unit may be lost on the packet that completes the payment, unless one is lost already. */
  ghost function Minimum(q: Quote, s: Sender, rate: ER.Interval, amount: nat): nat {
    MulCeil(if Completes(q, s, rate, amount) && !s.appliedRoundingCorrection then SatSub(amount, 1) else amount,
            q.minExchangeRate)
  }

  /** The amount a decision is about. */
  function Chosen(q: Quote, s: Sender, maxPacket: Option<nat>, rate: ER.Interval): Option<nat> {
    var most := Min(OrLesser(Available(q, s), maxPacket), MAX_U64);
    match q.kind
    case FixedSend => Some(most)
    case FixedDelivery =>
      match ER.EstimateSource(rate, Remaining(q, s))
      case None => None
      case Some((_, limit)) => Some(Min(most, limit))
  }

  lemma ChosenIsRightSize(q: Quote, s: Sender, maxPacket: Option<nat>, rate: ER.Interval)
    requires ER.NonEmpty(rate) && !NothingToSend(q, s) && Chosen(q, s, maxPacket, rate).Some?
    ensures RightSize(q, s, maxPacket, rate, Chosen(q, s, maxPacket, rate).value)
  {
    var amount := Chosen(q, s, maxPacket, rate).value;
    if q.kind.FixedDelivery? {
      SufficesIff(q, s, rate, amount);
      if amount > 0 { SufficesIff(q, s, rate, amount - 1); }
    }
  }

  /** No two amounts are of the right size. */
  lemma RightSizeIsUnique(q: Quote, s: Sender, maxPacket: Option<nat>, rate: ER.Interval, x: nat, y: nat)
    requires RightSize(q, s, maxPacket, rate, x) && RightSize(q, s, maxPacket, rate, y)
    ensures x == y
  {
    if x < y { SmallerIsNotRight(q, s, maxPacket, rate, x, y); }
    if y < x { SmallerIsNotRight(q, s, maxPacket, rate, y, x); }
  }

  lemma SmallerIsNotRight(q: Quote, s: Sender, maxPacket: Option<nat>, rate: ER.Interval, x: nat, y: nat)
    requires x < y && RightSize(q, s, maxPacket, rate, y)
    ensures !RightSize(q, s, maxPacket, rate, x)
  {
    if q.kind.FixedDelivery? && Suffices(q, s, rate, x) {
      forall r | ER.Contains(rate, r)
        ensures q.minDeliveryAmount <= s.amountDelivered + s.destinationAmountInFlight + MulFloor(y - 1, r)
      {
        MoreDeliversMore(x, y - 1, r);
      }
    }
  }

  lemma MoreDeliversMore(x: nat, y: nat, r: Ratio)
    requires x <= y
    ensures MulFloor(x, r) <= MulFloor(y, r)
  {
    MulFloorAdjoint(MulFloor(x, r), x, r);
    MulFloorAdjoint(MulFloor(x, r), y, r);
    MulMonotone(x, y, r.a);
  }

  // ---- the decision ----

  /**
   * A request is of the right size, carries the correction exactly when it completes the payment and none was
   * applied, asks for a minimum that every possible rate delivers, and reserves the most that any of them delivers.
   */
  ghost predicate RightRequest(q: Quote, s: Sender, maxPacket: Option<nat>, rate: ER.Interval, request: Request) {
    && RightSize(q, s, maxPacket, rate, request.source)
    && request.corrected == (Completes(q, s, rate, request.source) && !s.appliedRoundingCorrection)
    && request.minDestination == Minimum(q, s, rate, request.source)
    && (forall r :: ER.Contains(rate, r)
          ==> request.minDestination <= ER.Delivers(request.source, r) <= request.highDestination)
    && (exists r :: ER.Contains(rate, r) && ER.Delivers(request.source, r) == request.highDestination)
  }

  lemma DeliverableIff(rate: ER.Interval, amount: nat, minimum: nat)
    requires ER.NonEmpty(rate)
    ensures minimum <= ER.LowDestination(rate, amount)
            <==> forall r :: ER.Contains(rate, r) ==> minimum <= ER.Delivers(amount, r)
  {
    var low, high := ER.DestinationEstimateTight(rate, amount);
    forall r | ER.Contains(rate, r) ensures ER.LowDestination(rate, amount) <= ER.Delivers(amount, r) {
      ER.DestinationEstimateSound(rate, amount, r);
    }
  }

  lemma CompletesIff(q: Quote, s: Sender, maxPacket: Option<nat>, rate: ER.Interval)
    requires ER.NonEmpty(rate) && !NothingToSend(q, s) && Chosen(q, s, maxPacket, rate).Some?
    ensures var amount := Chosen(q, s, maxPacket, rate).value;
            NextState(q, s, maxPacket, rate) == Priced(q, s, rate, amount, Completes(q, s, rate, amount))
  {
    if q.kind.FixedDelivery? {
      SufficesIff(q, s, rate, Chosen(q, s, maxPacket, rate).value);
    }
  }

  lemma SentIsRight(q: Quote, s: Sender, maxPacket: Option<nat>, rate: ER.Interval)
    requires ER.NonEmpty(rate) && NextState(q, s, maxPacket, rate).Send?
    ensures RightRequest(q, s, maxPacket, rate, NextState(q, s, maxPacket, rate).request)
  {
    YieldsIff(q, s, maxPacket, rate);
    ChosenIsRightSize(q, s, maxPacket, rate);
    CompletesIff(q, s, maxPacket, rate);
    var request := NextState(q, s, maxPacket, rate).request;
    DeliverableIff(rate, request.source, request.minDestination);
    var low, high := ER.DestinationEstimateTight(rate, request.source);
    forall r | ER.Contains(rate, r) ensures ER.Delivers(request.source, r) <= request.highDestination {
      ER.DestinationEstimateSound(rate, request.source, r);
    }
  }

  /** No amount can be sure to deliver the rest, or a possible rate delivers less than the packet's minimum. */
  ghost predicate RateTooLow(q: Quote, s: Sender, maxPacket: Option<nat>, rate: ER.Interval) {
    || (q.kind.FixedDelivery? && forall amount: nat :: !Suffices(q, s, rate, amount))
    || (exists amount: nat, r ::
          && RightSize(q, s, maxPacket, rate, amount) && ER.Contains(rate, r)
          && ER.Delivers(amount, r) < Minimum(q, s, rate, amount))
  }

  lemma NoAmountSufficesIff(q: Quote, s: Sender, rate: ER.Interval)
    requires ER.NonEmpty(rate) && Remaining(q, s) > 0
    ensures ER.EstimateSource(rate, Remaining(q, s)).None? <==> forall amount: nat :: !Suffices(q, s, rate, amount)
  {
    ER.EstimateExistsIff(rate, Remaining(q, s));
    forall amount: nat ensures ER.AlwaysDelivers(rate, Remaining(q, s), amount) <==> Suffices(q, s, rate, amount) {
    }
    if ER.EstimateSource(rate, Remaining(q, s)).Some? {
      SufficesIff(q, s, rate, ER.EstimateSource(rate, Remaining(q, s)).value.1);
    }
  }

  lemma RefusesIff(q: Quote, s: Sender, maxPacket: Option<nat>, rate: ER.Interval)
    requires ER.NonEmpty(rate) && !NothingToSend(q, s)
    ensures NextState(q, s, maxPacket, rate).InsufficientRate? <==> RateTooLow(q, s, maxPacket, rate)
  {
    if q.kind.FixedDelivery? { NoAmountSufficesIff(q, s, rate); }
    if Chosen(q, s, maxPacket, rate).Some? {
      var amount := Chosen(q, s, maxPacket, rate).value;
      ChosenIsRightSize(q, s, maxPacket, rate);
      CompletesIff(q, s, maxPacket, rate);
      DeliverableIff(rate, amount, Minimum(q, s, rate, amount));
      forall x: nat | RightSize(q, s, maxPacket, rate, x) ensures x == amount {
        RightSizeIsUnique(q, s, maxPacket, rate, x, amount);
      }
      PricedOutcome(q, s, rate, amount);
    }
  }

  lemma PricedOutcome(q: Quote, s: Sender, rate: ER.Interval, amount: nat)
    ensures Priced(q, s, rate, amount, Completes(q, s, rate, amount)).InsufficientRate?
            <==> ER.LowDestination(rate, amount) < Minimum(q, s, rate, amount)
  {
  }

  /**
   * Each of the three decisions, in terms of the payment, the limits and the rates that are possible:
   * wait exactly when there is nothing to send, refuse exactly when the rate is too low, and send the right request
   * otherwise.
   */
  lemma DecidesRightly(q: Quote, s: Sender, maxPacket: Option<nat>, rate: ER.Interval)
    requires ER.NonEmpty(rate)
    ensures var attempt := NextState(q, s, maxPacket, rate);
            && (attempt.Yield? <==> NothingToSend(q, s))
            && (attempt.InsufficientRate? <==> !NothingToSend(q, s) && RateTooLow(q, s, maxPacket, rate))
            && (attempt.Send? ==> RightRequest(q, s, maxPacket, rate, attempt.request))
  {
    YieldsIff(q, s, maxPacket, rate);
    if !NothingToSend(q, s) { RefusesIff(q, s, maxPacket, rate); }
    if NextState(q, s, maxPacket, rate).Send? { SentIsRight(q, s, maxPacket, rate); }
  }

  // ---- the verdict on a reply ----

  /** A fulfilled packet without a report of just what was credited for it. */
  ghost predicate Misreported(s: Sender, s': Sender, reply: Reply) {
    reply.fulfilled && reply.delivered != Some(SatSub(s'.amountDelivered, s.amountDelivered))
  }

  /** `greatest` is the larger of the two, as far as they are there. */
  predicate IsGreatest(greatest: Option<nat>, x: Option<nat>, y: Option<nat>) {
    && (greatest == x || greatest == y)
    && (x.Some? ==> greatest.Some? && x.value <= greatest.value)
    && (y.Some? ==> greatest.Some? && y.value <= greatest.value)
  }

  /** The credited amount is the reported one, or the minimum if that is more. */
  lemma CreditsGreatest(q: Quote, s: Sender, r: Request, reply: Reply)
    ensures var s' := ApplyReply(q, s, r, reply).0;
            && s'.amountSent == s.amountSent + (if reply.fulfilled then r.source else 0)
            && (!reply.fulfilled ==> s'.amountDelivered == s.amountDelivered)
            && (reply.fulfilled ==>
                  && s'.amountDelivered >= s.amountDelivered
                  && IsGreatest(Some(s'.amountDelivered - s.amountDelivered), Some(r.minDestination), reply.delivered))
  {
  }

  /**
   * The payment ends for a misreported packet, else it completes once it is paid, else it ends when the receiver will
   * not take what was promised, and goes on otherwise. The receive limit is the greatest one reported on the way.
   */
  lemma JudgesRightly(q: Quote, s: Sender, r: Request, reply: Reply)
    ensures var (s', verdict) := ApplyReply(q, s, r, reply);
            var tooLittle := s'.remoteReceiveMax.Some? && s'.remoteReceiveMax.value < q.minDeliveryAmount;
            && (verdict.ReceiverProtocolViolation? <==> Misreported(s, s', reply))
            && (verdict.Complete? <==> !Misreported(s, s', reply) && Paid(q, s'))
            && (verdict.IncompatibleReceiveMax? <==> !Misreported(s, s', reply) && !Paid(q, s') && tooLittle)
            && (verdict.Schedule? || verdict.IncompatibleReceiveMax? ==>
                  IsGreatest(s'.remoteReceiveMax, s.remoteReceiveMax, reply.receiveMax))
            && (verdict.Complete? || verdict.ReceiverProtocolViolation? ==> s'.remoteReceiveMax == s.remoteReceiveMax)
  {
  }
}
