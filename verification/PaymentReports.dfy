/** What runs without an error verdict have been told (packages/pay/src/senders/payment.ts:174-272). */
module PaymentReports {
  import opened Basics
  import opened Payment
  import opened PaymentRuns
  import opened PaymentDecisions
  import ER = ExchangeRate
  import MP = MaxPacket

  function VerdictOn(q: Quote, s: Run, id: nat, reply: Reply): Verdict
    requires Pending(s, id)
  {
    ApplyReply(q, s.sender, s.log[id].request, reply).1
  }

  /** The step does not end the payment with an error. */
  ghost predicate Accepts(q: Quote, s: Run, e: Event) {
    e.Arrive? && Pending(s, e.id) ==>
      VerdictOn(q, s, e.id, e.reply).Schedule? || VerdictOn(q, s, e.id, e.reply).Complete?
  }

  ghost predicate AllAccepted(q: Quote, es: seq<Event>) {
    es != [] ==> AllAccepted(q, Init(es)) && Accepts(q, Exec(q, Init(es)), Last(es))
  }

  /** What the receiver reported for this step, if it fulfilled a packet. */
  function ReportIn(s: Run, e: Event): nat {
    if e.Arrive? && Pending(s, e.id) && e.reply.fulfilled then e.reply.delivered.GetOr(0) else 0
  }

  function Reported(q: Quote, es: seq<Event>): nat {
    if es == [] then 0 else Reported(q, Init(es)) + ReportIn(Exec(q, Init(es)), Last(es))
  }

  /** The receive limit learned so far admits what the payment promises. */
  ghost predicate LimitSuffices(q: Quote, s: Sender) {
    s.remoteReceiveMax.Some? ==> q.minDeliveryAmount <= s.remoteReceiveMax.value
  }

  lemma AcceptedStep(q: Quote, s: Run, e: Event)
    requires Accepts(q, s, e) && LimitSuffices(q, s.sender)
    ensures var s' := Step(q, s, e);
            s'.sender.amountDelivered == s.sender.amountDelivered + ReportIn(s, e) && LimitSuffices(q, s'.sender)
  {
    if e.Arrive? && Pending(s, e.id) {
      var r := s.log[e.id].request;
      JudgesRightly(q, s.sender, r, e.reply);
      CreditsGreatest(q, s.sender, r, e.reply);
    }
  }

  /** The amount counted as delivered is what the receiver reported, and every limit it stated admits the payment. */
  lemma {:induction false} AcceptedRunsAreReported(q: Quote, es: seq<Event>)
    requires AllAccepted(q, es)
    ensures Exec(q, es).sender.amountDelivered == Reported(q, es) && LimitSuffices(q, Exec(q, es).sender)
  {
    if es != [] {
      AcceptedRunsAreReported(q, Init(es));
      AcceptedStep(q, Exec(q, Init(es)), Last(es));
    }
  }

  /** The entry a reply settles is credited with what the reply reports. */
  lemma AcceptedEntry(q: Quote, s: Run, id: nat, reply: Reply)
    requires Pending(s, id) && Accepts(q, s, Arrive(id, reply)) && reply.fulfilled
    ensures Step(q, s, Arrive(id, reply)).log[id].status == Fulfilled(reply.delivered.GetOr(0))
    ensures reply.delivered.Some?
  {
    var r := s.log[id].request;
    JudgesRightly(q, s.sender, r, reply);
    CreditsGreatest(q, s.sender, r, reply);
  }

  // ---- a payment does not go on once it is complete ----

  ghost predicate AllScheduled(q: Quote, es: seq<Event>) {
    es != [] ==>
      && AllScheduled(q, Init(es))
      && var s, e := Exec(q, Init(es)), Last(es);
         e.Arrive? && Pending(s, e.id) ==> VerdictOn(q, s, e.id, e.reply).Schedule?
  }

  lemma {:induction false} UnfinishedRunsAreUnpaid(q: Quote, es: seq<Event>)
    requires AllScheduled(q, es) && !Paid(q, NewSender())
    ensures !Paid(q, Exec(q, es).sender)
  {
    if es != [] {
      var s, e := Exec(q, Init(es)), Last(es);
      UnfinishedRunsAreUnpaid(q, Init(es));
      if e.Arrive? && Pending(s, e.id) { JudgesRightly(q, s.sender, s.log[e.id].request, e.reply); }
    }
  }

  // ---- every packet of a run was the right one ----

  lemma {:induction false} RateStaysNonEmpty(q: Quote, es: seq<Event>)
    requires ER.NonEmpty(q.rate)
    ensures ER.NonEmpty(Exec(q, es).rate)
  {
    if es != [] {
      var s, e := Exec(q, Init(es)), Last(es);
      RateStaysNonEmpty(q, Init(es));
      if e.Arrive? && Pending(s, e.id) {
        ER.ObserveNonEmpty(s.rate, ER.Observation(s.log[e.id].request.source, e.reply.delivered));
      }
    }
  }

  /** Whatever the run, the next packet is right for what it has learned about the path. */
  lemma RunsDecideRightly(q: Quote, es: seq<Event>)
    requires ER.NonEmpty(q.rate)
    ensures var s := Exec(q, es);
            var maxPacket, attempt := MP.NextMax(s.max), Proposal(q, s);
            && (attempt.Yield? <==> NothingToSend(q, s.sender))
            && (attempt.InsufficientRate? <==>
                  !NothingToSend(q, s.sender) && RateTooLow(q, s.sender, maxPacket, s.rate))
            && (attempt.Send? ==> RightRequest(q, s.sender, maxPacket, s.rate, attempt.request))
  {
    var s := Exec(q, es);
    RateStaysNonEmpty(q, es);
    DecidesRightly(q, s.sender, MP.NextMax(s.max), s.rate);
  }
}
