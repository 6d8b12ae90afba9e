/**
 * Whole runs of a payment: sends and replies in any order, through the rate and packet-size
 * controllers and the accounting of packages/pay/src/senders/payment.ts.
 */
module PaymentRuns {
  import opened Basics
  import opened Amounts
  import opened Payment
  import ER = ExchangeRate
  import MP = MaxPacket

  datatype Status = Outstanding | Fulfilled(credited: nat) | Rejected

  datatype Entry = Entry(request: Request, status: Status)

  /** `log` records every committed request; a request is identified by its position. */
  datatype Run = Run(sender: Sender, max: MP.State, rate: ER.Interval, log: seq<Entry>)

  datatype Event = TrySend | Arrive(id: nat, reply: Reply)

  function Start(q: Quote): Run {
    Run(NewSender(), MP.State(MP.Precise(q.maxPacketAmount), 0), q.rate, [])
  }

  function Proposal(q: Quote, s: Run): Attempt {
    NextState(q, s.sender, MP.NextMax(s.max), s.rate)
  }

  predicate Pending(s: Run, id: nat) {
    id < |s.log| && s.log[id].status.Outstanding?
  }

  function StatusAfter(r: Request, reply: Reply): Status {
    if reply.fulfilled then Fulfilled(Credited(r, reply)) else Rejected
  }

  /** A reply passes through the controllers and then the sender. */
  function Receive(q: Quote, s: Run, id: nat, reply: Reply): Run
    requires Pending(s, id)
  {
    var r := s.log[id].request;
    Run(ApplyReply(q, s.sender, r, reply).0,
        MP.Apply(s.max, MP.Reply(r.source, SignalOf(reply))).0,
        ER.Observe(s.rate, ER.Observation(r.source, reply.delivered)),
        s.log[id := Entry(r, StatusAfter(r, reply))])
  }

  function Step(q: Quote, s: Run, e: Event): Run {
    match e
    case TrySend =>
      var attempt := Proposal(q, s);
      if attempt.Send?
      then s.(sender := Commit(s.sender, attempt.request), log := s.log + [Entry(attempt.request, Outstanding)])
      else s
    case Arrive(id, reply) => if Pending(s, id) then Receive(q, s, id, reply) else s
  }

  function Exec(q: Quote, es: seq<Event>): Run {
    if es == [] then Start(q) else Step(q, Exec(q, es[..|es| - 1]), es[|es| - 1])
  }

  // ---- sums over the log ----

  function Sum(log: seq<Entry>, w: Entry -> nat): nat {
    if log == [] then 0 else Sum(log[..|log| - 1], w) + w(log[|log| - 1])
  }

  lemma SumAppend(log: seq<Entry>, e: Entry, w: Entry -> nat)
    ensures Sum(log + [e], w) == Sum(log, w) + w(e)
  {
  }

  lemma {:induction false} SumUpdate(log: seq<Entry>, i: nat, e: Entry, w: Entry -> nat)
    requires i < |log|
    ensures w(log[i]) <= Sum(log, w)
    ensures Sum(log[i := e], w) == Sum(log, w) - w(log[i]) + w(e)
  {
    var n := |log| - 1;
    if i < n {
      SumUpdate(log[..n], i, e, w);
      assert log[i := e][..n] == log[..n][i := e];
    } else {
      assert log[i := e][..n] == log[..n];
    }
  }

  lemma {:induction false} SumZero(log: seq<Entry>, w: Entry -> nat)
    ensures Sum(log, w) == 0 <==> forall e :: e in log ==> w(e) == 0
  {
    if log != [] {
      var n := |log| - 1;
      SumZero(log[..n], w);
      assert log == log[..n] + [log[n]];
    }
  }

  function SentOf(e: Entry): nat {
    if e.status.Fulfilled? then e.request.source else 0
  }

  function DeliveredOf(e: Entry): nat {
    if e.status.Fulfilled? then e.status.credited else 0
  }

  function SourceInFlightOf(e: Entry): nat {
    if e.status.Outstanding? then e.request.source else 0
  }

  function DestinationInFlightOf(e: Entry): nat {
    if e.status.Outstanding? then e.request.highDestination else 0
  }

  /** A corrected packet that is in flight or delivered. */
  function LiveCorrectionOf(e: Entry): nat {
    if e.request.corrected && !e.status.Rejected? then 1 else 0
  }

  function FulfilledCorrectionOf(e: Entry): nat {
    if e.request.corrected && e.status.Fulfilled? then 1 else 0
  }

  function Corrections(s: Run): nat {
    Sum(s.log, FulfilledCorrectionOf)
  }

  function LiveCorrections(s: Run): nat {
    Sum(s.log, LiveCorrectionOf)
  }

  // ---- the accounting invariant ----

  /** Sizes and prices of a committed request, and what fulfilling it credits. */
  ghost predicate WellPriced(q: Quote, e: Entry) {
    var r := e.request;
    && 0 < r.source <= MAX_U64
    && r.minDestination == MulCeil(if r.corrected then r.source - 1 else r.source, q.minExchangeRate)
    && r.minDestination <= MAX_U64
    && (e.status.Fulfilled? ==> r.minDestination <= e.status.credited)
  }

  ghost predicate Accounts(q: Quote, s: Run) {
    && (forall e :: e in s.log ==> WellPriced(q, e))
    && s.sender.amountSent == Sum(s.log, SentOf)
    && s.sender.amountDelivered == Sum(s.log, DeliveredOf)
    && s.sender.sourceAmountInFlight == Sum(s.log, SourceInFlightOf)
    && s.sender.destinationAmountInFlight == Sum(s.log, DestinationInFlightOf)
    && s.sender.amountSent + s.sender.sourceAmountInFlight <= q.maxSourceAmount
    && MP.Valid(s.max)
    && !s.max.limit.Unknown?
  }

  lemma EstimatePositive(i: ER.Interval, target: nat)
    requires target > 0 && ER.EstimateSource(i, target).Some?
    ensures ER.EstimateSource(i, target).value.1 > 0
  {
  }

  lemma ProposalFits(q: Quote, s: Run)
    requires Accounts(q, s) && Proposal(q, s).Send?
    ensures WellPriced(q, Entry(Proposal(q, s).request, Outstanding))
    ensures Proposal(q, s).request.source <= Available(q, s.sender)
    ensures q.kind.FixedSend? && Proposal(q, s).request.corrected
            ==> Proposal(q, s).request.source == Available(q, s.sender)
  {
    if s.max.limit.Imprecise? { MP.NextProbeInGap(s.max); }
    if q.kind.FixedDelivery? { EstimatePositive(s.rate, Remaining(q, s.sender)); }
  }

  lemma SendKeepsAccounts(q: Quote, s: Run)
    requires Accounts(q, s)
    ensures Accounts(q, Step(q, s, TrySend))
  {
    var attempt := Proposal(q, s);
    if attempt.Send? {
      ProposalFits(q, s);
      var e := Entry(attempt.request, Outstanding);
      SumAppend(s.log, e, SentOf);
      SumAppend(s.log, e, DeliveredOf);
      SumAppend(s.log, e, SourceInFlightOf);
      SumAppend(s.log, e, DestinationInFlightOf);
    }
  }

  /** What a reply subtracts is really in flight, so neither saturating subtraction saturates. */
  lemma ReplyNeverSaturates(q: Quote, s: Run, id: nat)
    requires Accounts(q, s) && Pending(s, id)
    ensures s.log[id].request.source <= s.sender.sourceAmountInFlight
    ensures s.log[id].request.highDestination <= s.sender.destinationAmountInFlight
  {
    SumUpdate(s.log, id, s.log[id], SourceInFlightOf);
    SumUpdate(s.log, id, s.log[id], DestinationInFlightOf);
  }

  lemma ReceiveKeepsAccounts(q: Quote, s: Run, id: nat, reply: Reply)
    requires Accounts(q, s) && Pending(s, id)
    ensures Accounts(q, Receive(q, s, id, reply))
  {
    var r := s.log[id].request;
    var e := Entry(r, StatusAfter(r, reply));
    assert s.log[id] in s.log;
    ReplyNeverSaturates(q, s, id);
    SumUpdate(s.log, id, e, SentOf);
    SumUpdate(s.log, id, e, DeliveredOf);
    SumUpdate(s.log, id, e, SourceInFlightOf);
    SumUpdate(s.log, id, e, DestinationInFlightOf);
    MP.ApplyKeepsValid(s.max, MP.Reply(r.source, SignalOf(reply)));
    forall x | x in s.log[id := e] ensures WellPriced(q, x) {
      assert x == e || x in s.log;
    }
  }

  lemma {:induction false} EveryRunKeepsAccounts(q: Quote, es: seq<Event>)
    ensures Accounts(q, Exec(q, es))
  {
    if es != [] {
      var s := Exec(q, es[..|es| - 1]);
      EveryRunKeepsAccounts(q, es[..|es| - 1]);
      match es[|es| - 1] {
        case TrySend => SendKeepsAccounts(q, s);
        case Arrive(id, reply) => if Pending(s, id) { ReceiveKeepsAccounts(q, s, id, reply); }
      }
    }
  }

  /** Completing a payment leaves no packet in flight. */
  lemma CompletionSettlesEverything(q: Quote, es: seq<Event>)
    requires Paid(q, Exec(q, es).sender)
    ensures Exec(q, es).sender.sourceAmountInFlight == 0
    ensures forall id: nat :: !Pending(Exec(q, es), id)
  {
    var s := Exec(q, es);
    EveryRunKeepsAccounts(q, es);
    SumZero(s.log, SourceInFlightOf);
    forall id: nat | id < |s.log| ensures !s.log[id].status.Outstanding? {
      assert s.log[id] in s.log;
    }
  }

  // ---- rates: what the fulfilled packets delivered ----

  /** One fulfilled packet loses less than the price of one source unit, and only if corrected. */
  lemma EntryRate(q: Quote, e: Entry)
    requires WellPriced(q, e)
    ensures SentOf(e) * q.minExchangeRate.a
            <= DeliveredOf(e) * q.minExchangeRate.b + FulfilledCorrectionOf(e) * q.minExchangeRate.a
  {
    if e.status.Fulfilled? {
      var r, rate := e.request, q.minExchangeRate;
      var priced := if r.corrected then r.source - 1 else r.source;
      MulCeilAdjoint(r.minDestination, priced, rate);
      MulMonotone(r.minDestination, e.status.credited, rate.b);
      assert r.source * rate.a == priced * rate.a + (r.source - priced) * rate.a;
    }
  }

  lemma {:induction false} LogRate(q: Quote, log: seq<Entry>)
    requires forall e :: e in log ==> WellPriced(q, e)
    ensures Sum(log, SentOf) * q.minExchangeRate.a
            <= Sum(log, DeliveredOf) * q.minExchangeRate.b + Sum(log, FulfilledCorrectionOf) * q.minExchangeRate.a
    ensures Sum(log, FulfilledCorrectionOf) <= Sum(log, SentOf)
  {
    if log != [] {
      var n := |log| - 1;
      var a, b := q.minExchangeRate.a, q.minExchangeRate.b;
      assert log[n] in log;
      LogRate(q, log[..n]);
      EntryRate(q, log[n]);
      DistributeSum(Sum(log[..n], SentOf), SentOf(log[n]), a);
      DistributeSum(Sum(log[..n], DeliveredOf), DeliveredOf(log[n]), b);
      DistributeSum(Sum(log[..n], FulfilledCorrectionOf), FulfilledCorrectionOf(log[n]), a);
    }
  }

  lemma DistributeSum(x: nat, y: nat, d: nat)
    ensures (x + y) * d == x * d + y * d
  {
  }

  ghost predicate CoversRate(q: Quote, s: Run, lost: nat) {
    s.sender.amountDelivered >= MulCeil(SatSub(s.sender.amountSent, lost), q.minExchangeRate)
  }

  lemma AccountsCoverRate(q: Quote, s: Run)
    requires Accounts(q, s)
    ensures CoversRate(q, s, Corrections(s)) && Corrections(s) <= s.sender.amountSent
  {
    LogRate(q, s.log);
    var k, sent := Corrections(s), s.sender.amountSent;
    DistributeSum(sent - k, k, q.minExchangeRate.a);
    MulCeilAdjoint(s.sender.amountDelivered, sent - k, q.minExchangeRate);
  }

  /** If k fulfilled packets carried the correction, at most k source units go unpaid. */
  lemma DeliveredCoversRate(q: Quote, es: seq<Event>)
    ensures CoversRate(q, Exec(q, es), Corrections(Exec(q, es)))
    ensures Corrections(Exec(q, es)) <= Exec(q, es).sender.amountSent
  {
    EveryRunKeepsAccounts(q, es);
    AccountsCoverRate(q, Exec(q, es));
  }

  lemma CoversFewer(q: Quote, s: Run, lost: nat, more: nat)
    requires CoversRate(q, s, lost) && lost <= more
    ensures CoversRate(q, s, more)
  {
    MulCeilMonotone(SatSub(s.sender.amountSent, more), SatSub(s.sender.amountSent, lost), q.minExchangeRate);
  }

  // ---- the rounding-correction flag ----

  /** The documented meaning of the flag: some packet in flight or delivered, and just one, was corrected. */
  ghost predicate FlagIsTruthful(s: Run) {
    LiveCorrections(s) == if s.sender.appliedRoundingCorrection then 1 else 0
  }

  /** A packet goes out while the flag is already set. */
  ghost predicate SendsWhileFlagged(q: Quote, s: Run, e: Event) {
    e.TrySend? && s.sender.appliedRoundingCorrection && Proposal(q, s).Send?
  }

  lemma FlagAfterSend(q: Quote, s: Run)
    requires FlagIsTruthful(s)
    ensures FlagIsTruthful(Step(q, s, TrySend)) <==> !SendsWhileFlagged(q, s, TrySend)
  {
    var attempt := Proposal(q, s);
    if attempt.Send? {
      SumAppend(s.log, Entry(attempt.request, Outstanding), LiveCorrectionOf);
      CommitSetsFlag(s, attempt.request);
    }
  }

  lemma CommitSetsFlag(s: Run, r: Request)
    ensures Commit(s.sender, r).appliedRoundingCorrection == r.corrected
  {
  }

  lemma FlagAfterReply(q: Quote, s: Run, id: nat, reply: Reply)
    requires FlagIsTruthful(s) && Pending(s, id)
    ensures FlagIsTruthful(Receive(q, s, id, reply))
  {
    var r := s.log[id].request;
    SumUpdate(s.log, id, Entry(r, StatusAfter(r, reply)), LiveCorrectionOf);
    ReplySetsFlag(q, s.sender, r, reply);
  }

  lemma ReplySetsFlag(q: Quote, s: Sender, r: Request, reply: Reply)
    ensures ApplyReply(q, s, r, reply).0.appliedRoundingCorrection
            == (s.appliedRoundingCorrection && (reply.fulfilled || !r.corrected))
  {
  }

  /** From a truthful state, the flag is truthful after a step exactly when the step is not a send over a set flag. */
  lemma FlagStaysTruthfulIff(q: Quote, s: Run, e: Event)
    requires FlagIsTruthful(s)
    ensures FlagIsTruthful(Step(q, s, e)) <==> !SendsWhileFlagged(q, s, e)
  {
    match e {
      case TrySend => FlagAfterSend(q, s);
      case Arrive(id, reply) => if Pending(s, id) { FlagAfterReply(q, s, id, reply); }
    }
  }

  function Init(es: seq<Event>): seq<Event>
    requires es != []
  {
    es[..|es| - 1]
  }

  function Last(es: seq<Event>): Event
    requires es != []
  {
    es[|es| - 1]
  }

  /** The flag is truthful in every state the run passes through. */
  ghost predicate AlwaysTruthful(q: Quote, es: seq<Event>) {
    FlagIsTruthful(Exec(q, es)) && (es != [] ==> AlwaysTruthful(q, Init(es)))
  }

  ghost predicate NeverSendsWhileFlagged(q: Quote, es: seq<Event>) {
    es != [] ==> NeverSendsWhileFlagged(q, Init(es)) && !SendsWhileFlagged(q, Exec(q, Init(es)), Last(es))
  }

  /** Over a whole run: the flag means what it says throughout if and only if no packet was sent over a set flag. */
  lemma {:induction false} FlagTruthfulIffNoSendWhileFlagged(q: Quote, es: seq<Event>)
    ensures AlwaysTruthful(q, es) <==> NeverSendsWhileFlagged(q, es)
  {
    if es != [] {
      FlagTruthfulIffNoSendWhileFlagged(q, Init(es));
      if FlagIsTruthful(Exec(q, Init(es))) {
        FlagStaysTruthfulIff(q, Exec(q, Init(es)), Last(es));
      }
    }
  }

  lemma {:induction false} CorrectionsAreLive(log: seq<Entry>)
    ensures Sum(log, FulfilledCorrectionOf) <= Sum(log, LiveCorrectionOf)
  {
    if log != [] { CorrectionsAreLive(log[..|log| - 1]); }
  }

  lemma TruthfulFlagCoversRate(q: Quote, s: Run)
    requires Accounts(q, s) && FlagIsTruthful(s)
    ensures CoversRate(q, s, 1) && Corrections(s) <= 1
  {
    CorrectionsAreLive(s.log);
    AccountsCoverRate(q, s);
    CoversFewer(q, s, Corrections(s), 1);
  }

  /** With a truthful flag at most one source unit is lost to rounding. */
  lemma TruthfulFlagLosesAtMostOneUnit(q: Quote, es: seq<Event>)
    requires NeverSendsWhileFlagged(q, es)
    ensures CoversRate(q, Exec(q, es), 1) && Corrections(Exec(q, es)) <= 1
  {
    FlagTruthfulIffNoSendWhileFlagged(q, es);
    EveryRunKeepsAccounts(q, es);
    TruthfulFlagCoversRate(q, Exec(q, es));
  }

  // ---- fixed-send payments ----

  /** An uncorrected packet is rejected while a corrected one is in flight or delivered. */
  ghost predicate RejectsBesideCorrection(s: Run, e: Event) {
    && e.Arrive? && Pending(s, e.id) && !e.reply.fulfilled && !s.log[e.id].request.corrected
    && LiveCorrections(s) > 0
  }

  ghost predicate NeverRejectsBesideCorrection(q: Quote, es: seq<Event>) {
    es != [] ==>
      NeverRejectsBesideCorrection(q, Init(es)) && !RejectsBesideCorrection(Exec(q, Init(es)), Last(es))
  }

  /** In a fixed-send payment the corrected packet uses up the whole budget. */
  ghost predicate CorrectionIsFinal(q: Quote, s: Run) {
    && Accounts(q, s)
    && FlagIsTruthful(s)
    && (s.sender.appliedRoundingCorrection ==> Available(q, s.sender) == 0)
  }

  lemma FixedSendStep(q: Quote, s: Run, e: Event)
    requires q.kind.FixedSend? && CorrectionIsFinal(q, s) && !RejectsBesideCorrection(s, e)
    ensures !SendsWhileFlagged(q, s, e) && CorrectionIsFinal(q, Step(q, s, e))
  {
    FlagStaysTruthfulIff(q, s, e);
    match e {
      case TrySend =>
        SendKeepsAccounts(q, s);
        if Proposal(q, s).Send? { ProposalFits(q, s); }
      case Arrive(id, reply) =>
        if Pending(s, id) {
          ReceiveKeepsAccounts(q, s, id, reply);
          ReplyNeverSaturates(q, s, id);
        }
    }
  }

  lemma {:induction false} FixedSendKeepsFlagTruthful(q: Quote, es: seq<Event>)
    requires q.kind.FixedSend? && NeverRejectsBesideCorrection(q, es)
    ensures CorrectionIsFinal(q, Exec(q, es)) && NeverSendsWhileFlagged(q, es)
  {
    if es != [] {
      FixedSendKeepsFlagTruthful(q, Init(es));
      FixedSendStep(q, Exec(q, Init(es)), Last(es));
    }
  }

  /** The amount a fixed-send quote promises (packages/pay/src/index.ts:397-399). */
  ghost predicate QuotesFixedSend(q: Quote) {
    q.kind.FixedSend? && q.minDeliveryAmount == MulCeil(q.maxSourceAmount - 1, q.minExchangeRate)
  }

  /** A completed fixed-send payment delivers what was quoted, if no other packet was rejected beside a correction. */
  lemma FixedSendDeliversQuote(q: Quote, es: seq<Event>)
    requires QuotesFixedSend(q) && NeverRejectsBesideCorrection(q, es)
    requires Paid(q, Exec(q, es).sender)
    ensures Corrections(Exec(q, es)) <= 1
    ensures Exec(q, es).sender.amountDelivered >= q.minDeliveryAmount
  {
    FixedSendKeepsFlagTruthful(q, es);
    TruthfulFlagLosesAtMostOneUnit(q, es);
  }

  // ---- the hypothesis is needed ----

  const NO_REPLY_DATA: Reply := Reply(false, None, None, None)

  function FulfilledWith(amount: nat): Reply {
    Reply(true, None, Some(amount), None)
  }

  /** A 1:1 fixed-send quote of 10 units, at most 6 a packet: 9 units are promised. */
  function TwoCorrectionsQuote(): Quote {
    Quote(FixedSend, 10, 9, Ratio(1, 1), 6, ER.Interval(Ratio(1, 1), Ratio(2, 1)))
  }

  function TwoCorrectionsEvents(): seq<Event> {
    [TrySend, TrySend, Arrive(0, NO_REPLY_DATA), TrySend, Arrive(2, NO_REPLY_DATA), TrySend,
     Arrive(1, FulfilledWith(3)), Arrive(3, FulfilledWith(5))]
  }

  lemma ExecSnoc(q: Quote, es: seq<Event>, e: Event)
    ensures Exec(q, es + [e]) == Step(q, Exec(q, es), e)
  {
  }

  const P0 := Request(6, 6, 11, false)
  const P1 := Request(4, 3, 7, true)
  const P3 := Request(6, 5, 11, true)

  /** The state after the two rejects, with two corrected packets in flight. */
  lemma TwoCorrectionsOut() returns (s: Run)
    ensures s == Exec(TwoCorrectionsQuote(), TwoCorrectionsEvents()[..6])
    ensures s.sender == Sender(0, 0, 10, 18, true, None)
    ensures s.log == [Entry(P0, Rejected), Entry(P1, Outstanding), Entry(P0, Rejected), Entry(P3, Outstanding)]
  {
    var q, max := TwoCorrectionsQuote(), MP.State(MP.Precise(6), 0);
    var es := [TrySend];
    ExecSnoc(q, [], TrySend);
    assert [] + [TrySend] == es;
    assert Exec(q, es) == Run(Sender(0, 0, 6, 11, false, None), max, q.rate, [Entry(P0, Outstanding)]);
    ExecSnoc(q, es, TrySend);
    es := es + [TrySend];
    assert Exec(q, es)
        == Run(Sender(0, 0, 10, 18, true, None), max, q.rate, [Entry(P0, Outstanding), Entry(P1, Outstanding)]);
    ExecSnoc(q, es, Arrive(0, NO_REPLY_DATA));
    es := es + [Arrive(0, NO_REPLY_DATA)];
    assert Exec(q, es)
        == Run(Sender(0, 0, 4, 7, true, None), max, q.rate, [Entry(P0, Rejected), Entry(P1, Outstanding)]);
    ExecSnoc(q, es, TrySend);
    es := es + [TrySend];
    assert Exec(q, es) == Run(Sender(0, 0, 10, 18, false, None), max, q.rate,
                              [Entry(P0, Rejected), Entry(P1, Outstanding), Entry(P0, Outstanding)]);
    ExecSnoc(q, es, Arrive(2, NO_REPLY_DATA));
    es := es + [Arrive(2, NO_REPLY_DATA)];
    assert Exec(q, es) == Run(Sender(0, 0, 4, 7, false, None), max, q.rate,
                              [Entry(P0, Rejected), Entry(P1, Outstanding), Entry(P0, Rejected)]);
    ExecSnoc(q, es, TrySend);
    es := es + [TrySend];
    assert es == TwoCorrectionsEvents()[..6];
    s := Exec(q, es);
  }

  /** Two rejects beside a correction let a second corrected packet through: the payment completes one unit short. */
  lemma TwoCorrectionsRun()
    ensures var q, s := TwoCorrectionsQuote(), Exec(TwoCorrectionsQuote(), TwoCorrectionsEvents());
            && QuotesFixedSend(q) && Paid(q, s.sender)
            && Corrections(s) == 2
            && s.sender.amountDelivered < q.minDeliveryAmount
  {
    var q, es := TwoCorrectionsQuote(), TwoCorrectionsEvents();
    var s6 := TwoCorrectionsOut();
    ExecSnoc(q, es[..6], es[6]);
    assert es[..6] + [es[6]] == es[..7];
    var s7 := Exec(q, es[..7]);
    assert s7.sender == Sender(4, 3, 6, 11, true, None);
    assert s7.log == [Entry(P0, Rejected), Entry(P1, Fulfilled(3)), Entry(P0, Rejected), Entry(P3, Outstanding)];
    ExecSnoc(q, es[..7], es[7]);
    assert es[..7] + [es[7]] == es;
    var s := Exec(q, es);
    assert s.sender == Sender(10, 8, 0, 0, true, None);
    CountsTwo(s);
  }

  lemma CountsTwo(s: Run)
    requires s.log == [Entry(P0, Rejected), Entry(P1, Fulfilled(3)), Entry(P0, Rejected), Entry(P3, Fulfilled(5))]
    ensures Corrections(s) == 2
  {
    var log := s.log;
    assert log == [] + [log[0]] + [log[1]] + [log[2]] + [log[3]];
    SumAppend([log[0]] + [log[1]] + [log[2]], log[3], FulfilledCorrectionOf);
    SumAppend([log[0]] + [log[1]], log[2], FulfilledCorrectionOf);
    SumAppend([log[0]], log[1], FulfilledCorrectionOf);
    SumAppend([], log[0], FulfilledCorrectionOf);
  }

  // ---- the last packet of a fixed-delivery payment ----

  /** The corrected packet that completes a fixed-delivery payment always passes the rate check. */
  lemma FinalCorrectedPacketPasses(q: Quote, s: Sender, maxPacket: Option<nat>, rate: ER.Interval)
    requires q.kind.FixedDelivery? && Available(q, s) > 0 && 0 < Remaining(q, s) <= MAX_U64
    requires Le(q.minExchangeRate, rate.lower) && ER.EstimateSource(rate, Remaining(q, s)).Some?
    requires var limit := ER.EstimateSource(rate, Remaining(q, s)).value.1;
             limit <= Min(OrLesser(Available(q, s), maxPacket), MAX_U64)
    requires !s.appliedRoundingCorrection
    ensures var attempt := NextState(q, s, maxPacket, rate);
            && attempt.Send? && attempt.request.corrected
            && attempt.request.minDestination <= Remaining(q, s) <= ER.LowDestination(rate, attempt.request.source)
  {
    FinalPriceFits(q.minExchangeRate, rate, Remaining(q, s));
  }

  lemma FinalPriceFits(minRate: Ratio, rate: ER.Interval, target: nat)
    requires 0 < target <= MAX_U64 && Le(minRate, rate.lower) && ER.EstimateSource(rate, target).Some?
    ensures var source := ER.EstimateSource(rate, target).value.1;
            source > 0 && MulCeil(source - 1, minRate) <= target <= ER.LowDestination(rate, source)
  {
    var source := ER.EstimateSource(rate, target).value.1;
    EstimatePositive(rate, target);
    LeastSource(rate.lower, target, source);
    LowerRateNeedsLess(minRate, rate.lower, target, source - 1);
  }

  /** The high source estimate delivers the target at the lower rate, and one unit less does not exceed it. */
  lemma LeastSource(lower: PositiveRatio, target: nat, source: pos)
    requires source == MulCeil(target, Ratio(lower.b, lower.a))
    ensures target <= MulFloor(source, lower) && (source - 1) * lower.a <= target * lower.b
  {
    var inverse := Ratio(lower.b, lower.a);
    MulCeilAdjoint(source, target, inverse);
    MulCeilAdjoint(source - 1, target, inverse);
    MulFloorAdjoint(target, source, lower);
  }

  lemma LowerRateNeedsLess(minRate: Ratio, lower: Ratio, target: nat, source: nat)
    requires Le(minRate, lower) && source * lower.a <= target * lower.b
    ensures MulCeil(source, minRate) <= target
  {
    MulCeilAdjoint(target, source, minRate);
    if source > 0 { LeTrans(minRate, lower, Ratio(target, source)); }
  }
}
