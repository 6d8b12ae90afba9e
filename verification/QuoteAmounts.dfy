/** The amounts of a quote and what they guarantee (packages/pay/src/index.ts:370-423). */
module QuoteAmounts {
  import opened Amounts
  import opened Payment
  import opened PaymentRuns
  import ER = ExchangeRate

  datatype QuoteResult = Quoted(quote: Quote) | InsufficientExchangeRate | UnenforceableDelivery

  function StartQuote(kind: PaymentType, amount: pos, minRate: Ratio, maxPacket: pos, rate: ER.Interval): QuoteResult {
    if !Le(minRate, rate.lower) then InsufficientExchangeRate
    else
      match kind
      case FixedSend =>
        Quoted(Quote(FixedSend, amount, MulCeil(SatSub(amount, 1), minRate), minRate, maxPacket, rate))
      case FixedDelivery =>
        match Reciprocal(minRate)
        case None => UnenforceableDelivery
        case Some(inverse) =>
          Quoted(Quote(FixedDelivery, MulFloor(amount, inverse) + 1, amount, minRate, maxPacket, rate))
  }

  ghost predicate Quotes(q: Quote, kind: PaymentType, amount: pos) {
    StartQuote(kind, amount, q.minExchangeRate, q.maxPacketAmount, q.rate) == Quoted(q)
  }

  /** A possible rate is below the minimum. */
  ghost predicate MayFallBelow(rate: ER.Interval, minRate: Ratio) {
    exists r :: ER.Contains(rate, r) && Lt(r, minRate)
  }

  lemma LowerDecides(rate: ER.Interval, minRate: Ratio)
    requires ER.NonEmpty(rate)
    ensures Le(minRate, rate.lower) <==> !MayFallBelow(rate, minRate)
  {
    if Le(minRate, rate.lower) {
      forall r | ER.Contains(rate, r) ensures !Lt(r, minRate) {
        LeTrans(minRate, rate.lower, r);
      }
    } else {
      assert ER.Contains(rate, rate.lower) && Lt(rate.lower, minRate);
    }
  }

  /** Why a quote is refused, and what it carries when it is not. */
  lemma QuotedIff(kind: PaymentType, amount: pos, minRate: Ratio, maxPacket: pos, rate: ER.Interval)
    requires ER.NonEmpty(rate)
    ensures var result := StartQuote(kind, amount, minRate, maxPacket, rate);
            && (result.InsufficientExchangeRate? <==> MayFallBelow(rate, minRate))
            && (result.UnenforceableDelivery? <==>
                  !MayFallBelow(rate, minRate) && kind.FixedDelivery? && minRate.a == 0)
            && (result.Quoted? ==> CarriesTerms(result.quote, kind, amount, minRate, maxPacket, rate))
  {
    LowerDecides(rate, minRate);
  }

  ghost predicate CarriesTerms(q: Quote, kind: PaymentType, amount: pos, minRate: Ratio, maxPacket: pos,
                               rate: ER.Interval) {
    && q.kind == kind && q.minExchangeRate == minRate && q.maxPacketAmount == maxPacket && q.rate == rate
    && (match kind case FixedSend => q.maxSourceAmount == amount case FixedDelivery => q.minDeliveryAmount == amount)
  }

  // ---- the budget of a fixed delivery ----

  /** The source amount a fixed-delivery quote allows. */
  function Budget(target: pos, minRate: PositiveRatio): pos {
    MulFloor(target, Ratio(minRate.b, minRate.a)) + 1
  }

  /** Delivered by the budget less one unit, at exactly the minimum rate. */
  function Guaranteed(target: pos, minRate: PositiveRatio): nat {
    MulCeil(Budget(target, minRate) - 1, minRate)
  }

  /** Dividing the target by the rate leaves less than one unit over. */
  predicate DividesClosely(target: pos, minRate: PositiveRatio) {
    target * minRate.b % minRate.a < minRate.b
  }

  lemma GuaranteeCoversIff(target: pos, minRate: PositiveRatio)
    ensures Guaranteed(target, minRate) >= target <==> DividesClosely(target, minRate)
  {
    var a, b := minRate.a, minRate.b;
    var n := target * b / a;
    assert n * a == target * b - target * b % a;
    MulCeilAdjoint(target - 1, n, minRate);
    assert (target - 1) * b == target * b - b;
  }

  /** At any rate the budget falls short by strictly less than the worth of one source unit. */
  lemma BudgetShortfall(target: pos, minRate: PositiveRatio)
    ensures SatSub(target, Guaranteed(target, minRate)) * minRate.b < minRate.a
  {
    var a, b := minRate.a, minRate.b;
    var n, given := target * b / a, Guaranteed(target, minRate);
    assert n * a == target * b - target * b % a;
    MulCeilAdjoint(given, n, minRate);
    if target > given {
      assert (target - given) * b == target * b - given * b;
    }
  }

  /** A run of a quoted fixed delivery that spent its whole budget with at most one correction. */
  ghost predicate SpendsBudget(q: Quote, target: pos, es: seq<Event>) {
    && Quotes(q, FixedDelivery, target)
    && Corrections(Exec(q, es)) <= 1
    && Exec(q, es).sender.amountSent == q.maxSourceAmount
  }

  lemma BudgetDelivers(q: Quote, target: pos, es: seq<Event>)
    requires SpendsBudget(q, target, es)
    ensures q.minExchangeRate.a > 0
    ensures Exec(q, es).sender.amountDelivered >= Guaranteed(target, q.minExchangeRate)
  {
    DeliveredCoversRate(q, es);
    CoversFewer(q, Exec(q, es), Corrections(Exec(q, es)), 1);
    BudgetIsQuoted(q, target);
  }

  lemma BudgetIsQuoted(q: Quote, target: pos)
    requires Quotes(q, FixedDelivery, target)
    ensures q.minExchangeRate.a > 0 && q.maxSourceAmount == Budget(target, q.minExchangeRate)
  {
  }

  /**
   * A fixed-delivery run that spends its whole budget delivers the target, provided at most one correction
   * was fulfilled and the rate divides the target closely enough; in every case it is short by less
   * than one source unit's worth.
   */
  lemma SpentBudgetDelivers(q: Quote, target: pos, es: seq<Event>)
    requires SpendsBudget(q, target, es)
    ensures q.minExchangeRate.a > 0
    ensures DividesClosely(target, q.minExchangeRate) ==> Exec(q, es).sender.amountDelivered >= target
    ensures SatSub(target, Exec(q, es).sender.amountDelivered) * q.minExchangeRate.b < q.minExchangeRate.a
  {
    BudgetDelivers(q, target, es);
    GuaranteeCoversIff(target, q.minExchangeRate);
    BudgetShortfall(target, q.minExchangeRate);
    MulMonotone(SatSub(target, Exec(q, es).sender.amountDelivered),
                SatSub(target, Guaranteed(target, q.minExchangeRate)), q.minExchangeRate.b);
  }

  /** Minimum rates up to one divide every target closely. */
  lemma SpentBudgetDeliversUpToOne(q: Quote, target: pos, es: seq<Event>)
    requires SpendsBudget(q, target, es) && q.minExchangeRate.a <= q.minExchangeRate.b
    ensures Exec(q, es).sender.amountDelivered >= target
  {
    SpentBudgetDelivers(q, target, es);
  }

  // ---- and a run that falls short where it can ----

  /** Probed at exactly the minimum rate, with room for the whole budget in one packet. */
  function ShortQuote(target: pos, minRate: PositiveRatio): Quote {
    var budget := Budget(target, minRate);
    Quote(FixedDelivery, budget, target, minRate, budget, ER.Interval(minRate, Ratio(minRate.a + 1, minRate.b)))
  }

  /** The one packet is fulfilled with the least amount it accepts. */
  function ShortEvents(target: pos, minRate: PositiveRatio): seq<Event> {
    [TrySend, Arrive(0, FulfilledWith(Guaranteed(target, minRate)))]
  }

  /** One source unit more than the quotient is more than enough for the target. */
  lemma BudgetIsCeiling(target: pos, minRate: PositiveRatio)
    requires !DividesClosely(target, minRate)
    ensures MulCeil(target, Ratio(minRate.b, minRate.a)) == Budget(target, minRate)
    ensures target <= MulFloor(Budget(target, minRate), minRate)
  {
    var a, b := minRate.a, minRate.b;
    var inverse, n := Ratio(b, a), target * b / a;
    assert n * a == target * b - target * b % a;
    assert (n + 1) * a == n * a + a;
    MulCeilAdjoint(n + 1, target, inverse);
    MulCeilAdjoint(n, target, inverse);
    MulFloorAdjoint(target, n + 1, minRate);
  }

  lemma BudgetAtMostTarget(target: pos, minRate: PositiveRatio)
    requires !DividesClosely(target, minRate)
    ensures Budget(target, minRate) <= target
  {
    var a, b := minRate.a, minRate.b;
    assert b < a;
    assert target * b < target * a;
    DivFloorAdjoint(target, target * b, a);
  }

  /** The first packet takes the whole budget if the source estimate asks for just that, and is corrected. */
  lemma WholeBudgetPacket(q: Quote) returns (request: Request)
    requires q.kind.FixedDelivery? && q.maxPacketAmount == q.maxSourceAmount <= MAX_U64 && q.minDeliveryAmount > 0
    requires var estimate := ER.EstimateSource(q.rate, q.minDeliveryAmount);
             estimate.Some? && estimate.value.1 == q.maxSourceAmount
    requires MulCeil(q.maxSourceAmount - 1, q.minExchangeRate) <= ER.LowDestination(q.rate, q.maxSourceAmount)
    ensures Proposal(q, Start(q)) == Send(request)
    ensures request.source == q.maxSourceAmount && request.corrected
    ensures request.minDestination == MulCeil(q.maxSourceAmount - 1, q.minExchangeRate)
  {
    request := Proposal(q, Start(q)).request;
  }

  /** Its fulfilment with the least accepted amount spends the budget and delivers no more. */
  lemma FulfilledAtMinimum(q: Quote, request: Request, es: seq<Event>)
    requires Proposal(q, Start(q)) == Send(request) && request.corrected
    requires es == [TrySend, Arrive(0, FulfilledWith(request.minDestination))]
    ensures Exec(q, es).sender.amountSent == request.source && Corrections(Exec(q, es)) == 1
    ensures Exec(q, es).sender.amountDelivered == request.minDestination
    ensures NeverSendsWhileFlagged(q, es)
  {
    ExecSnoc(q, [], TrySend);
    assert [] + [TrySend] == [TrySend];
    assert Exec(q, [TrySend]).log == [Entry(request, Outstanding)];
    ExecSnoc(q, [TrySend], es[1]);
    assert [TrySend] + [es[1]] == es;
    var log := Exec(q, es).log;
    assert log == [] + [Entry(request, Fulfilled(request.minDestination))];
    SumAppend([], log[0], FulfilledCorrectionOf);
    assert Init(es) == [TrySend] && Init([TrySend]) == [];
  }

  lemma ShortQuoteIsQuoted(target: pos, minRate: PositiveRatio)
    ensures Quotes(ShortQuote(target, minRate), FixedDelivery, target)
  {
  }

  /** Where the rate does not divide the target closely, a run spends the budget and delivers less than the target. */
  lemma BudgetFallsShort(target: pos, minRate: PositiveRatio)
    requires !DividesClosely(target, minRate) && target <= MAX_U64
    ensures var q, es := ShortQuote(target, minRate), ShortEvents(target, minRate);
            && q.minExchangeRate == minRate && SpendsBudget(q, target, es) && NeverSendsWhileFlagged(q, es)
            && Exec(q, es).sender.amountDelivered == Guaranteed(target, minRate) < target
  {
    var q, es := ShortQuote(target, minRate), ShortEvents(target, minRate);
    ShortQuoteIsQuoted(target, minRate);
    BudgetIsCeiling(target, minRate);
    BudgetAtMostTarget(target, minRate);
    GuaranteeCoversIff(target, minRate);
    var request := WholeBudgetPacket(q);
    FulfilledAtMinimum(q, request, es);
  }

  /**
   * Over all quotes at a minimum rate and all their runs: spending the budget guarantees the target
   * if and only if the rate divides the target closely.
   */
  lemma BudgetSufficesIff(target: pos, minRate: PositiveRatio)
    requires target <= MAX_U64
    ensures DividesClosely(target, minRate)
            <==> forall q: Quote, es: seq<Event> :: q.minExchangeRate == minRate && SpendsBudget(q, target, es)
                   ==> Exec(q, es).sender.amountDelivered >= target
  {
    if DividesClosely(target, minRate) {
      forall q: Quote, es: seq<Event> | q.minExchangeRate == minRate && SpendsBudget(q, target, es)
        ensures Exec(q, es).sender.amountDelivered >= target
      {
        SpentBudgetDelivers(q, target, es);
      }
    } else {
      BudgetFallsShort(target, minRate);
    }
  }

  /** Two units at three to one: the budget is a single unit, and a run spends it and delivers nothing. */
  lemma BudgetShortfallExample()
    ensures var q, es := ShortQuote(2, Ratio(3, 1)), ShortEvents(2, Ratio(3, 1));
            SpendsBudget(q, 2, es) && Exec(q, es).sender.amountSent == 1 && Exec(q, es).sender.amountDelivered == 0
  {
    BudgetFallsShort(2, Ratio(3, 1));
  }

  /** A completed fixed-send payment delivers the amount its quote promised. */
  lemma FixedSendQuoteIsKept(q: Quote, amount: pos, es: seq<Event>)
    requires Quotes(q, FixedSend, amount) && NeverRejectsBesideCorrection(q, es)
    requires Paid(q, Exec(q, es).sender)
    ensures Exec(q, es).sender.amountSent == amount
    ensures Exec(q, es).sender.amountDelivered >= MulCeil(amount - 1, q.minExchangeRate)
    ensures forall id: nat :: !Pending(Exec(q, es), id)
  {
    FixedSendDeliversQuote(q, es);
    CompletionSettlesEverything(q, es);
  }
}
