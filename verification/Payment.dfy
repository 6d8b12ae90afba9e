/** Accounting of a payment with many packets in flight (packages/pay/src/senders/payment.ts). */
module Payment {
  import opened Basics
  import opened Amounts
  import ER = ExchangeRate
  import MP = MaxPacket

  datatype PaymentType = FixedSend | FixedDelivery

  datatype Quote = Quote(kind: PaymentType, maxSourceAmount: pos, minDeliveryAmount: nat,
                         minExchangeRate: Ratio, maxPacketAmount: pos, rate: ER.Interval)

  /** The accounting fields of the sender. */
  datatype Sender = Sender(amountSent: nat, amountDelivered: nat,
                           sourceAmountInFlight: nat, destinationAmountInFlight: nat,
                           appliedRoundingCorrection: bool, remoteReceiveMax: Option<nat>)

  /** What the reply closure of a committed request captured. */
  datatype Request = Request(source: nat, minDestination: nat, highDestination: nat, corrected: bool)

  datatype Attempt = Yield | InsufficientRate | Send(request: Request)

  /** `tooLarge` is present on an F08 reject; `delivered` is present on an authentic STREAM reply. */
  datatype Reply = Reply(fulfilled: bool, tooLarge: Option<Option<MP.Metadata>>,
                         delivered: Option<nat>, receiveMax: Option<nat>)

  datatype Verdict = Schedule | Complete | ReceiverProtocolViolation | IncompatibleReceiveMax

  function NewSender(): Sender {
    Sender(0, 0, 0, 0, false, None)
  }

  function SignalOf(r: Reply): MP.Signal {
    if !r.fulfilled && r.tooLarge.Some? then MP.TooLarge(r.tooLarge.value)
    else if r.fulfilled || r.delivered.Some? then MP.Authentic
    else MP.Unauthenticated
  }

  function Available(q: Quote, s: Sender): nat {
    SatSub(SatSub(q.maxSourceAmount, s.amountSent), s.sourceAmountInFlight)
  }

  function Remaining(q: Quote, s: Sender): nat {
    SatSub(SatSub(q.minDeliveryAmount, s.amountDelivered), s.destinationAmountInFlight)
  }

  /** Price a packet of `source` units and check it against the projected rate. */
  function Priced(q: Quote, s: Sender, rate: ER.Interval, source: nat, completesPayment: bool): Attempt {
    var corrected := completesPayment && !s.appliedRoundingCorrection;
    var minDestination := MulCeil(if corrected then SatSub(source, 1) else source, q.minExchangeRate);
    if ER.LowDestination(rate, source) < minDestination then InsufficientRate
    else Send(Request(source, minDestination, ER.HighDestination(rate, source), corrected))
  }

  function NextState(q: Quote, s: Sender, maxPacket: Option<nat>, rate: ER.Interval): Attempt {
    var available := Available(q, s);
    if available == 0 then Yield
    else
      var source := Min(OrLesser(available, maxPacket), MAX_U64);
      match q.kind
      case FixedSend => Priced(q, s, rate, source, source == available)
      case FixedDelivery =>
        var remaining := Remaining(q, s);
        if remaining == 0 then Yield
        else
          match ER.EstimateSource(rate, remaining)
          case None => InsufficientRate
          case Some((_, limit)) => Priced(q, s, rate, Min(source, limit), Min(source, limit) == limit)
  }

  function Commit(s: Sender, r: Request): Sender {
    s.(sourceAmountInFlight := s.sourceAmountInFlight + r.source,
       destinationAmountInFlight := s.destinationAmountInFlight + r.highDestination,
       appliedRoundingCorrection := r.corrected)
  }

  /** The amount a fulfilled packet counts as delivered. */
  function Credited(r: Request, reply: Reply): nat {
    OrGreater(r.minDestination, reply.delivered)
  }

  function Settle(s: Sender, r: Request, reply: Reply): Sender {
    s.(amountSent := if reply.fulfilled then s.amountSent + r.source else s.amountSent,
       amountDelivered := if reply.fulfilled then s.amountDelivered + Credited(r, reply) else s.amountDelivered,
       sourceAmountInFlight := SatSub(s.sourceAmountInFlight, r.source),
       destinationAmountInFlight := SatSub(s.destinationAmountInFlight, r.highDestination),
       appliedRoundingCorrection := s.appliedRoundingCorrection && !(!reply.fulfilled && r.corrected))
  }

  function NewReceiveMax(s: Sender, reply: Reply): Option<nat> {
    if reply.receiveMax.Some? then Some(OrGreater(reply.receiveMax.value, s.remoteReceiveMax))
    else s.remoteReceiveMax
  }

  predicate Violates(r: Request, reply: Reply) {
    reply.fulfilled && (reply.delivered.None? || reply.delivered.value < r.minDestination)
  }

  predicate Paid(q: Quote, s: Sender) {
    match q.kind
    case FixedSend => s.amountSent == q.maxSourceAmount
    case FixedDelivery => s.amountDelivered >= q.minDeliveryAmount && s.sourceAmountInFlight == 0
  }

  /** Accounting first, then the protocol checks, then completion. */
  function ApplyReply(q: Quote, s: Sender, r: Request, reply: Reply): (Sender, Verdict) {
    var settled := Settle(s, r, reply);
    if Violates(r, reply) then (settled, ReceiverProtocolViolation)
    else if Paid(q, settled) then (settled, Complete)
    else
      var receiveMax := NewReceiveMax(settled, reply);
      (settled.(remoteReceiveMax := receiveMax),
       if receiveMax.Some? && receiveMax.value < q.minDeliveryAmount then IncompatibleReceiveMax else Schedule)
  }

  /** The sender object. */
  class PaymentSender {
    const quote: Quote
    var amountSent: nat
    var amountDelivered: nat
    var sourceAmountInFlight: nat
    var destinationAmountInFlight: nat
    var appliedRoundingCorrection: bool
    var remoteReceiveMax: Option<nat>

    function View(): Sender
      reads this
    {
      Sender(amountSent, amountDelivered, sourceAmountInFlight, destinationAmountInFlight,
             appliedRoundingCorrection, remoteReceiveMax)
    }

    constructor (quote: Quote)
      ensures View() == NewSender() && this.quote == quote
    {
      this.quote := quote;
      amountSent, amountDelivered, sourceAmountInFlight, destinationAmountInFlight := 0, 0, 0, 0;
      appliedRoundingCorrection, remoteReceiveMax := false, None;
    }

    /** Commits the request it returns; changes nothing otherwise. */
    method TryNext(maxPacketAmount: Option<nat>, rate: ER.Interval) returns (attempt: Attempt)
      modifies this
      ensures attempt == NextState(quote, old(View()), maxPacketAmount, rate)
      ensures View() == if attempt.Send? then Commit(old(View()), attempt.request) else old(View())
    {
      var availableToSend := SatSub(SatSub(quote.maxSourceAmount, amountSent), sourceAmountInFlight);
      if availableToSend == 0 {
        return Yield;
      }
      var sourceAmount := Min(OrLesser(availableToSend, maxPacketAmount), MAX_U64);
      var completesPayment := false;
      if quote.kind == FixedDelivery {
        var remainingToDeliver :=
          SatSub(SatSub(quote.minDeliveryAmount, amountDelivered), destinationAmountInFlight);
        if remainingToDeliver == 0 {
          return Yield;
        }
        var estimate := ER.EstimateSource(rate, remainingToDeliver);
        if estimate.None? {
          return InsufficientRate;
        }
        var deliveryLimit := estimate.value.1;
        sourceAmount := Min(sourceAmount, deliveryLimit);
        completesPayment := sourceAmount == deliveryLimit;
      } else {
        completesPayment := sourceAmount == availableToSend;
      }
      var applyCorrection := completesPayment && !appliedRoundingCorrection;
      var minDestinationAmount := if applyCorrection
        then MulCeil(SatSub(sourceAmount, 1), quote.minExchangeRate)
        else MulCeil(sourceAmount, quote.minExchangeRate);
      var projected, highEnd := ER.LowDestination(rate, sourceAmount), ER.HighDestination(rate, sourceAmount);
      if projected < minDestinationAmount {
        return InsufficientRate;
      }
      sourceAmountInFlight := sourceAmountInFlight + sourceAmount;
      destinationAmountInFlight := destinationAmountInFlight + highEnd;
      appliedRoundingCorrection := applyCorrection;
      return Send(Request(sourceAmount, minDestinationAmount, highEnd, applyCorrection));
    }

    method OnReply(request: Request, reply: Reply) returns (verdict: Verdict)
      modifies this
      ensures (View(), verdict) == ApplyReply(quote, old(View()), request, reply)
    {
      var destinationAmount := OrGreater(request.minDestination, reply.delivered);
      if reply.fulfilled {
        amountSent := amountSent + request.source;
        amountDelivered := amountDelivered + destinationAmount;
      }
      sourceAmountInFlight := SatSub(sourceAmountInFlight, request.source);
      destinationAmountInFlight := SatSub(destinationAmountInFlight, request.highDestination);
      if !reply.fulfilled && request.corrected {
        appliedRoundingCorrection := false;
      }
      if reply.fulfilled {
        if reply.delivered.None? {
          return ReceiverProtocolViolation;
        } else if reply.delivered.value < request.minDestination {
          return ReceiverProtocolViolation;
        }
      }
      if quote.kind == FixedSend && amountSent == quote.maxSourceAmount {
        return Complete;
      }
      if quote.kind == FixedDelivery && amountDelivered >= quote.minDeliveryAmount && sourceAmountInFlight == 0 {
        return Complete;
      }
      if reply.receiveMax.Some? {
        remoteReceiveMax := Some(OrGreater(reply.receiveMax.value, remoteReceiveMax));
      }
      if remoteReceiveMax.Some? && remoteReceiveMax.value < quote.minDeliveryAmount {
        return IncompatibleReceiveMax;
      }
      return Schedule;
    }
  }
}
