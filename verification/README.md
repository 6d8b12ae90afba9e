# Verified model of Interledger STREAM payments

A Dafny model of the parts of interledgerjs that move money and bytes: the `pay` sender with many packets in
flight, the exchange-rate and maximum-packet estimators it learns from, the STREAM data transport, the 64-bit
arithmetic and hold ledgers of a STREAM connection, and the canonical OER and STREAM packet codecs.

`dafny verify dfyconfig.toml` checks the whole project.

## How the model is built

Every stateful object of the source is a class whose methods update its fields; each method is proved equal to a
function on values (`View()` gives the value). Runs are sequences of events folded over those functions, and the
theorems quantify over every sequence, so over every interleaving of sends, replies, rejects, resends and deliveries.
Replies, network order, scheduling and the verdicts of the controllers that are not modelled are inputs.

| modules | part of the system |
|---|---|
| Amounts, ExchangeRate, MaxPacket, PacketHops, RateProbe, ProbeProgress | exact amounts and ratios; the rate interval and its estimators; the binary search for the largest packet, and hops that state their maximum; the probing loop and why it ends |
| Payment, PaymentDecisions, PaymentRuns, PaymentReports, QuoteAmounts, SendLoop, SendLoopProgress | the sender's accounting, what it decides, its runs, what they were told, the quoted amounts, the send loop with its two schedulers and when it hangs |
| Long64, Rational64 | wrapping 64-bit arithmetic, `multiplyDivide`, packet amounts |
| MoneyStream, SendLedger, StreamObjects, ReceiveLedger | holds of one stream, the allocator and ledger of all streams, incoming amounts |
| DataQueues, OffsetSorters, StreamData, Transport, TransportProgress | linked lists of outgoing and incoming data, the byte transport between two ends, and its progress |
| Oer, OerStreams, StreamPackets, PacketCodec, WireFormat | octet encoding as functions; writer, predictor and reader objects; the 15 frame types; serializing and parsing packets; the bytes on the wire |

## Where the code does not do what it says

Each of these is proved with a concrete input and with the exact condition under which the code does meet the promise.

- The comments at packages/pay/src/senders/payment.ts:49 and 144 allow one rounding correction per payment. Line 164
  overwrites the flag on every send, so an uncorrected packet sent while the flag is set forgets a live correction.
  `FlagTruthfulIffNoSendWhileFlagged` gives the condition, `DeliveredCoversRate` the bound that holds in every run, and
  `TwoCorrectionsRun` a fixed-send payment that completes below its quote.
- A fixed-delivery budget (packages/pay/src/index.ts:410) that is spent guarantees its target if and only if
  `target * b % a < b` for the minimum rate `a / b` (`BudgetSufficesIff`, over all quotes and runs); this holds for
  every target when the rate is at most one, and beyond that the shortfall is worth less than one source unit
  (`SpentBudgetDelivers`). `BudgetFallsShort` gives the run for every other target, `BudgetShortfallExample` one of them.
- A fixed delivery that spends its budget and misses its target never ends: `nextState` yields
  (packages/pay/src/senders/payment.ts:104-110), nothing is in flight, and the loop waits for a task that will not come.
  That is the only way it can hang (`HangsOnlyWhenExhausted`, `ExhaustedHangs`, `ShortPaymentHangs`).
- The maximum derived from a hop's figures (packages/pay/src/controllers/max-packet.ts:131-146) is always an amount the
  hop carries, but it is the greatest such amount if and only if that one loses nothing to rounding
  (`ImpliesThresholdIff`), and a payment over a usable hop may be given up (`NeverAbandonsIff`, `UsableHopIsAbandoned`).
- `multiplyDivide` (packages/ilp-protocol-stream/src/util/long.ts:130-168) is exact for all factors whose quotient fits
  if and only if the divisor is at most 2^63 (`ExactForAllFactorsIff`). Its overflow check works for every multiplier
  if and only if the other factor is below twice the divisor (`SaturatesForAllMultipliersIff`). A larger divisor only
  ever loses: no result exceeds the exact one (`MultiplyDivideAtMost`).
- A peer that chooses shares with a total above 2^63 makes the split of a prepare
  (packages/ilp-protocol-stream/src/connection.ts:706-725) lose whole units; `SplitsCloselyIff` gives the condition,
  `LargeTotalLosesAll` the failing input for every such total. The streams never get more than came in
  (`SplitNeverExceeds`).
- A stream asks for enough to fill the room at its receiver (packages/ilp-protocol-stream/src/connection.ts:1294-1309)
  if and only if the rate is above one half: below, the overflow of the conversion goes unnoticed (`FillsRoomIff`).
  It never asks for more than fits (`WantFitsRoom`).
- Rates are converted exactly (packages/ilp-protocol-stream/src/util/rational.ts:65-67) if and only if their denominator
  is at most 2^63 (`ConvertsExactlyIff`).
- `checkedSubtract` (long.ts:72-85) misses an underflow exactly when twice the subtrahend reaches the minuend plus 2^64
  (`CheckedSubtractIsMonusIff`); on streams this lets a lowered limit be overspent (`LoweredLimitOverspends`).
  `LimitIsSafeIff` tells which limits are safe to set.
- `addIncomingHold` (packages/ilp-protocol-stream/src/connection.ts:2086-2098) stores the total plus the hold plus the
  amount, so the hold keeps growing (`AcceptedPrepareLeaksTotal`) and packets that would fit are refused
  (`RefusesTooEarly`). Over runs, refusals are right if and only if no packet was held after money was received, or
  nothing fits (`RunRefusesRightlyIff`). The totals stay exact all the same (`EveryRunIsSound`).
- `OffsetSorter.read` never drops an entry below its read offset. Data that arrives again after it was read blocks the
  stream for good (`BlockedIffReceivedAgain`, `BlockedForever`, `RejectedAfterIngestionBlocks`).
- `readLengthPrefix` (packages/oer-utils/src/lib/reader.ts:451) shifts a 32-bit integer, so prefixes with five or six
  length bytes escape the canonicity check (`AcceptedPrefixCanonicalIff`, `LongPrefixIsNotCanonical`).
- `longToBuffer` (packages/oer-utils/src/lib/util.ts:62-64) drops bytes when more than eight are asked for
  (`LongToBufferIsExactIff`); STREAM packets never do.

## Model

| member | source | states |
|---|---|---|
| `Amounts.MulFloorAdjoint` | packages/pay/src/utils.ts:114-116 | `multiplyFloor` is the largest integer not above the product, as an equivalence usable in both directions |
| `Amounts.MulCeilAdjoint` | packages/pay/src/utils.ts:118-129 | `multiplyCeil` is the least integer not below the product |
| `ExchangeRate.StaysNonEmpty` | packages/pay/src/controllers/exchange-rate.ts:15-66 | after any sequence of replies the lower bound is below the upper bound |
| `ExchangeRate.PacketIntervalExact` | packages/pay/src/controllers/exchange-rate.ts:27-31 | a reply's bounds contain exactly the rates that floor the source amount to the delivered amount |
| `ExchangeRate.ObserveIntersects` | packages/pay/src/controllers/exchange-rate.ts:48-64 | without a reset, an update keeps exactly the rates that also explain the new reply |
| `ExchangeRate.IntervalIsExact` | packages/pay/src/controllers/exchange-rate.ts:33-66 | after any replies the interval is exactly the set of rates that explain every reply since the last reset, and lie in the initial interval if there was none |
| `ExchangeRate.ConstantRateNeverResets` | packages/pay/src/controllers/exchange-rate.ts:33-46 | if one rate in the initial interval explains every reply, no reset happens and that rate stays in the interval |
| `ExchangeRate.DestinationEstimateSound` | packages/pay/src/controllers/exchange-rate.ts:83-95 | every rate in the interval delivers between the low and high estimates, up to the 64-bit cap |
| `ExchangeRate.DestinationEstimateTight` | packages/pay/src/controllers/exchange-rate.ts:83-95 | both estimates are reached by some rate in the interval |
| `ExchangeRate.HighSourceIsLeastSufficient` | packages/pay/src/controllers/exchange-rate.ts:97-118 | the high source estimate is the least amount that delivers the target at every rate in the interval |
| `ExchangeRate.EstimateExistsIff` | packages/pay/src/controllers/exchange-rate.ts:106-111 | there is a source estimate if and only if some amount delivers the target at every rate in the interval |
| `ExchangeRate.LowSourceIsLeastPossible` | packages/pay/src/controllers/exchange-rate.ts:97-118 | the low source estimate is the least amount that delivers the target at some rate in the interval |
| `ExchangeRate.ExchangeRateController.ApplyReply` | packages/pay/src/controllers/exchange-rate.ts:15-66 | the in-place update computes the interval that the theorems are about and never empties it |
| `MaxPacket.ImpliedMaxAtMostSource` | packages/pay/src/controllers/max-packet.ts:116-140 | the maximum derived from an F08 never exceeds the amount that was sent |
| `PacketHops.ImpliedMaxInProportion` | packages/pay/src/controllers/max-packet.ts:131-134 | the maximum implied by a hop's figures is the greatest amount k with k * received <= maximum * source |
| `PacketHops.FailsIff` | packages/pay/src/controllers/max-packet.ts:116-146 | an F08 ends the payment exactly when it is consistent and leaves no amount to send |
| `PacketHops.ReducesToImplied` | packages/pay/src/controllers/max-packet.ts:148-161 | an F08 that is heeded sets the limit to what it implies, if that is lower; a hop's figures make it precise |
| `PacketHops.ContradictionIsIgnored` | packages/pay/src/controllers/max-packet.ts:125-129 | an F08 for an amount within its own maximum changes nothing |
| `PacketHops.ImpliedIsCarried` | packages/pay/src/controllers/max-packet.ts:131-134 | for a path that converts at one rate to a hop with one maximum, rounding never makes the implied amount too large for the hop |
| `PacketHops.ImpliedIsClose` | packages/pay/src/controllers/max-packet.ts:131-134 | and it falls short of the greatest amount the hop carries by less than one hop unit's cost and one unit |
| `PacketHops.ImpliesThresholdIff` | packages/pay/src/controllers/max-packet.ts:131-134 | every F08 of such a hop implies exactly its threshold if and only if the threshold loses nothing to rounding |
| `PacketHops.NeverAbandonsIff` | packages/pay/src/controllers/max-packet.ts:142-146 | no F08 of such a hop ends the payment if and only if one source unit is worth at most the hop's maximum |
| `PacketHops.UsableHopIsAbandoned` | packages/pay/src/controllers/max-packet.ts:142-146 | a hop that carries one unit, and an F08 that ends the payment all the same |
| `PacketHops.HopLimitIsCarried` | packages/pay/src/controllers/max-packet.ts:113-162 | after an F08 of such a hop the limit is an amount the hop carries, or the payment ends |
| `PacketHops.HopReplyFindsThreshold` | packages/pay/src/controllers/max-packet.ts:102-193 | where nothing is lost to rounding, replies keep the threshold enclosed and one F08 makes the limit precise at it |
| `MaxPacket.ApplyKeepsValid` | packages/pay/src/controllers/max-packet.ts:102-193 | any reply keeps the capacity within the limit and never raises the limit |
| `MaxPacket.LimitNeverRises` | packages/pay/src/controllers/max-packet.ts:97-193 | the same over any sequence of replies |
| `MaxPacket.NextProbeInGap` | packages/pay/src/controllers/max-packet.ts:65-84 | an imprecise search probes strictly above the verified capacity and at most at the limit |
| `MaxPacket.PathReplyKeepsBracket` | packages/pay/src/controllers/max-packet.ts:102-193 | on a path that accepts exactly amounts up to a threshold, capacity <= threshold <= limit and the gap never grows, after a reply to any amount and also while a quoted maximum is still unverified |
| `MaxPacket.ProbeHalvesGap` | packages/pay/src/controllers/max-packet.ts:65-84 | a reply to the current probe amount at least halves the gap, or replaces an unverified maximum by a search below it |
| `MaxPacket.SearchFindsThreshold` | packages/pay/src/controllers/max-packet.ts:65-193 | from any known limit, with enough replies to probe amounts among replies to any other amounts in any order, the search ends precise at exactly the threshold |
| `MaxPacket.ShrunkPathIsFound` | packages/pay/src/senders/payment.ts:79 | a payment that starts with its quoted maximum finds the threshold of a path that has shrunk below it |
| `MaxPacket.MaxPacketAmountController.ApplyReply` | packages/pay/src/controllers/max-packet.ts:102-110 | dispatches a reply and computes the new state |
| `MaxPacket.MaxPacketAmountController.ReduceMaxPacketAmount` | packages/pay/src/controllers/max-packet.ts:113-162 | the in-place handling of an F08 |
| `MaxPacket.MaxPacketAmountController.AdjustPathCapacity` | packages/pay/src/controllers/max-packet.ts:168-193 | the in-place raise of the capacity, and the end of the search |
| `MaxPacket.MaxPacketAmountController.GetMaxPacketAmountLimit` | packages/pay/src/controllers/max-packet.ts:98-100 | the current limit |
| `RateProbe.StepKeepsSound` | packages/pay/src/senders/rate-probe.ts:89-115 | each attempt and each reply keeps the probe able to go on |
| `RateProbe.ProbeNeverStuck` | packages/pay/src/senders/rate-probe.ts:89-115 | in every run a running probe has a reply or a scheduled attempt to wait for, and an attempt to come has an amount to send |
| `RateProbe.StepKeepsOnPath` | packages/pay/src/senders/rate-probe.ts:89-115 | every step of a run against an honest path keeps the bracket and the rate interval around the truth |
| `RateProbe.ProbeReportsThePath` | packages/pay/src/senders/rate-probe.ts:107-114 | in every run against a path with one threshold and one rate, the probe does not fail, and when it ends it reports that threshold (the 64-bit maximum for large paths) and an interval that contains the rate |
| `ProbeProgress.ReplyProgresses` | packages/pay/src/senders/rate-probe.ts:97-106 | against an honest path each reply of a running search halves the gap or uses up one of the at most eleven jobs from before the last halving |
| `ProbeProgress.RepliesUsePotential` | packages/pay/src/senders/rate-probe.ts:89-115 | so over any run replies are paid for by a potential of twelve per halving still to come |
| `ProbeProgress.ProbeEnds` | packages/pay/src/senders/rate-probe.ts:89-115 | against an honest path the probe ends: while it runs it has had fewer than 480 replies since the one to its largest packet or since the first F08, in whatever order they came |
| `RateProbe.RateProbeSender.NextState` | packages/pay/src/senders/rate-probe.ts:89-97 | the queue of test amounts and the set of amounts in flight after an attempt |
| `RateProbe.RateProbeSender.ApplyReply` | packages/pay/src/senders/rate-probe.ts:97-115 | the queue after a reply, and when the probe is complete |
| `Payment.PaymentSender.TryNext` | packages/pay/src/senders/payment.ts:100-172 | computes the decision that `DecidesRightly` characterises, commits the request it returns and changes nothing otherwise |
| `Payment.PaymentSender.OnReply` | packages/pay/src/senders/payment.ts:174-272 | computes the new accounts and the verdict that `CreditsGreatest` and `JudgesRightly` characterise |
| `PaymentDecisions.DecidesRightly` | packages/pay/src/senders/payment.ts:100-172 | wait exactly when there is nothing to send; refuse exactly when a possible rate is too low for the packet; otherwise send the one packet of the right size, corrected exactly when it completes the payment, with a minimum that every possible rate delivers and a reserve that the best of them delivers |
| `PaymentDecisions.SentIsRight` | packages/pay/src/senders/payment.ts:112-172 | size, correction, minimum and reserve of a request, for every sender state and interval of rates |
| `PaymentDecisions.RefusesIff` | packages/pay/src/senders/payment.ts:130-156 | the rate is refused exactly when no amount is sure to deliver the rest, or some possible rate delivers less than the minimum of the packet of the right size |
| `PaymentDecisions.RightSizeIsUnique` | packages/pay/src/senders/payment.ts:112-141 | only one amount is of the right size |
| `PaymentDecisions.CreditsGreatest` | packages/pay/src/senders/payment.ts:174-189 | a fulfilled packet is credited with the reported amount, or its minimum if that is more |
| `PaymentDecisions.JudgesRightly` | packages/pay/src/senders/payment.ts:225-272 | a violation exactly when a fulfilled packet was not reported with what it is credited; completion exactly when paid otherwise; and the receive limit is the greatest reported one |
| `PaymentReports.AcceptedRunsAreReported` | packages/pay/src/senders/payment.ts:225-267 | in every run without an error verdict the amount delivered is the sum of the reported amounts, and every receive limit kept admits the payment |
| `PaymentReports.UnfinishedRunsAreUnpaid` | packages/pay/src/senders/payment.ts:241-256 | a run in which every reply asked for more is not paid yet |
| `PaymentReports.RunsDecideRightly` | packages/pay/src/senders/payment.ts:100-172 | in every run each decision is the right one for what was learned about the path so far |
| `PaymentRuns.ProposalFits` | packages/pay/src/senders/payment.ts:104-156 | a proposed packet never exceeds what is left to send, its minimum fits 64 bits and covers the minimum rate up to its correction |
| `PaymentRuns.SendKeepsAccounts` | packages/pay/src/senders/payment.ts:161-164 | committing a packet keeps every accounting invariant |
| `PaymentRuns.ReplyNeverSaturates` | packages/pay/src/senders/payment.ts:199-202 | the saturating subtractions in a reply never saturate |
| `PaymentRuns.ReceiveKeepsAccounts` | packages/pay/src/senders/payment.ts:174-272 | a reply to any outstanding packet keeps every accounting invariant |
| `PaymentRuns.EveryRunKeepsAccounts` | packages/pay/src/senders/payment.ts:104-110 | in every run and interleaving, sent plus in flight stays within the maximum, sent and delivered are the sums over fulfilled packets, and both in-flight totals are the sums over outstanding packets |
| `PaymentRuns.CompletionSettlesEverything` | packages/pay/src/senders/payment.ts:241-256 | when a payment of either kind is complete, nothing is in flight |
| `PaymentRuns.DeliveredCoversRate` | packages/pay/src/senders/payment.ts:145-148 | in every run with k fulfilled corrections, delivered >= ceil((sent - k) * minimum rate) |
| `PaymentRuns.FlagStaysTruthfulIff` | packages/pay/src/senders/payment.ts:164 | a step keeps the flag equal to "one correction is live" if and only if it does not send while the flag is set |
| `PaymentRuns.FlagTruthfulIffNoSendWhileFlagged` | packages/pay/src/senders/payment.ts:144-164 | over a whole run, the flag tells the truth throughout if and only if nothing is sent while it is set |
| `PaymentRuns.TruthfulFlagLosesAtMostOneUnit` | packages/pay/src/senders/payment.ts:143-148 | in such runs at most one correction is fulfilled and at most one source unit is lost |
| `PaymentRuns.FixedSendKeepsFlagTruthful` | packages/pay/src/senders/payment.ts:139-164 | a fixed-send run where no other packet is rejected while a correction is live never sends while flagged |
| `PaymentRuns.FixedSendDeliversQuote` | packages/pay/src/index.ts:397-399 | such a run, once complete, has delivered the quoted minimum |
| `PaymentRuns.TwoCorrectionsRun` | packages/pay/src/senders/payment.ts:164 | a fixed-send run with two fulfilled corrections that completes below its quote |
| `PaymentRuns.FinalCorrectedPacketPasses` | packages/pay/src/senders/payment.ts:120-156 | the corrected packet that completes a fixed delivery always passes the rate check |
| `QuoteAmounts.BudgetSufficesIff` | packages/pay/src/index.ts:404-411 | over all quotes at a minimum rate `a / b` and all runs that spend their budget with at most one correction, the target is always delivered if and only if `target * b % a < b` |
| `QuoteAmounts.SpentBudgetDeliversUpToOne` | packages/pay/src/index.ts:404-411 | for minimum rates up to one every such run delivers the target |
| `QuoteAmounts.BudgetShortfall` | packages/pay/src/index.ts:404-411 | what the budget guarantees is short by less than one source unit's worth |
| `QuoteAmounts.GuaranteeCoversIff` | packages/pay/src/index.ts:404-411 | the budget less one unit, at the minimum rate, covers the target if and only if `target * b % a < b` |
| `QuoteAmounts.BudgetFallsShort` | packages/pay/src/index.ts:404-411 | for every other target up to the 64-bit maximum a run spends the budget on one corrected packet and delivers less than the target |
| `QuoteAmounts.BudgetShortfallExample` | packages/pay/src/index.ts:410 | a run of a quote for two units at three to one spends its budget of one unit and delivers nothing |
| `QuoteAmounts.SpentBudgetDelivers` | packages/pay/src/index.ts:404-412 | a run of a quoted fixed delivery that spent its budget with at most one correction delivers the target under that condition, and never falls short by a source unit's worth |
| `QuoteAmounts.FixedSendQuoteIsKept` | packages/pay/src/index.ts:376-399 | a completed run of a quoted fixed send spends the amount, delivers what was quoted and has nothing outstanding |
| `QuoteAmounts.QuotedIff` | packages/pay/src/index.ts:376-422 | a quote is refused exactly when a probed rate may be below the minimum, or a delivery has no minimum rate; otherwise it carries the terms |
| `SendLoop.CommitKeepsSynced` | packages/pay/src/senders/index.ts:78-93 | a committed request becomes exactly one pending reply task |
| `SendLoop.ReplyKeepsSynced` | packages/pay/src/senders/index.ts:82-89 | running a reply task settles exactly that request |
| `SendLoop.NothingInFlight` | packages/pay/src/senders/payment.ts:199-202 | in a run with no outstanding request both in-flight totals are zero |
| `SendLoop.StreamSender.TrySending` | packages/pay/src/senders/index.ts:61-94 | the controllers may hold the attempt back; otherwise the sender object decides, a request is committed at once, and what the loop does next is stated for each case |
| `SendLoop.StreamSender.ApplyEffects` | packages/pay/src/senders/index.ts:82-89 | a reply passes through both controller objects and the sender object even when one of them fails, and the first error wins over the sender's verdict |
| `SendLoop.StreamSender.CompleteReplies` | packages/pay/src/senders/index.ts:163-165 | every pending reply is applied, and nothing else changes |
| `SendLoop.StreamSender.Start` | packages/pay/src/senders/index.ts:103-124 | the result is the one the schedule leads to; when the loop returns, by success or error, each committed request's reply was applied exactly once, nothing is in flight, and sent and delivered are the sums over fulfilled requests; success means that the payment is complete and every fulfilled packet was credited with just what its reply reported |
| `SendLoop.RepliesEndLoopIff` | packages/pay/src/senders/index.ts:82-89 | a reply ends the loop with an error exactly when a controller fails, the path is useless, the receiver misreports or will not take enough, and with success exactly when the payment is paid and none of these is so |
| `SendLoop.ReplyIsAsReported` | packages/pay/src/senders/index.ts:82-89 | a reply that does not end the loop with an error is credited as reported |
| `SendLoopProgress.HangsOnlyWhenExhausted` | packages/pay/src/senders/index.ts:103-124 | a loop that has not ended has a task to wait for, unless the budget of a fixed delivery is spent and its target not delivered |
| `SendLoopProgress.NeverEndsIff` | packages/pay/src/senders/index.ts:107-124 | a loop never ends, whatever its schedule, if and only if it has no task |
| `SendLoopProgress.ExhaustedNeverSucceeds` | packages/pay/src/senders/payment.ts:104-110 | with the budget spent, the target not delivered and nothing in flight, no schedule leads to success |
| `SendLoopProgress.ExhaustedHangs` | packages/pay/src/senders/payment.ts:104-110 | and once its scheduled attempts have run the loop waits for ever |
| `SendLoopProgress.ShortPaymentHangs` | packages/pay/src/senders/payment.ts:104-110 | for every target that a budget may miss there is a quoted payment whose loop ends up waiting for ever |
| `SendLoop.CompletesWhenPaid` | packages/pay/src/senders/index.ts:86-88 | a reply ends the loop with success only if the payment is paid |
| `Long64.CheckedAddSaturates` | packages/ilp-protocol-stream/src/util/long.ts:57-70 | the wrapped sum with its two comparisons is the saturating sum, and the flag is exact |
| `Long64.CheckedSubtractIsMonusIff` | packages/ilp-protocol-stream/src/util/long.ts:72-85 | the result and flag are right if and only if twice the subtrahend is below the minuend plus 2^64 |
| `Long64.MultiplyDivideLoop` | packages/ilp-protocol-stream/src/util/long.ts:130-168 | the loop on wrapping words computes the recursive form |
| `Long64.AccumulateExact` | packages/ilp-protocol-stream/src/util/long.ts:145-152 | one conditional addition adds the represented values, and wraps exactly when their sum does not fit |
| `Long64.MultiplyDivideExact` | packages/ilp-protocol-stream/src/util/long.ts:130-168 | for divisors up to 2^63 and a quotient that fits, quo * c + rem = a * b and rem < c |
| `Long64.ExactForAllFactorsIff` | packages/ilp-protocol-stream/src/util/long.ts:146-151 | exact for all such factors if and only if the divisor is at most 2^63 |
| `Long64.LargeDivisorFails` | packages/ilp-protocol-stream/src/util/long.ts:147 | every larger divisor has a pair of factors it gets wrong |
| `Long64.MultiplyDivideAtMost` | packages/ilp-protocol-stream/src/util/long.ts:143-166 | for every divisor, a quotient that fits is never exceeded: wrapped remainders only lose carries |
| `Long64.OverflowIsDetected` | packages/ilp-protocol-stream/src/util/long.ts:154-157 | at each bit the comparison notices an overflow, when the factor is below twice the divisor |
| `Long64.MultiplyDivideSaturates` | packages/ilp-protocol-stream/src/util/long.ts:154-157 | then the result is the exact quotient, or the maximum when that does not fit |
| `Long64.OverflowGoesUndetected` | packages/ilp-protocol-stream/src/util/long.ts:160 | for every other factor the multiplier 2^63 overflows unnoticed |
| `Long64.SaturatesForAllMultipliersIff` | packages/ilp-protocol-stream/src/util/long.ts:130-168 | saturation works for all multipliers if and only if the factor is below twice the divisor |
| `Long64.RoundedFormsExact` | packages/ilp-protocol-stream/src/util/long.ts:107-128 | floor, ceiling and round-half-up of the true product, saturating at the maximum |
| `Long64.CeilAtMost` | packages/ilp-protocol-stream/src/util/long.ts:111-116 | for every divisor the rounded-up form never exceeds the ceiling of the true quotient |
| `Long64.CeilCovers` | packages/ilp-protocol-stream/src/util/long.ts:111-116 | it covers the true quotient, or is the maximum, when that fits or its overflow is noticed |
| `Long64.CeilFallsShort` | packages/ilp-protocol-stream/src/util/long.ts:111-116 | for every ratio of two or more the multiplier 2^63 gives less than the true quotient and not the maximum |
| `Rational64.CapPreventsOverflow` | packages/ilp-protocol-stream/src/connection.ts:1273-1281 | a packet within the cap converts to at most the 64-bit maximum, whatever the terms of the rate |
| `Rational64.CapIsLargest` | packages/ilp-protocol-stream/src/connection.ts:1273-1281 | with a numerator up to 2^63 the cap is the largest amount within the limit that converts to 64 bits |
| `Rational64.PrepareAmountAtMost` | packages/ilp-protocol-stream/src/connection.ts:1412-1418 | the converted amount never exceeds the rate, nor the slippage-reduced minimum the converted amount, whatever the terms |
| `Rational64.PrepareAmountIsExact` | packages/ilp-protocol-stream/src/connection.ts:1412-1418 | with denominators up to 2^63 the converted amount and the slippage-reduced minimum are exact floors |
| `Rational64.ConvertsExactlyIff` | packages/ilp-protocol-stream/src/util/rational.ts:65-67 | conversion is exact for all rates with a denominator and all capped amounts if and only if that denominator is at most 2^63 |
| `MoneyStream.AvailableIsRightIff` | packages/ilp-protocol-stream/src/stream.ts:392-401 | the amount available is limit minus sent minus held if and only if neither subtraction is in the blind spot |
| `MoneyStream.AvailableWithinLimit` | packages/ilp-protocol-stream/src/stream.ts:392-401 | for balanced streams it always is |
| `MoneyStream.SetSendMaxKeepsBalance` | packages/ilp-protocol-stream/src/stream.ts:166-184 | a safe change of the limit keeps held = sum of holds and sent + held within the largest limit ever set |
| `MoneyStream.LimitIsAcceptedIff` | packages/ilp-protocol-stream/src/stream.ts:166-184 | a limit is accepted exactly when it covers what an open stream has sent, and then decides what is left |
| `MoneyStream.OperateKeepsBalance` | packages/ilp-protocol-stream/src/stream.ts:392-454 | so does any sequence of holds, executions and cancellations |
| `MoneyStream.LimitIsSafeIff` | packages/ilp-protocol-stream/src/stream.ts:166-184 | after a change of the limit the stream knows what it may still send, whatever follows, if and only if twice what was sent or is held is below the limit plus 2^64 |
| `MoneyStream.HoldKeepsBalance` | packages/ilp-protocol-stream/src/stream.ts:408-417 | a hold takes the lesser of what is asked and available, records it and keeps the balance |
| `MoneyStream.ExecuteKeepsBalance` | packages/ilp-protocol-stream/src/stream.ts:424-439 | executing moves exactly the held amount to the total sent |
| `MoneyStream.CancelKeepsBalance` | packages/ilp-protocol-stream/src/stream.ts:446-454 | cancelling releases exactly the held amount |
| `MoneyStream.CancelUndoesHold` | packages/ilp-protocol-stream/src/stream.ts:408-454 | a cancelled hold leaves the stream as it was |
| `MoneyStream.LoweredLimitOverspends` | packages/ilp-protocol-stream/src/stream.ts:396-399 | an unsafe limit, lowered under a maximal hold, leaves one unit to send that is not there |
| `SendLedger.SplitAtMostWanted` | packages/ilp-protocol-stream/src/connection.ts:1283-1309 | no stream sends more than it has and its peer can receive |
| `SendLedger.SplitIsGreedy` | packages/ilp-protocol-stream/src/connection.ts:1283-1347 | the shares of a packet sum to the lesser of all wants and the limit |
| `SendLedger.SplitServesInOrder` | packages/ilp-protocol-stream/src/connection.ts:1283-1347 | and so it is for the first n streams, for every n: they are served in order |
| `SendLedger.WantFitsRoom` | packages/ilp-protocol-stream/src/connection.ts:1294-1309 | less than one source unit of what a stream wants exceeds the room at its receiver, for any rate |
| `SendLedger.FillsRoomIff` | packages/ilp-protocol-stream/src/connection.ts:1294-1309 | every live stream wants all it has or enough to fill the room, at a rate, if and only if that rate is above one half (numerator up to 2^63) |
| `SendLedger.FillsAtAllRatesIff` | packages/ilp-protocol-stream/src/connection.ts:1298-1300 | and at all rates above one half with a numerator if and only if that is at most 2^63 |
| `SendLedger.SharesFitRooms` | packages/ilp-protocol-stream/src/connection.ts:1283-1327 | in a packet, removed or ended streams have no share, and no share exceeds what its stream has or its receiver takes, up to one source unit |
| `SendLedger.LoadStream` | packages/ilp-protocol-stream/src/connection.ts:1319-1327 | after loading, each stream's hold for the packet is its share, and the stream is balanced |
| `SendLedger.LoadKeepsConsistent` | packages/ilp-protocol-stream/src/connection.ts:1283-1347 | loading a packet keeps the ledger consistent |
| `SendLedger.FulfillStream` | packages/ilp-protocol-stream/src/connection.ts:1454-1456 | a fulfil adds exactly the packet's share to each stream's total |
| `SendLedger.FulfillKeepsConsistent` | packages/ilp-protocol-stream/src/connection.ts:1454-1461 | a fulfil keeps the ledger consistent, or destroys the connection on overflow |
| `SendLedger.RejectStream` | packages/ilp-protocol-stream/src/connection.ts:1930-1939 | a reject cancels exactly that packet's hold on registered streams and touches no other |
| `SendLedger.RejectKeepsConsistent` | packages/ilp-protocol-stream/src/connection.ts:1930-1939 | a reject keeps the ledger consistent |
| `SendLedger.StepKeepsConsistent` | packages/ilp-protocol-stream/src/connection.ts:1283-1347 | every event keeps the ledger consistent; a change of a limit has to be a safe one |
| `SendLedger.EveryRunIsConsistent` | packages/ilp-protocol-stream/src/connection.ts:2112-2122 | in every run that sets only safe limits, holds match the shares of outstanding packets, shares sum to the packet amount within its cap, each stream is balanced, and until the connection is destroyed its total is the sum of the stream totals |
| `SendLedger.EveryRunIsCounted` | packages/ilp-protocol-stream/src/connection.ts:2112-2134 | in every run, until the connection is destroyed, the totals sent and delivered are the sums over the fulfilled packets |
| `SendLedger.OverflowDestroys` | packages/ilp-protocol-stream/src/connection.ts:1458-1461 | delivered is counted first; the counter that would overflow keeps its value and the connection is destroyed |
| `SendLedger.DestroyedIffOverflow` | packages/ilp-protocol-stream/src/connection.ts:2112-2134 | in every run the connection is destroyed exactly when the fulfilled packets add up to more than 64 bits |
| `SendLedger.ModerateRunIsSafe` | packages/ilp-protocol-stream/src/stream.ts:166-184 | limits below 2^63 are safe in every run |
| `StreamObjects.DataAndMoneyStream.SetSendLimit` | packages/ilp-protocol-stream/src/stream.ts:166-184 | sets the limit, or fails and changes nothing |
| `StreamObjects.DataAndMoneyStream.GetAmountAvailableToSend` | packages/ilp-protocol-stream/src/stream.ts:392-401 | the amount available with the checked subtractions |
| `StreamObjects.DataAndMoneyStream.HoldOutgoing` | packages/ilp-protocol-stream/src/stream.ts:408-417 | the in-place hold |
| `StreamObjects.DataAndMoneyStream.ExecuteHold` | packages/ilp-protocol-stream/src/stream.ts:424-439 | the in-place execution |
| `StreamObjects.DataAndMoneyStream.CancelHold` | packages/ilp-protocol-stream/src/stream.ts:446-454 | the in-place cancellation |
| `StreamObjects.ReserveFrom` | packages/ilp-protocol-stream/src/connection.ts:1283-1327 | holds and returns what `WantFitsRoom` and `FillsRoomIff` characterise, within what is left of the packet |
| `StreamObjects.ServeStreams` | packages/ilp-protocol-stream/src/connection.ts:1283-1347 | the loop with its early exit serves a prefix of the streams, and the wrapping sum of the packet never wraps |
| `StreamObjects.LoadMoney` | packages/ilp-protocol-stream/src/connection.ts:1282-1347 | the loop over the stream objects yields the shares of the value model and their sum within the limit |
| `StreamObjects.ExecuteHolds` | packages/ilp-protocol-stream/src/connection.ts:1454-1456 | executes the packet's hold on the streams it was sent from and changes no other |
| `StreamObjects.UndoRejectedPacket` | packages/ilp-protocol-stream/src/connection.ts:1930-1939 | cancels the packet's hold on registered streams that have a money frame and changes no other |
| `ReceiveLedger.SplitPrepareLoop` | packages/ilp-protocol-stream/src/connection.ts:696-725 | the two passes over the money frames compute the split that `FrameGetsItsShare` characterises frame by frame |
| `ReceiveLedger.FrameGetsItsShare` | packages/ilp-protocol-stream/src/connection.ts:706-725 | for a total of at most 2^63 each frame gets its own share of the incoming amount, rounded down |
| `ReceiveLedger.FrameGetsAtMostItsShare` | packages/ilp-protocol-stream/src/connection.ts:706-725 | for every total each frame gets at most its own share |
| `ReceiveLedger.TotalSharesExact` | packages/ilp-protocol-stream/src/connection.ts:698-705 | the checked sum of shares is the true sum, or fails exactly when that does not fit |
| `ReceiveLedger.SplitLosesLessThanFrames` | packages/ilp-protocol-stream/src/connection.ts:706-725 | for total shares between 1 and 2^63 the streams get at most the incoming amount and less than one unit per frame is lost |
| `ReceiveLedger.SplitNeverExceeds` | packages/ilp-protocol-stream/src/connection.ts:706-725 | whatever the shares, the streams never get more than came in |
| `ReceiveLedger.LargeTotalLosesAll` | packages/ilp-protocol-stream/src/connection.ts:712 | for every total of shares above 2^63, two frames lose both of two incoming units |
| `ReceiveLedger.SplitsCloselyIff` | packages/ilp-protocol-stream/src/connection.ts:698-725 | for a total of shares, every split loses less than one unit per frame if and only if that total is at most 2^63 |
| `ReceiveLedger.SplitRefusesIff` | packages/ilp-protocol-stream/src/connection.ts:698-712 | the split fails exactly for overflowing or all-zero shares |
| `ReceiveLedger.AddHoldExact` | packages/ilp-protocol-stream/src/connection.ts:2086-2098 | what the two chained checked additions store, and when they refuse |
| `ReceiveLedger.SettleNeverSaturates` | packages/ilp-protocol-stream/src/connection.ts:2100-2110 | neither counter saturates when a prepare is settled |
| `ReceiveLedger.EveryRunIsSound` | packages/ilp-protocol-stream/src/connection.ts:759-772 | for any overlapping accepted and declined prepares, the total received is the sum of fulfilled amounts and the hold covers the outstanding ones |
| `ReceiveLedger.RefusesRightlyIff` | packages/ilp-protocol-stream/src/connection.ts:2086-2098 | packets are refused exactly when they would overflow if and only if the hold is exact or there is no room at all |
| `ReceiveLedger.HoldIsExactIff` | packages/ilp-protocol-stream/src/connection.ts:2086-2104 | over a whole run, the hold is the sum of waiting prepares if and only if no prepare was ever held after money was received |
| `ReceiveLedger.RunRefusesRightlyIff` | packages/ilp-protocol-stream/src/connection.ts:2086-2098 | so after any run packets are refused exactly when they would overflow under just that condition, or when nothing fits at all |
| `ReceiveLedger.AcceptedPrepareLeaksTotal` | packages/ilp-protocol-stream/src/connection.ts:2086-2110 | one accepted packet leaves the earlier total in the hold |
| `ReceiveLedger.RefusesTooEarly` | packages/ilp-protocol-stream/src/connection.ts:2086-2098 | a run of two accepted packets after which one unit is refused and the connection destroyed, far below the 64-bit maximum |
| `ReceiveLedger.IncomingCounters.AddHold` | packages/ilp-protocol-stream/src/connection.ts:2086-2098 | the in-place update, or a refusal that changes nothing |
| `ReceiveLedger.IncomingCounters.RemoveHold` | packages/ilp-protocol-stream/src/connection.ts:2100-2104 | the in-place update |
| `ReceiveLedger.IncomingCounters.AddReceived` | packages/ilp-protocol-stream/src/connection.ts:2106-2110 | the in-place update |
| `DataQueues.DataQueue.Push` | packages/ilp-protocol-stream/src/util/data-queue.ts:25-35 | the linked list gets the chunk at its end |
| `DataQueues.DataQueue.Shift` | packages/ilp-protocol-stream/src/util/data-queue.ts:37-49 | the linked list loses its first chunk and returns it, or has none |
| `DataQueues.DataQueue.Read` | packages/ilp-protocol-stream/src/util/data-queue.ts:51-76 | what is read followed by what is left is what was there; exactly as many bytes as asked, or all; nothing only for an empty list |
| `DataQueues.DataQueue.ByteLength` | packages/ilp-protocol-stream/src/util/data-queue.ts:82-90 | the number of queued bytes |
| `OffsetSorters.InsertAt` | packages/ilp-protocol-stream/src/util/data-offset-sorter.ts:31-50 | an entry goes after all entries at or below its offset |
| `OffsetSorters.InsertElements` | packages/ilp-protocol-stream/src/util/data-offset-sorter.ts:26-51 | an insertion adds exactly that entry |
| `OffsetSorters.InsertKeepsSorted` | packages/ilp-protocol-stream/src/util/data-offset-sorter.ts:26-51 | the list stays sorted by offset |
| `OffsetSorters.OffsetSorter.Push` | packages/ilp-protocol-stream/src/util/data-offset-sorter.ts:26-51 | the splice in the linked list is that insertion, and the largest end offset is tracked |
| `OffsetSorters.OffsetSorter.Read` | packages/ilp-protocol-stream/src/util/data-offset-sorter.ts:53-61 | the head is taken if and only if it starts at the read offset, which moves to its end |
| `OffsetSorters.OffsetSorter.ByteLength` | packages/ilp-protocol-stream/src/util/data-offset-sorter.ts:63-74 | the length of the contiguous data at the read offset |
| `TransportProgress.ContiguousIsReadable` | packages/ilp-protocol-stream/src/util/data-offset-sorter.ts:63-74 | and that is just what reading on yields |
| `StreamData.OutgoingData.WriteData` | packages/ilp-protocol-stream/src/stream.ts:525-529 | written bytes are queued at the end |
| `StreamData.OutgoingData.GetAvailableDataToSend` | packages/ilp-protocol-stream/src/stream.ts:582-607 | retries first, split at the size; then new bytes within the window; nothing only when both lists are empty |
| `StreamData.OutgoingData.ResendOutgoingData` | packages/ilp-protocol-stream/src/stream.ts:613-616 | a chunk is queued again |
| `StreamData.OutgoingData.IsDataBlocked` | packages/ilp-protocol-stream/src/stream.ts:622-626 | the offset wanted, when it lies beyond the window |
| `StreamData.OutgoingData.WidenWindow` | packages/ilp-protocol-stream/src/connection.ts:1006-1021 | the window only ever widens |
| `Transport.StepKeepsOk` | packages/ilp-protocol-stream/src/stream.ts:582-660 | every event keeps all chunks genuine and the receiver in order |
| `Transport.ReaderSeesOneByteSequence` | packages/ilp-protocol-stream/src/stream.ts:656-660 | for any schedule of writes, sends, rejects, resends, reorderings and duplicates, what was read is exactly the first `readOffset` bytes written |
| `Transport.AvailableConserves` | packages/ilp-protocol-stream/src/stream.ts:582-607 | taking data to send neither loses nor repeats a byte |
| `Transport.StepConserves` | packages/ilp-protocol-stream/src/connection.ts:1941-1944 | every event keeps each sent byte in exactly one chunk |
| `Transport.SenderConservesData` | packages/ilp-protocol-stream/src/stream.ts:582-637 | in every run, chunks in flight, acknowledged and to retry partition the sent bytes, the queue holds exactly the rest, and the sent offset stays within the window |
| `TransportProgress.WindowIsLargest` | packages/ilp-protocol-stream/src/connection.ts:1006-1021 | in every run the window is the largest the remote ever stated, in whatever order its frames arrive |
| `TransportProgress.FramesAreFull` | packages/ilp-protocol-stream/src/stream.ts:582-607 | each frame is as large as it may be, retries first, and leaves just the rest to send |
| `TransportProgress.SendingDrains` | packages/ilp-protocol-stream/src/stream.ts:582-607 | a sender that sends often enough, however little each time, has sent all that the window admits |
| `Transport.DrainsIffExactCover` | packages/ilp-protocol-stream/src/util/data-offset-sorter.ts:53-61 | a sorted receiver reads everything up to an offset and empties if and only if its entries cover each byte up to there once |
| `Transport.DrainedSenderMeansAllReadable` | packages/ilp-protocol-stream/src/connection.ts:1930-1945 | when nothing is in flight or to retry, and only acknowledged frames were ingested, the receiver can read every sent byte |
| `Transport.BlockedForever` | packages/ilp-protocol-stream/src/util/data-offset-sorter.ts:53-61 | once the first entry of the receiver lies below the read offset, no continuation of the run yields another byte |
| `Transport.BlockedIffReceivedAgain` | packages/ilp-protocol-stream/src/util/data-offset-sorter.ts:53-61 | in every run the receiver is blocked if and only if a byte it has read was ingested twice |
| `Transport.RejectedAfterIngestionBlocks` | packages/ilp-protocol-stream/src/connection.ts:1941-1944 | a run in which a frame that was read is rejected, resent and blocks the stream |
| `Oer.FromToBytes` | packages/oer-utils/src/lib/util.ts:43-64 | bytes of an integer that fits give the integer back |
| `Oer.ToFromBytes` | packages/oer-utils/src/lib/util.ts:43-64 | an integer read from bytes gives the bytes back |
| `WireFormat.BytesAreBigEndian` | packages/oer-utils/src/lib/util.ts:43-64 | the most significant byte comes first |
| `Oer.SizeIsLeast` | packages/oer-utils/src/lib/util.ts:85-103 | the buffer size is the least number of bytes that holds the value |
| `Oer.LongToBufferIsExactIff` | packages/oer-utils/src/lib/util.ts:62-64 | the slice holds the bytes asked for if and only if at most eight are asked for; a negative slice index drops bytes |
| `Oer.LengthRoundTrip` | packages/oer-utils/src/lib/reader.ts:443-466 | a written length prefix reads back, wherever it stands |
| `WireFormat.PrefixLayout` | packages/oer-utils/src/lib/writer.ts:264-280 | lengths below 128 are one byte; others announce the number of their bytes with the high bit set |
| `Oer.AcceptedPrefixCanonicalIff` | packages/oer-utils/src/lib/reader.ts:443-466 | an accepted prefix is the one the writer emits if and only if it has at most four length bytes or its length needs all of them |
| `Oer.ShortPrefixesAreUnique` | packages/oer-utils/src/lib/reader.ts:450-460 | with at most four length bytes, equal lengths have equal prefixes |
| `Oer.LongPrefixIsNotCanonical` | packages/oer-utils/src/lib/reader.ts:451 | a five-byte prefix for a length of 128 is accepted |
| `Oer.OctetsRoundTrip` | packages/oer-utils/src/lib/reader.ts:473-477 | a written octet string reads back, wherever it stands |
| `Oer.UIntRoundTrip` | packages/oer-utils/src/lib/reader.ts:279-286 | a written integer reads back, also with the saturating reader |
| `Oer.NumberRoundTrip` | packages/oer-utils/src/lib/reader.ts:262-274 | a written integer of up to six bytes reads back as a number |
| `WireFormat.OctetsAsInteger` | packages/oer-utils/src/lib/reader.ts:279-286 | any one to eight bytes are an integer, also with leading zeros; longer ones are refused, or read as the maximum |
| `Oer.MeasuresOctets` | packages/oer-utils/src/lib/predictor.ts:145-157 | the measured size is the length of the encoding |
| `OerStreams.UIntBufferSize` | packages/oer-utils/src/lib/util.ts:86-103 | the table search finds the least size |
| `OerStreams.Writer.Advance` | packages/oer-utils/src/lib/writer.ts:310-333 | fails exactly when a strict buffer is too small, grows otherwise and keeps what was written |
| `OerStreams.Writer.Write` | packages/oer-utils/src/lib/writer.ts:289-292 | appends the bytes and changes nothing else |
| `OerStreams.Writer.WriteUInt` | packages/oer-utils/src/lib/writer.ts:72-101 | appends the sliced bytes of a 64-bit value, or fails exactly when the value does not fit the length or the bytes do not fit the buffer |
| `OerStreams.Writer.WriteLengthPrefix` | packages/oer-utils/src/lib/writer.ts:264-280 | appends the canonical prefix |
| `OerStreams.Writer.WriteVarOctetString` | packages/oer-utils/src/lib/writer.ts:235-242 | appends prefix and contents |
| `OerStreams.Writer.CreateVarOctetString` | packages/oer-utils/src/lib/writer.ts:254-262 | appends the prefix and hands out a strict writer for exactly the bytes behind it |
| `OerStreams.Writer.WriteVarUInt` | packages/oer-utils/src/lib/writer.ts:148-169 | appends the encoded integer, written through such a writer |
| `OerStreams.Predictor.SkipVarOctetString` | packages/oer-utils/src/lib/predictor.ts:145-161 | adds the measured size |
| `OerStreams.Predictor.WriteVarUInt` | packages/oer-utils/src/lib/predictor.ts:48-66 | adds the size the writer would write |
| `OerStreams.Reader.ReadUIntNumber` | packages/oer-utils/src/lib/reader.ts:87-97 | reads one to six bytes, or fails |
| `OerStreams.Reader.ReadLengthPrefix` | packages/oer-utils/src/lib/reader.ts:443-466 | the cursor form of prefix decoding, with its refusals |
| `OerStreams.Reader.ReadVarOctetString` | packages/oer-utils/src/lib/reader.ts:473-477 | the cursor form of octet-string decoding |
| `OerStreams.Reader.PeekVarOctetString` | packages/oer-utils/src/lib/reader.ts:482-488 | reads ahead and restores cursor and bookmarks |
| `OerStreams.Reader.ReadVarUIntLong` | packages/oer-utils/src/lib/reader.ts:279-286 | one to eight bytes as an integer, or a failure |
| `OerStreams.Reader.ReadVarUIntNumber` | packages/oer-utils/src/lib/reader.ts:262-274 | one to six bytes as a number, or a failure |
| `OerStreams.Reader.SaturatingReadVarUInt` | packages/ilp-protocol-stream/src/packet.ts:563-572 | the 64-bit maximum for longer integers |
| `StreamPackets.FieldRoundTrip` | packages/ilp-protocol-stream/src/packet.ts:205-223 | each kind of property reads back by the reader that expects it |
| `StreamPackets.BuildRoundTrip` | packages/ilp-protocol-stream/src/packet.ts:232-521 | for all 15 frame types the reader expects the properties the writer emits, in that order, and rebuilds the same frame |
| `StreamPackets.FrameRoundTrip` | packages/ilp-protocol-stream/src/packet.ts:523-561 | a written frame reads back, wherever it stands |
| `StreamPackets.FramesRoundTrip` | packages/ilp-protocol-stream/src/packet.ts:122-128 | any number of frames reads back |
| `StreamPackets.HeaderRoundTrip` | packages/ilp-protocol-stream/src/packet.ts:112-121 | a written header reads back |
| `StreamPackets.PacketRoundTrip` | packages/ilp-protocol-stream/src/packet.ts:111-172 | a packet of any number of frames, followed by any padding, decodes to itself |
| `WireFormat.HeaderLayout` | packages/ilp-protocol-stream/src/packet.ts:158-166 | the header byte by byte |
| `WireFormat.FrameLayout` | packages/ilp-protocol-stream/src/packet.ts:232-521 | type byte and contents of each of the 15 frames, spelled out apart from the codec's tables |
| `WireFormat.DataFrameBytes` | packages/ilp-protocol-stream/test/fixtures/packets.json:579-595 | the bytes of the data frame in the repository's own vectors |
| `StreamPackets.ContentsRoundTrip` | packages/ilp-protocol-stream/src/packet.ts:523-561 | bytes after the properties of a frame are ignored |
| `WireFormat.LongLimitsSaturate` | packages/ilp-protocol-stream/src/packet.ts:563-572 | limits of more than 64 bits are read as the largest limit, in both frames that state limits |
| `WireFormat.KnownTypes` | packages/ilp-protocol-stream/src/packet.ts:523-561 | the types that are known are 1 to 7 and 16 to 23 |
| `WireFormat.UnknownFrameIsSkipped` | packages/ilp-protocol-stream/src/packet.ts:557-559 | a frame of unknown type is skipped, wherever it stands |
| `WireFormat.KnownFramesAreKept` | packages/ilp-protocol-stream/src/packet.ts:122-128 | of any sequence of frames the packet keeps the known ones in order |
| `WireFormat.OtherVersionsAreRefused` | packages/ilp-protocol-stream/src/packet.ts:111-117 | only packets of version 1 are read |
| `PacketCodec.MeasureFields` | packages/ilp-protocol-stream/src/packet.ts:198-223 | the predicted size of a frame's contents is the size that is written |
| `PacketCodec.MeasureFrame` | packages/ilp-protocol-stream/src/packet.ts:197-203 | the predicted size of a frame is the size that is written |
| `PacketCodec.MeasurePacket` | packages/ilp-protocol-stream/src/packet.ts:151-172 | the predicted size of a packet is the size that is written |
| `PacketCodec.WriteFields` | packages/ilp-protocol-stream/src/packet.ts:205-223 | appends all properties, failing exactly when they do not fit |
| `PacketCodec.WriteFrame` | packages/ilp-protocol-stream/src/packet.ts:197-203 | appends type, prefix and contents, failing exactly when they do not fit |
| `PacketCodec.WritePacket` | packages/ilp-protocol-stream/src/packet.ts:158-172 | appends the encoded packet, failing exactly when it does not fit |
| `PacketCodec.Serialize` | packages/ilp-protocol-stream/src/packet.ts:150-156 | the strict writer of predicted size never overflows, no byte of it stays unused, and it holds the encoded packet |
| `PacketCodec.ReadFields` | packages/ilp-protocol-stream/src/packet.ts:243-247 | the properties in the expected order, or a failure |
| `PacketCodec.ParseFrame` | packages/ilp-protocol-stream/src/packet.ts:523-561 | the frame at the cursor, nothing for an unknown type, or a failure |
| `PacketCodec.Deserialize` | packages/ilp-protocol-stream/src/packet.ts:110-130 | version check, header and frame loop compute the decoding of the bytes |
| `PacketCodec.SerializeAndRead` | packages/ilp-protocol-stream/src/packet.ts:110-156 | serializing, padding and deserializing a packet returns the packet |

## Left out

- Encryption, fulfilment conditions, tokens, receipts' signatures: foreign cryptography; whether a reply is authentic is an input.
- Promises, timers, idle handling and event emitters: replaced by events in any order; the scheduler picks any pending task.
- Plugins, HTTP, Open Payments, payment pointers, address and asset fetching, logging: input and output.
- Floating-point code (`Ratio.from`, `Rational.fromNumber`, slippage scaling, pacing rates): the resulting ratios are inputs.
- Signed variable-length integers, fixed-length reads other than the ones above, ILP and CCP envelopes: not used by STREAM packets or of the same shape.
- Sequence, expiry, pacing, asset and failure controllers: only their power to drop, reschedule or end an attempt, or to fail on a reply, is modelled.
- SendLoopProgress.HangsOnlyWhenExhausted: the other controllers drop an attempt only while a reply is to come, as the pacing controller does; timeouts of single requests are replies.
- Congestion control: the packet limit is an input of each loaded packet.
- Receive limits of streams, closing of unknown streams and the destruction of a connection that exceeds flow control: not modelled; the connection-level data window is part of the size given to each send.
- Membership of a stream in the connection's map: a flag on the stream that is cleared when it is removed.
- MoneyBlocked, DataBlocked and control frames inside the send loop: they carry information and change no account.
- Text encodings: strings are byte sequences.
- SendLedger.EveryRunIsConsistent: changes of a limit are safe ones, the exact condition of `LimitIsSafeIff`; hold ids are the packet numbers, which are fresh.
- Rational64.PrepareAmountIsExact: denominators are at most 2^63, the exact condition of `ConvertsExactlyIff`; the bounds for all others are in `PrepareAmountAtMost`.
- QuoteAmounts.BudgetSufficesIff: targets are at most the 64-bit maximum; beyond it only the sufficient half is stated (`SpentBudgetDelivers`), since a packet whose minimum exceeds 64 bits is never sent and a budget may then be impossible to spend.
- ProbeProgress.ProbeEnds: bounds replies, not time; before the reply to the largest packet smaller ones may be repeated without end, and the deadline of the probe is not modelled.
- ReceiveLedger.EveryRunIsSound: the split over streams is a separate result; an accepted prepare is always fulfilled in the end.
- SendLoop.StreamSender.Start: the schedule is finite, and a loop that is still running at its end returns nothing.
- SendLedger.FillsRoomIff: numerators are at most 2^63, the exact condition of `FillsAtAllRatesIff`; the receiver's figures do not fool the underflow check (`CheckedSubtractIsMonusIff`).
- StreamData.OutgoingData.GetAvailableDataToSend: an exhausted queue may yield an empty chunk where the value model yields none; neither is sent.
- DataQueues.DataQueue.Read: write callbacks are not modelled.
- PacketCodec.Serialize: octet strings and frame counts are below 2^48, the most that six length bytes can state to the reader.
- OerStreams.Writer.WriteLengthPrefix: lengths are below 2^64; the size fallback for larger numbers is not modelled.
- MaxPacket.LimitNeverRises: packet amounts are at most the 64-bit maximum, as every sender ensures.
