/** Outgoing money of one stream: totals and holds (packages/ilp-protocol-stream/src/stream.ts:166-184, 392-454). */
module MoneyStream {
  import opened Basics
  import opened Long64

  /** Holds are keyed by the sequence number of the packet that carries them. */
  datatype Money = Money(totalSent: u64, sendMax: u64, held: u64, holds: map<nat, u64>, closed: bool)

  function NewMoney(): Money {
    Money(0, 0, 0, map[], false)
  }

  /** Fails on a closed stream and below what was already sent. */
  function SetSendMax(m: Money, limit: u64): Option<Money> {
    if m.closed || m.totalSent > limit then None else Some(m.(sendMax := limit))
  }

  function AvailableToSend(m: Money): u64 {
    if m.closed then 0
    else CheckedSubtract(CheckedSubtract(m.sendMax, m.totalSent).value, m.held).value
  }

  function Hold(m: Money, id: nat, maxAmount: Option<u64>): (Money, u64) {
    var available := AvailableToSend(m);
    var amount := if maxAmount.Some? then MinLong(available, maxAmount.value) else available;
    if amount > 0 then (m.(held := Wrap(m.held + amount), holds := m.holds[id := amount]), amount)
    else (m, amount)
  }

  function Execute(m: Money, id: nat): Money {
    if id !in m.holds then m
    else
      var amount := m.holds[id];
      m.(held := Wrap(m.held - amount), totalSent := Wrap(m.totalSent + amount), holds := m.holds - {id})
  }

  function Cancel(m: Money, id: nat): Money {
    if id !in m.holds then m
    else m.(held := Wrap(m.held - m.holds[id]), holds := m.holds - {id})
  }

  // ---- what every operation keeps ----

  function SumHolds(holds: map<nat, u64>, n: nat): nat {
    if n == 0 then 0
    else SumHolds(holds, n - 1) + (if n - 1 in holds then holds[n - 1] else 0)
  }

  /** The held amount is the sum of the open holds; `n` bounds the sequence numbers used so far. */
  ghost predicate Tallied(m: Money, n: nat) {
    (forall id :: id in m.holds ==> id < n && m.holds[id] > 0) && m.held == SumHolds(m.holds, n)
  }

  /**
   * A limit low enough to let what was sent or is held pass it by 2^63 or more would fool the underflow check.
   * Every limit below 2^63 is safe if all earlier ones were, and every limit that covers what was sent or is held.
   */
  predicate SafeLimit(m: Money, limit: u64) {
    2 * (m.totalSent + m.held) < limit + TWO64
  }

  /** `peak` is the largest limit ever set: what was sent or is held stays within it. */
  ghost predicate Balanced(m: Money, n: nat, peak: nat) {
    && Tallied(m, n)
    && m.totalSent + m.held <= peak
    && m.sendMax <= peak < TWO64
    && SafeLimit(m, m.sendMax)
  }

  lemma {:induction false} SumHoldsPut(holds: map<nat, u64>, n: nat, id: nat, amount: u64)
    ensures SumHolds(holds[id := amount], n)
            == SumHolds(holds, n) + (if id < n then amount - (if id in holds then holds[id] else 0) else 0)
  {
    if n > 0 { SumHoldsPut(holds, n - 1, id, amount); }
  }

  lemma {:induction false} SumHoldsRemove(holds: map<nat, u64>, n: nat, id: nat)
    ensures SumHolds(holds, n) == SumHolds(holds - {id}, n) + (if id < n && id in holds then holds[id] else 0)
  {
    if n > 0 { SumHoldsRemove(holds, n - 1, id); }
  }

  lemma {:induction false} SumHoldsExtend(holds: map<nat, u64>, n: nat, n': nat)
    requires n <= n' && forall id :: id in holds ==> id < n
    ensures SumHolds(holds, n') == SumHolds(holds, n)
  {
    if n < n' { SumHoldsExtend(holds, n, n' - 1); }
  }

  /** What is left of the limit; the code computes it with wrapping arithmetic. */
  function TrueAvailable(m: Money): nat {
    if m.closed then 0 else Monus(m.sendMax, m.totalSent + m.held)
  }

  /**
   * As long as sent and held together fit 64 bits, the available amount of an open stream is right
   * exactly when neither subtraction meets the blind spot of the underflow check.
   */
  lemma AvailableIsRightIff(m: Money)
    requires !m.closed && m.totalSent + m.held < TWO64
    ensures AvailableToSend(m) == TrueAvailable(m)
            <==> 2 * m.totalSent < m.sendMax + TWO64
                 && 2 * m.held < Monus(m.sendMax, m.totalSent) + TWO64
  {
  }

  lemma AvailableWithinLimit(m: Money, n: nat, peak: nat)
    requires Balanced(m, n, peak)
    ensures AvailableToSend(m) == TrueAvailable(m)
  {
    if !m.closed { AvailableIsRightIff(m); }
  }

  lemma SetSendMaxKeepsBalance(m: Money, n: nat, peak: nat, limit: u64)
    requires Balanced(m, n, peak) && SetSendMax(m, limit).Some? && SafeLimit(m, limit)
    ensures Balanced(SetSendMax(m, limit).value, n, if limit > peak then limit else peak)
  {
  }

  /** A limit is accepted exactly when it covers what an open stream has sent; it then decides what is left. */
  lemma LimitIsAcceptedIff(m: Money, n: nat, peak: nat, limit: u64)
    requires Balanced(m, n, peak) && SafeLimit(m, limit)
    ensures SetSendMax(m, limit).Some? <==> !m.closed && m.totalSent <= limit
    ensures SetSendMax(m, limit).Some? ==>
              var m' := SetSendMax(m, limit).value;
              AvailableToSend(m') == Monus(limit, m.totalSent + m.held) && m' == m.(sendMax := limit)
  {
    if SetSendMax(m, limit).Some? {
      SetSendMaxKeepsBalance(m, n, peak, limit);
      AvailableWithinLimit(SetSendMax(m, limit).value, n, if limit > peak then limit else peak);
    }
  }

  /** A hold under a fresh sequence number reserves the smaller of what is available and what is asked. */
  lemma HoldKeepsBalance(m: Money, n: nat, peak: nat, id: nat, maxAmount: Option<u64>)
    requires Balanced(m, n, peak) && n <= id
    ensures var (m', amount) := Hold(m, id, maxAmount);
            && Balanced(m', id + 1, peak)
            && amount == (var available := TrueAvailable(m);
                          if maxAmount.Some? && maxAmount.value <= available then maxAmount.value else available)
            && m'.holds == (if amount > 0 then m.holds[id := amount] else m.holds)
            && m'.held == m.held + amount && m'.totalSent == m.totalSent
  {
    AvailableWithinLimit(m, n, peak);
    var (m', amount) := Hold(m, id, maxAmount);
    SumHoldsExtend(m.holds, n, id + 1);
    SumHoldsPut(m.holds, id + 1, id, amount);
  }

  lemma ExecuteKeepsBalance(m: Money, n: nat, peak: nat, id: nat)
    requires Balanced(m, n, peak)
    ensures var m' := Execute(m, id);
            && Balanced(m', n, peak)
            && m'.totalSent == m.totalSent + (if id in m.holds then m.holds[id] else 0)
            && m'.holds == m.holds - {id}
  {
    SumHoldsRemove(m.holds, n, id);
    assert id !in m.holds ==> m.holds - {id} == m.holds;
  }

  lemma CancelKeepsBalance(m: Money, n: nat, peak: nat, id: nat)
    requires Balanced(m, n, peak)
    ensures var m' := Cancel(m, id);
            && Balanced(m', n, peak)
            && m'.totalSent == m.totalSent && m'.sendMax == m.sendMax
            && m'.holds == m.holds - {id}
  {
    SumHoldsRemove(m.holds, n, id);
    assert id !in m.holds ==> m.holds - {id} == m.holds;
  }

  /** Holding and then cancelling under a fresh number leaves the stream as it was. */
  lemma CancelUndoesHold(m: Money, n: nat, peak: nat, id: nat, maxAmount: Option<u64>)
    requires Balanced(m, n, peak) && n <= id
    ensures Cancel(Hold(m, id, maxAmount).0, id) == m
  {
  }

  // ---- which limits are safe to set ----

  /** What may happen to a stream between two changes of its limit. */
  datatype Operation = Take(maxAmount: Option<u64>) | Fulfil(id: nat) | Release(id: nat)

  /** Holds get fresh numbers, starting at `n`. */
  function Operate(m: Money, n: nat, ops: seq<Operation>): Money
    decreases ops
  {
    if ops == [] then m
    else
      match ops[0]
      case Take(maxAmount) => Operate(Hold(m, n, maxAmount).0, n + 1, ops[1..])
      case Fulfil(id) => Operate(Execute(m, id), n, ops[1..])
      case Release(id) => Operate(Cancel(m, id), n, ops[1..])
  }

  lemma {:induction false} OperateKeepsBalance(m: Money, n: nat, peak: nat, ops: seq<Operation>) returns (n': nat)
    requires Balanced(m, n, peak)
    ensures Balanced(Operate(m, n, ops), n', peak)
    decreases ops
  {
    n' := n;
    if ops != [] {
      match ops[0] {
        case Take(maxAmount) =>
          HoldKeepsBalance(m, n, peak, n, maxAmount);
          n' := OperateKeepsBalance(Hold(m, n, maxAmount).0, n + 1, peak, ops[1..]);
        case Fulfil(id) =>
          ExecuteKeepsBalance(m, n, peak, id);
          n' := OperateKeepsBalance(Execute(m, id), n, peak, ops[1..]);
        case Release(id) =>
          CancelKeepsBalance(m, n, peak, id);
          n' := OperateKeepsBalance(Cancel(m, id), n, peak, ops[1..]);
      }
    }
  }

  function FulfilAll(n: nat): seq<Operation> {
    if n == 0 then [] else [Fulfil(n - 1)] + FulfilAll(n - 1)
  }

  /** Once every hold is executed, all that was held has been sent. */
  lemma {:induction false} FulfilAllSendsHeld(m: Money, n: nat, next: nat)
    requires Tallied(m, n) && m.totalSent + m.held < TWO64
    ensures var m' := Operate(m, next, FulfilAll(n));
            m'.totalSent == m.totalSent + m.held && m'.held == 0 && m'.sendMax == m.sendMax && m'.closed == m.closed
    decreases n
  {
    if n > 0 {
      SumHoldsRemove(m.holds, n, n - 1);
      assert n - 1 !in m.holds ==> m.holds - {n - 1} == m.holds;
      FulfilAllSendsHeld(Execute(m, n - 1), n - 1, next);
    }
  }

  /** The stream knows what it may still send, whatever happens before its limit changes again. */
  ghost predicate StaysRight(m: Money, n: nat) {
    forall ops :: AvailableToSend(Operate(m, n, ops)) == TrueAvailable(Operate(m, n, ops))
  }

  /** A new limit keeps the stream right for good if and only if it is a safe one. */
  lemma LimitIsSafeIff(m: Money, n: nat, peak: nat, limit: u64)
    requires Balanced(m, n, peak) && SetSendMax(m, limit).Some?
    ensures StaysRight(SetSendMax(m, limit).value, n) <==> SafeLimit(m, limit)
  {
    var m' := SetSendMax(m, limit).value;
    if SafeLimit(m, limit) {
      var peak' := if limit > peak then limit else peak;
      SetSendMaxKeepsBalance(m, n, peak, limit);
      forall ops ensures AvailableToSend(Operate(m', n, ops)) == TrueAvailable(Operate(m', n, ops)) {
        var n' := OperateKeepsBalance(m', n, peak', ops);
        AvailableWithinLimit(Operate(m', n, ops), n', peak');
      }
    } else {
      FulfilAllSendsHeld(m', n, n);
      AvailableIsRightIff(Operate(m', n, FulfilAll(n)));
    }
  }

  /** An unsafe limit: lowered to nothing under a maximal hold, it frees a unit that is not there. */
  lemma LoweredLimitOverspends()
    ensures var full := Hold(Money(0, MAX, 0, map[], false), 0, None).0;
            && full.held == MAX
            && SetSendMax(full, 0).Some?
            && TrueAvailable(SetSendMax(full, 0).value) == 0
            && AvailableToSend(SetSendMax(full, 0).value) == 1
  {
  }
}
