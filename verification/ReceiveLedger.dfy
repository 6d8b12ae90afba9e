/**
 * Incoming money: the split of a prepare over its money frames and the connection's counters
 * (packages/ilp-protocol-stream/src/connection.ts:696-779, 841-842, 2086-2110).
 */
module ReceiveLedger {
  import opened Basics
  import opened Long64

  function Total(xs: seq<u64>): nat {
    if xs == [] then 0 else xs[0] + Total(xs[1..])
  }

  // ---- splitting a prepare ----

  datatype SplitResult = Amounts(amounts: seq<u64>) | SharesOverflow | DivisionByZero

  /** The total of the shares, or nothing when it does not fit 64 bits. */
  function TotalShares(sum: u64, shares: seq<u64>): Option<u64>
    decreases shares
  {
    if shares == [] then Some(sum)
    else
      var result := CheckedAdd(sum, shares[0]);
      if result.flag then None else TotalShares(result.value, shares[1..])
  }

  function Portions(incoming: u64, shares: seq<u64>, total: divisor): seq<u64> {
    if shares == [] then []
    else [MultiplyDivideFloor(incoming, shares[0], total)] + Portions(incoming, shares[1..], total)
  }

  function SplitPrepare(incoming: u64, shares: seq<u64>): SplitResult {
    match TotalShares(0, shares)
    case None => SharesOverflow
    case Some(total) =>
      if shares == [] then Amounts([])
      else if total == 0 then DivisionByZero
      else Amounts(Portions(incoming, shares, total))
  }

  /** The two loops of the source. */
  method SplitPrepareLoop(incoming: u64, shares: seq<u64>) returns (result: SplitResult)
    ensures result == SplitPrepare(incoming, shares)
  {
    var total: u64 := 0;
    for i := 0 to |shares|
      invariant TotalShares(total, shares[i..]) == TotalShares(0, shares)
    {
      assert shares[i..][1..] == shares[i + 1..];
      var sum := CheckedAdd(total, shares[i]);
      if sum.flag {
        return SharesOverflow;
      }
      total := sum.value;
    }
    var amounts: seq<u64> := [];
    for i := 0 to |shares|
      invariant i > 0 ==> total > 0
      invariant total > 0 ==> Portions(incoming, shares, total) == amounts + Portions(incoming, shares[i..], total)
      invariant i == 0 ==> amounts == []
    {
      if total == 0 {
        return DivisionByZero;
      }
      assert shares[i..][1..] == shares[i + 1..];
      var quoRem := MultiplyDivideLoop(incoming, shares[i], total);
      amounts := amounts + [quoRem.quo];
    }
    return Amounts(amounts);
  }

  lemma {:induction false} TotalSharesExact(sum: u64, shares: seq<u64>)
    ensures TotalShares(sum, shares) == if sum + Total(shares) < TWO64 then Some(sum + Total(shares)) else None
    decreases shares
  {
    if shares != [] {
      CheckedAddSaturates(sum, shares[0]);
      if sum + shares[0] < TWO64 {
        TotalSharesExact(sum + shares[0], shares[1..]);
      }
    }
  }

  /** One stream's portion is its exact share rounded down. */
  lemma PortionExact(incoming: u64, share: u64, total: divisor)
    requires share <= total <= TWO63
    ensures var q := MultiplyDivideFloor(incoming, share, total);
            Times(q, total) <= Times(share, incoming) < Times(q, total) + total
  {
    TimesOrderRight(incoming, share, total);
    TimesOrder(incoming + 1, TWO64, total);
    MultiplyDivideValue(incoming, share, total);
    Commute(share, incoming);
  }

  lemma {:induction false} PortionsBounds(incoming: u64, shares: seq<u64>, total: divisor)
    requires Total(shares) <= total <= TWO63
    ensures |Portions(incoming, shares, total)| == |shares|
    ensures Times(Total(Portions(incoming, shares, total)), total) <= Times(Total(shares), incoming)
    ensures Times(Total(shares), incoming)
            <= Times(Total(Portions(incoming, shares, total)), total) + Times(|shares|, total)
    ensures shares != [] ==>
              Times(Total(shares), incoming)
              < Times(Total(Portions(incoming, shares, total)), total) + Times(|shares|, total)
  {
    if shares != [] {
      var q := MultiplyDivideFloor(incoming, shares[0], total);
      var rest := Portions(incoming, shares[1..], total);
      PortionExact(incoming, shares[0], total);
      PortionsBounds(incoming, shares[1..], total);
      assert Portions(incoming, shares, total)[1..] == rest;
      TimesAdd(q, Total(rest), total);
      TimesAdd(shares[0], Total(shares[1..]), incoming);
      assert Times(|shares|, total) == Times(|shares| - 1, total) + total;
    }
  }

  lemma Commute(x: nat, y: nat)
    ensures Times(x, y) == Times(y, x)
  {
    TimesIsProduct(x, y);
    TimesIsProduct(y, x);
  }

  /**
   * With money frames whose shares total between 1 and 2^63, the streams together get at most the
   * incoming amount and rounding loses less than one unit per frame.
   */
  lemma SplitLosesLessThanFrames(incoming: u64, shares: seq<u64>)
    requires 1 <= Total(shares) <= TWO63
    ensures SplitsClosely(incoming, shares)
  {
    TotalSharesExact(0, shares);
    var total: divisor := Total(shares);
    var n, given := |shares|, Total(Portions(incoming, shares, total));
    PortionsBounds(incoming, shares, total);
    Commute(total, incoming);
    QuotientFits(given, 0, total, incoming + 1);
    TimesAdd(incoming, 1, total);
    assert Times(1, total) == total;
    TimesAdd(given, n, total);
    QuotientFits(incoming, 0, total, given + n);
  }

  lemma {:induction false} PortionAt(incoming: u64, shares: seq<u64>, total: divisor, i: nat)
    requires i < |shares|
    ensures |Portions(incoming, shares, total)| == |shares|
    ensures Portions(incoming, shares, total)[i] == MultiplyDivideFloor(incoming, shares[i], total)
  {
    if i == 0 {
      if |shares| > 1 { PortionAt(incoming, shares[1..], total, 0); }
    } else {
      PortionAt(incoming, shares[1..], total, i - 1);
    }
  }

  lemma {:induction false} ShareAtMostTotal(shares: seq<u64>, i: nat)
    requires i < |shares|
    ensures shares[i] <= Total(shares)
  {
    if i > 0 { ShareAtMostTotal(shares[1..], i - 1); }
  }

  /** Each money frame gets no more than its own share of what came in. */
  lemma FrameGetsAtMostItsShare(incoming: u64, shares: seq<u64>, i: nat)
    requires i < |shares| && 0 < Total(shares) < TWO64
    ensures var r := SplitPrepare(incoming, shares);
            && r.Amounts? && |r.amounts| == |shares|
            && r.amounts[i] * Total(shares) <= incoming * shares[i]
  {
    var total: divisor := Total(shares);
    TotalSharesExact(0, shares);
    PortionAt(incoming, shares, total, i);
    ShareAtMostTotal(shares, i);
    PortionAtMost(incoming, shares[i], total);
    TimesIsProduct(MultiplyDivideFloor(incoming, shares[i], total), total);
    TimesIsProduct(shares[i], incoming);
  }

  /** And with a total of at most 2^63 just that share, rounded down. */
  lemma FrameGetsItsShare(incoming: u64, shares: seq<u64>, i: nat)
    requires i < |shares| && 0 < Total(shares) <= TWO63
    ensures var r := SplitPrepare(incoming, shares);
            && r.Amounts? && |r.amounts| == |shares|
            && r.amounts[i] * Total(shares) <= incoming * shares[i] < (r.amounts[i] + 1) * Total(shares)
  {
    var total: divisor := Total(shares);
    TotalSharesExact(0, shares);
    PortionAt(incoming, shares, total, i);
    ShareAtMostTotal(shares, i);
    PortionExact(incoming, shares[i], total);
    ExactShare(MultiplyDivideFloor(incoming, shares[i], total), total, shares[i], incoming);
  }

  lemma ExactShare(q: nat, total: nat, share: nat, incoming: nat)
    requires Times(q, total) <= Times(share, incoming) < Times(q, total) + total
    ensures q * total <= incoming * share < (q + 1) * total
  {
    TimesIsProduct(q, total);
    TimesIsProduct(share, incoming);
    assert (q + 1) * total == q * total + total;
  }

  lemma {:induction false} PortionsAtMost(incoming: u64, shares: seq<u64>, total: divisor)
    requires Total(shares) <= total
    ensures Times(Total(Portions(incoming, shares, total)), total) <= Times(Total(shares), incoming)
  {
    if shares != [] {
      var q := MultiplyDivideFloor(incoming, shares[0], total);
      var rest := Portions(incoming, shares[1..], total);
      PortionAtMost(incoming, shares[0], total);
      PortionsAtMost(incoming, shares[1..], total);
      assert Portions(incoming, shares, total)[1..] == rest;
      TimesAdd(q, Total(rest), total);
      TimesAdd(shares[0], Total(shares[1..]), incoming);
    }
  }

  lemma PortionAtMost(incoming: u64, share: u64, total: divisor)
    requires share <= total
    ensures Times(MultiplyDivideFloor(incoming, share, total), total) <= Times(share, incoming)
  {
    TimesOrderRight(incoming, share, total);
    TimesOrder(incoming + 1, TWO64, total);
    MultiplyDivideAtMost(incoming, share, total);
    Commute(share, incoming);
  }

  /** Whatever shares the peer chose, the streams never get more than came in. */
  lemma SplitNeverExceeds(incoming: u64, shares: seq<u64>)
    ensures var r := SplitPrepare(incoming, shares); r.Amounts? ==> Total(r.amounts) <= incoming
  {
    TotalSharesExact(0, shares);
    if shares != [] && 0 < Total(shares) < TWO64 {
      var total: divisor := Total(shares);
      PortionsAtMost(incoming, shares, total);
      Commute(total, incoming);
      QuotientFits(Total(Portions(incoming, shares, total)), 0, total, incoming + 1);
      TimesAdd(incoming, 1, total);
      assert Times(1, total) == total;
    }
  }

  /** The promise of the split: less than one unit lost per frame. */
  ghost predicate SplitsClosely(incoming: u64, shares: seq<u64>) {
    var r := SplitPrepare(incoming, shares);
    && r.Amounts? && |r.amounts| == |shares|
    && Total(r.amounts) <= incoming < Total(r.amounts) + |shares|
  }

  lemma PairOf(incoming: u64, x: u64, y: u64, total: divisor)
    ensures Total([x, y]) == x + y
    ensures Portions(incoming, [x, y], total)
            == [MultiplyDivideFloor(incoming, x, total), MultiplyDivideFloor(incoming, y, total)]
  {
    var last: seq<u64> := [y];
    assert [x, y][1..] == last && last[1..] == [];
    assert Total(last) == y && Portions(incoming, last, total) == [MultiplyDivideFloor(incoming, y, total)];
  }

  /** Beyond 2^63 twice a share wraps, and both incoming units are lost. */
  lemma LargeTotalLosesAll(total: divisor)
    requires total > TWO63
    ensures Total([total - 1, 1]) == total && SplitPrepare(2, [total - 1, 1]) == Amounts([0, 0])
    ensures !SplitsClosely(2, [total - 1, 1])
  {
    PairOf(2, total - 1, 1, total);
    PairOf(2, 0, 0, total);
    TotalSharesExact(0, [total - 1, 1]);
    MultiplyDivideByTwo(total - 1, total);
    MultiplyDivideByTwo(1, total);
    assert Double(QuoRem(0, total - 1), total) == QuoRem(0, 2 * (total - 1) - TWO64);
    assert Double(QuoRem(0, 1), total) == QuoRem(0, 2);
  }

  /** For a total of shares, every split is close if and only if that total is at most 2^63. */
  lemma SplitsCloselyIff(total: divisor)
    ensures (forall incoming: u64, shares: seq<u64> :: Total(shares) == total ==> SplitsClosely(incoming, shares))
            <==> total <= TWO63
  {
    if total <= TWO63 {
      forall incoming: u64, shares: seq<u64> | Total(shares) == total ensures SplitsClosely(incoming, shares) {
        SplitLosesLessThanFrames(incoming, shares);
      }
    } else {
      LargeTotalLosesAll(total);
    }
  }

  /** Shares that total more than 64 bits, or nothing at all, are refused. */
  lemma SplitRefusesIff(incoming: u64, shares: seq<u64>)
    ensures SplitPrepare(incoming, shares).SharesOverflow? <==> Total(shares) >= TWO64
    ensures SplitPrepare(incoming, shares).DivisionByZero? <==> shares != [] && Total(shares) == 0
  {
    TotalSharesExact(0, shares);
  }

  // ---- the counters ----

  datatype Counters = Counters(totalReceived: u64, incomingHold: u64)

  /** Nothing when the connection is destroyed because the total might overflow. */
  function AddIncomingHold(c: Counters, value: u64): Option<Counters> {
    var sum := CheckedAdd(c.totalReceived, c.incomingHold).value;
    var result := CheckedAdd(sum, value);
    if result.flag then None else Some(c.(incomingHold := result.value))
  }

  function RemoveIncomingHold(c: Counters, value: u64): Counters {
    c.(incomingHold := CheckedSubtract(c.incomingHold, value).value)
  }

  function AddTotalReceived(c: Counters, value: u64): Counters {
    c.(totalReceived := CheckedAdd(c.totalReceived, value).value)
  }

  datatype Status = Waiting | Fulfilled | Declined

  datatype Prepare = Prepare(amount: u64, status: Status)

  datatype Run = Run(counters: Counters, prepares: seq<Prepare>, destroyed: bool)

  datatype Event = Incoming(amount: u64) | Accept(prepare: nat) | Decline(prepare: nat)

  predicate IsWaiting(s: Run, k: nat) {
    k < |s.prepares| && s.prepares[k].status.Waiting?
  }

  function Step(s: Run, e: Event): Run {
    match e
    case Incoming(amount) =>
      var held := AddIncomingHold(s.counters, amount);
      if held.None? then s.(destroyed := true)
      else s.(counters := held.value, prepares := s.prepares + [Prepare(amount, Waiting)])
    case Accept(k) =>
      if !IsWaiting(s, k) then s
      else
        var amount := s.prepares[k].amount;
        s.(counters := AddTotalReceived(RemoveIncomingHold(s.counters, amount), amount),
           prepares := s.prepares[k := Prepare(amount, Fulfilled)])
    case Decline(k) =>
      if !IsWaiting(s, k) then s
      else
        var amount := s.prepares[k].amount;
        s.(counters := RemoveIncomingHold(s.counters, amount), prepares := s.prepares[k := Prepare(amount, Declined)])
  }

  function Exec(es: seq<Event>): Run {
    if es == [] then Run(Counters(0, 0), [], false) else Step(Exec(es[..|es| - 1]), es[|es| - 1])
  }

  function Sum(ps: seq<Prepare>, status: Status): nat {
    if ps == [] then 0
    else Sum(ps[..|ps| - 1], status) + (if ps[|ps| - 1].status == status then ps[|ps| - 1].amount else 0)
  }

  lemma {:induction false} SumUpdate(ps: seq<Prepare>, k: nat, p: Prepare, status: Status)
    requires k < |ps|
    ensures Sum(ps[k := p], status)
            == Sum(ps, status) - (if ps[k].status == status then ps[k].amount else 0)
                               + (if p.status == status then p.amount else 0)
    ensures ps[k].status == status ==> ps[k].amount <= Sum(ps, status)
  {
    var n := |ps| - 1;
    if k < n {
      SumUpdate(ps[..n], k, p, status);
      assert ps[k := p][..n] == ps[..n][k := p];
    } else {
      assert ps[k := p][..n] == ps[..n];
    }
  }

  /** The hold over-approximates what is waiting; what is received and waiting fits; the total is what was fulfilled. */
  ghost predicate Sound(s: Run) {
    && Sum(s.prepares, Waiting) <= s.counters.incomingHold
    && s.counters.totalReceived + Sum(s.prepares, Waiting) <= MAX
    && s.counters.totalReceived == Sum(s.prepares, Fulfilled)
  }

  lemma AddHoldExact(c: Counters, value: u64)
    ensures AddIncomingHold(c, value)
            == if value > 0 && c.totalReceived + c.incomingHold + value > MAX then None
               else Some(c.(incomingHold := Saturate(c.totalReceived + c.incomingHold + value)))
  {
  }

  lemma IncomingKeepsSound(s: Run, amount: u64)
    requires Sound(s)
    ensures Sound(Step(s, Incoming(amount)))
  {
  }

  /** Neither removing a hold nor adding to the total ever saturates. */
  lemma SettleNeverSaturates(s: Run, k: nat)
    requires Sound(s) && IsWaiting(s, k)
    ensures var c, amount := s.counters, s.prepares[k].amount;
            && RemoveIncomingHold(c, amount).incomingHold == c.incomingHold - amount
            && AddTotalReceived(c, amount).totalReceived == c.totalReceived + amount
  {
    SumUpdate(s.prepares, k, s.prepares[k], Waiting);
    CheckedSubtractIsMonusIff(s.counters.incomingHold, s.prepares[k].amount);
    CheckedAddSaturates(s.counters.totalReceived, s.prepares[k].amount);
  }

  lemma SettleKeepsSound(s: Run, e: Event)
    requires Sound(s) && !e.Incoming?
    ensures Sound(Step(s, e))
  {
    var k := e.prepare;
    if IsWaiting(s, k) {
      SettleNeverSaturates(s, k);
      var p := Prepare(s.prepares[k].amount, if e.Accept? then Fulfilled else Declined);
      SumUpdate(s.prepares, k, p, Waiting);
      SumUpdate(s.prepares, k, p, Fulfilled);
    }
  }

  /** For any overlapping of accepted and declined prepares, the received total is the sum of the fulfilled ones. */
  lemma {:induction false} EveryRunIsSound(es: seq<Event>)
    ensures Sound(Exec(es))
  {
    if es != [] {
      var s, e := Exec(es[..|es| - 1]), es[|es| - 1];
      EveryRunIsSound(es[..|es| - 1]);
      if e.Incoming? { IncomingKeepsSound(s, e.amount); } else { SettleKeepsSound(s, e); }
    }
  }

  /** The overflow check is right about a prepare when it refuses exactly those that would overflow. */
  ghost predicate RefusesRightly(c: Counters, waiting: nat, value: u64) {
    AddIncomingHold(c, value).None? <==> c.totalReceived + waiting + value > MAX
  }

  /** It is right about every prepare if and only if the hold is no more than what waits, or there is no room left. */
  lemma RefusesRightlyIff(c: Counters, waiting: nat)
    requires waiting <= c.incomingHold && c.totalReceived + waiting <= MAX
    ensures (forall value: u64 :: RefusesRightly(c, waiting, value))
            <==> c.incomingHold == waiting || c.totalReceived + waiting == MAX
  {
    if c.incomingHold == waiting || c.totalReceived + waiting == MAX {
      forall value: u64 ensures RefusesRightly(c, waiting, value) {
        AddHoldExact(c, value);
      }
    } else {
      var value: u64 := MAX - (c.totalReceived + waiting);
      AddHoldExact(c, value);
      assert !RefusesRightly(c, waiting, value);
    }
  }

  /** A prepare is held although money was received before. */
  ghost predicate HeldAfterMoney(s: Run, e: Event) {
    e.Incoming? && s.counters.totalReceived > 0 && AddIncomingHold(s.counters, e.amount).Some?
  }

  ghost predicate NeverHeldAfterMoney(es: seq<Event>) {
    es != [] ==>
      NeverHeldAfterMoney(es[..|es| - 1]) && !HeldAfterMoney(Exec(es[..|es| - 1]), es[|es| - 1])
  }

  ghost predicate HoldIsExact(s: Run) {
    s.counters.incomingHold == Sum(s.prepares, Waiting)
  }

  lemma StepKeepsHoldExactIff(s: Run, e: Event)
    requires Sound(s)
    ensures HoldIsExact(Step(s, e)) <==> HoldIsExact(s) && !HeldAfterMoney(s, e)
  {
    if e.Incoming? {
      AddHoldExact(s.counters, e.amount);
    } else if IsWaiting(s, e.prepare) {
      var amount := s.prepares[e.prepare].amount;
      SettleNeverSaturates(s, e.prepare);
      SumUpdate(s.prepares, e.prepare, Prepare(amount, if e.Accept? then Fulfilled else Declined), Waiting);
    }
  }

  /** Over a whole run: the hold is what is waiting if and only if no prepare was ever held after money was received. */
  lemma {:induction false} HoldIsExactIff(es: seq<Event>)
    ensures HoldIsExact(Exec(es)) <==> NeverHeldAfterMoney(es)
  {
    if es != [] {
      HoldIsExactIff(es[..|es| - 1]);
      EveryRunIsSound(es[..|es| - 1]);
      StepKeepsHoldExactIff(Exec(es[..|es| - 1]), es[|es| - 1]);
    }
  }

  /** So after any run the overflow check is right about every prepare under that condition, unless nothing fits. */
  lemma RunRefusesRightlyIff(es: seq<Event>)
    ensures var s := Exec(es);
            var waiting := Sum(s.prepares, Waiting);
            (forall value: u64 :: RefusesRightly(s.counters, waiting, value))
            <==> NeverHeldAfterMoney(es) || s.counters.totalReceived + waiting == MAX
  {
    EveryRunIsSound(es);
    HoldIsExactIff(es);
    RefusesRightlyIff(Exec(es).counters, Sum(Exec(es).prepares, Waiting));
  }

  /** Every accepted prepare leaves the previous total behind in the hold. */
  lemma AcceptedPrepareLeaksTotal(c: Counters, value: u64)
    requires c.totalReceived + c.incomingHold + value <= MAX
    ensures var held := AddIncomingHold(c, value);
            && held.Some?
            && AddTotalReceived(RemoveIncomingHold(held.value, value), value)
               == Counters(c.totalReceived + value, c.totalReceived + c.incomingHold)
  {
  }

  lemma ExecSnoc(es: seq<Event>, e: Event)
    ensures Exec(es + [e]) == Step(Exec(es), e)
  {
    assert (es + [e])[..|es|] == es;
  }

  /** A run that goes on with one more prepare that is accepted. */
  function Receive(es: seq<Event>, amount: u64): seq<Event> {
    es + [Incoming(amount)] + [Accept(|Exec(es).prepares|)]
  }

  lemma ReceiveLeaksTotal(es: seq<Event>, amount: u64)
    requires Exec(es).counters.totalReceived + Exec(es).counters.incomingHold + amount <= MAX
    ensures var c, s := Exec(es).counters, Exec(Receive(es, amount));
            && s.counters == Counters(c.totalReceived + amount, c.totalReceived + c.incomingHold)
            && s.destroyed == Exec(es).destroyed
  {
    AcceptedPrepareLeaksTotal(Exec(es).counters, amount);
    ExecSnoc(es, Incoming(amount));
    ExecSnoc(es + [Incoming(amount)], Accept(|Exec(es).prepares|));
  }

  /** After 2^63 and 1 were received, one more unit destroys the connection although it would fit many times over. */
  lemma RefusesTooEarly()
    ensures var es := Receive(Receive([], TWO63), 1);
            && Exec(es).counters == Counters(TWO63 + 1, TWO63) && !Exec(es).destroyed
            && Exec(es + [Incoming(1)]).destroyed
  {
    var es := Receive([], TWO63);
    ReceiveLeaksTotal([], TWO63);
    ReceiveLeaksTotal(es, 1);
    ExecSnoc(Receive(es, 1), Incoming(1));
    AddHoldExact(Counters(TWO63 + 1, TWO63), 1);
  }

  /** The connection object's counters, updated in place. */
  class IncomingCounters {
    var totalReceived: u64
    var incomingHold: u64

    function View(): Counters
      reads this
    {
      Counters(totalReceived, incomingHold)
    }

    constructor ()
      ensures View() == Counters(0, 0)
    {
      totalReceived, incomingHold := 0, 0;
    }

    method AddHold(value: u64) returns (ok: bool)
      modifies this
      ensures var held := AddIncomingHold(old(View()), value);
              ok == held.Some? && View() == if ok then held.value else old(View())
    {
      var result := CheckedAdd(totalReceived, incomingHold);
      result := CheckedAdd(result.value, value);
      if result.flag {
        return false;
      }
      incomingHold := result.value;
      return true;
    }

    method RemoveHold(value: u64)
      modifies this
      ensures View() == RemoveIncomingHold(old(View()), value)
    {
      incomingHold := CheckedSubtract(incomingHold, value).value;
    }

    method AddReceived(value: u64)
      modifies this
      ensures View() == AddTotalReceived(old(View()), value)
    {
      totalReceived := CheckedAdd(totalReceived, value).value;
    }
  }
}
