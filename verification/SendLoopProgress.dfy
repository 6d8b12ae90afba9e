/** When the send loop can hang (packages/pay/src/senders/index.ts:103-124, payment.ts:104-128). */
module SendLoopProgress {
  import opened Basics
  import opened Amounts
  import opened Payment
  import opened PaymentDecisions
  import opened PaymentRuns
  import opened QuoteAmounts
  import opened SendLoop
  import MP = MaxPacket

  /** There is a task to wait for. */
  predicate Alive(l: Loop) {
    l.attempts > 0 || l.pending != {}
  }

  /** The budget of a fixed delivery is spent and the target was not delivered. */
  ghost predicate Exhausted(q: Quote, s: Sender) {
    q.kind.FixedDelivery? && s.amountSent == q.maxSourceAmount && s.amountDelivered < q.minDeliveryAmount
  }

  /** What every turn keeps as long as the loop goes on. */
  ghost predicate Going(q: Quote, l: Loop) {
    && Accounts(q, l.run)
    && (forall id: nat :: id in l.pending <==> Pending(l.run, id))
    && !Paid(q, l.run.sender)
    && (Alive(l) || Exhausted(q, l.run.sender))
  }

  /** The other controllers drop an attempt only while a reply is to come. */
  ghost predicate Patient(l: Loop, c: Choice) {
    c == RunRequest(Cancelled(Wait)) ==> l.pending != {}
  }

  lemma NothingOutstanding(q: Quote, run: Run)
    requires Accounts(q, run) && forall id: nat :: !Pending(run, id)
    ensures run.sender.sourceAmountInFlight == 0 && run.sender.destinationAmountInFlight == 0
  {
    forall e | e in run.log ensures !e.status.Outstanding? {
      var id :| 0 <= id < |run.log| && run.log[id] == e;
      assert !Pending(run, id);
    }
    SumZero(run.log, SourceInFlightOf);
    SumZero(run.log, DestinationInFlightOf);
  }

  /** With nothing in flight and nothing to send, an unpaid payment has spent its budget in vain. */
  lemma YieldsInVain(q: Quote, run: Run)
    requires Accounts(q, run) && (forall id: nat :: !Pending(run, id)) && !Paid(q, run.sender)
    requires Proposal(q, run).Yield?
    ensures Exhausted(q, run.sender)
  {
    NothingOutstanding(q, run);
    YieldsIff(q, run.sender, MP.NextMax(run.max), run.rate);
  }

  lemma SendKeepsGoing(q: Quote, l: Loop, request: Request)
    requires Going(q, l) && Proposal(q, l.run) == Send(request)
    ensures Going(q, l.(run := Step(q, l.run, TrySend), pending := l.pending + {|l.run.log|}))
  {
    SendKeepsAccounts(q, l.run);
    SendKeepsUnpaid(q, l.run, request);
    var run := Step(q, l.run, TrySend);
    assert run.log == l.run.log + [Entry(request, Outstanding)];
    assert forall id: nat :: Pending(run, id) <==> Pending(l.run, id) || id == |l.run.log|;
  }

  lemma SendKeepsUnpaid(q: Quote, run: Run, request: Request)
    requires Proposal(q, run) == Send(request) && !Paid(q, run.sender)
    ensures !Paid(q, Step(q, run, TrySend).sender)
  {
  }

  lemma DropKeepsGoing(q: Quote, l: Loop)
    requires Going(q, l) && l.attempts > 0 && (l.pending != {} || Exhausted(q, l.run.sender))
    ensures Going(q, l.(attempts := l.attempts - 1))
  {
  }

  /** The loop after an attempt that does not stop it. */
  function AfterTry(q: Quote, l: Loop, readiness: Readiness): Loop
    requires l.attempts > 0
  {
    Resumed(Attempted(q, l.(attempts := l.attempts - 1), readiness), AfterAttempt(q, l.run, readiness))
  }

  lemma AfterTryIs(q: Quote, l: Loop, readiness: Readiness)
    requires l.attempts > 0 && !AfterAttempt(q, l.run, readiness).Stop?
    ensures AfterTry(q, l, readiness)
            == match readiness
               case Cancelled(next) => if next.Again? then l else l.(attempts := l.attempts - 1)
               case Ready =>
                 if Proposal(q, l.run).Send?
                 then l.(run := Step(q, l.run, TrySend), pending := l.pending + {|l.run.log|})
                 else l.(attempts := l.attempts - 1)
    ensures readiness.Ready? ==> Proposal(q, l.run).Send? || Proposal(q, l.run).Yield?
  {
  }

  lemma AttemptKeepsGoing(q: Quote, l: Loop, readiness: Readiness)
    requires Going(q, l) && l.attempts > 0 && Patient(l, RunRequest(readiness))
    requires !AfterAttempt(q, l.run, readiness).Stop?
    ensures Going(q, AfterTry(q, l, readiness))
  {
    AfterTryIs(q, l, readiness);
    match readiness {
      case Cancelled(next) => if next.Wait? { DropKeepsGoing(q, l); }
      case Ready =>
        if Proposal(q, l.run).Send? {
          SendKeepsGoing(q, l, Proposal(q, l.run).request);
        } else {
          if l.pending == {} { YieldsInVain(q, l.run); }
          DropKeepsGoing(q, l);
        }
    }
  }

  lemma ReplyKeepsGoing(q: Quote, l: Loop, id: nat, otherError: bool, reply: Reply)
    requires Going(q, l) && id in l.pending && !AfterReply(q, l.run, id, reply, otherError).Stop?
    ensures var run := Step(q, l.run, Arrive(id, reply));
            Going(q, l.(run := run, attempts := l.attempts + 1, pending := l.pending - {id}))
  {
    ReceiveKeepsAccounts(q, l.run, id, reply);
    RepliesEndLoopIff(q, l.run, id, reply, otherError);
    var run := Step(q, l.run, Arrive(id, reply));
    assert forall k: nat :: Pending(run, k) <==> Pending(l.run, k) && k != id;
  }

  lemma TurnKeepsGoing(q: Quote, l: Loop, c: Choice, network: nat -> Reply)
    requires Going(q, l) && Patient(l, c) && !Turn(q, l, c, network).1.Stop?
    ensures Going(q, Resumed(Turn(q, l, c, network).0, Turn(q, l, c, network).1))
  {
    match c {
      case RunRequest(readiness) => if l.attempts > 0 { AttemptKeepsGoing(q, l, readiness); }
      case RunReply(id, otherError) =>
        if id in l.pending {
          RepliesEndLoopIff(q, l.run, id, network(id), otherError);
          ReplyKeepsGoing(q, l, id, otherError, network(id));
        }
    }
  }

  // ---- whole runs of the loop ----

  /** The loop after a schedule, if nothing stops it on the way. */
  function After(q: Quote, l: Loop, schedule: seq<Choice>, network: nat -> Reply): Option<Loop>
    decreases schedule
  {
    if schedule == [] then Some(l)
    else
      var (l', next) := Turn(q, l, schedule[0], network);
      if next.Stop? then None else After(q, Resumed(l', next), schedule[1..], network)
  }

  ghost predicate PatientRun(q: Quote, l: Loop, schedule: seq<Choice>, network: nat -> Reply)
    decreases schedule
  {
    schedule != [] ==>
      && Patient(l, schedule[0])
      && var (l', next) := Turn(q, l, schedule[0], network);
         next.Stop? || PatientRun(q, Resumed(l', next), schedule[1..], network)
  }

  lemma {:induction false} StaysGoing(q: Quote, l: Loop, schedule: seq<Choice>, network: nat -> Reply)
    requires Going(q, l) && PatientRun(q, l, schedule, network) && After(q, l, schedule, network).Some?
    ensures Going(q, After(q, l, schedule, network).value)
    decreases schedule
  {
    if schedule != [] {
      var (l', next) := Turn(q, l, schedule[0], network);
      TurnKeepsGoing(q, l, schedule[0], network);
      StaysGoing(q, Resumed(l', next), schedule[1..], network);
    }
  }

  function NewLoop(q: Quote): Loop {
    Loop(PaymentRuns.Start(q), 1, {})
  }

  /** A loop that has not ended has something to wait for, unless the budget was spent and the target not delivered. */
  lemma HangsOnlyWhenExhausted(q: Quote, schedule: seq<Choice>, network: nat -> Reply)
    requires !Paid(q, NewSender()) && PatientRun(q, NewLoop(q), schedule, network)
    requires After(q, NewLoop(q), schedule, network).Some?
    ensures var l := After(q, NewLoop(q), schedule, network).value; Alive(l) || Exhausted(q, l.run.sender)
  {
    EveryRunKeepsAccounts(q, []);
    StaysGoing(q, NewLoop(q), schedule, network);
  }

  // ---- and then it does hang ----

  /** Without a task nothing ever happens again. */
  lemma {:induction false} DeadStaysDead(q: Quote, l: Loop, schedule: seq<Choice>, network: nat -> Reply)
    requires !Alive(l)
    ensures Outcome(q, l, schedule, network) == None && After(q, l, schedule, network) == Some(l)
    decreases schedule
  {
    if schedule != [] { DeadStaysDead(q, l, schedule[1..], network); }
  }

  /** A loop never ends, whatever its schedule, if and only if it has no task. */
  lemma NeverEndsIff(q: Quote, l: Loop, network: nat -> Reply)
    requires forall id: nat :: id in l.pending ==> Pending(l.run, id)
    ensures (forall schedule :: Outcome(q, l, schedule, network) == None) <==> !Alive(l)
  {
    if l.attempts > 0 {
      StopsAtOnce(q, l, RunRequest(Cancelled(Stop(Error))), network);
    } else if l.pending != {} {
      var id :| id in l.pending;
      RepliesEndLoopIff(q, l.run, id, network(id), true);
      StopsAtOnce(q, l, RunReply(id, true), network);
    } else {
      forall schedule ensures Outcome(q, l, schedule, network) == None {
        DeadStaysDead(q, l, schedule, network);
      }
    }
  }

  lemma StopsAtOnce(q: Quote, l: Loop, c: Choice, network: nat -> Reply)
    requires Turn(q, l, c, network).1.Stop?
    ensures Outcome(q, l, [c], network).Some?
  {
  }

  // ---- a payment that exhausts its budget hangs ----

  lemma ExhaustedYields(q: Quote, run: Run)
    requires Exhausted(q, run.sender)
    ensures Proposal(q, run).Yield?
  {
    YieldsIff(q, run.sender, MP.NextMax(run.max), run.rate);
  }

  lemma ExhaustedTurn(q: Quote, l: Loop, c: Choice, network: nat -> Reply)
    requires Exhausted(q, l.run.sender) && l.pending == {}
    ensures var (l', next) := Turn(q, l, c, network);
            && l'.run == l.run && l'.pending == {} && next != Stop(Done)
            && (c == RunRequest(Ready) && l.attempts > 0 ==> l' == l.(attempts := l.attempts - 1) && next == Wait)
  {
    ExhaustedYields(q, l.run);
  }

  /** Whatever happens to it, it never succeeds. */
  lemma {:induction false} ExhaustedNeverSucceeds(q: Quote, l: Loop, schedule: seq<Choice>, network: nat -> Reply)
    requires Exhausted(q, l.run.sender) && l.pending == {}
    ensures Outcome(q, l, schedule, network) != Some(Done)
    decreases schedule
  {
    if schedule != [] {
      var (l', next) := Turn(q, l, schedule[0], network);
      ExhaustedTurn(q, l, schedule[0], network);
      if !next.Stop? { ExhaustedNeverSucceeds(q, Resumed(l', next), schedule[1..], network); }
    }
  }

  function Attempts(n: nat): seq<Choice> {
    if n == 0 then [] else [RunRequest(Ready)] + Attempts(n - 1)
  }

  /** And once the scheduled attempts have run, it waits for ever. */
  lemma {:induction false} ExhaustedHangs(q: Quote, l: Loop, network: nat -> Reply)
    requires Exhausted(q, l.run.sender) && l.pending == {}
    ensures After(q, l, Attempts(l.attempts), network) == Some(l.(attempts := 0)) && !Alive(l.(attempts := 0))
    decreases l.attempts
  {
    if l.attempts > 0 {
      ExhaustedTurn(q, l, RunRequest(Ready), network);
      ExhaustedHangs(q, l.(attempts := l.attempts - 1), network);
      assert Attempts(l.attempts)[1..] == Attempts(l.attempts - 1);
    }
  }

  /** The turns that send the one packet of a payment and take its reply. */
  lemma OnePacketTurns(q: Quote, request: Request, network: nat -> Reply) returns (l: Loop)
    requires Proposal(q, PaymentRuns.Start(q)) == Send(request)
    requires var run := Step(q, PaymentRuns.Start(q), TrySend);
             Pending(run, 0) && AfterReply(q, run, 0, network(0), false) == Again
    ensures After(q, NewLoop(q), [RunRequest(Ready), RunReply(0, false)], network) == Some(l)
    ensures l.run == Step(q, Step(q, PaymentRuns.Start(q), TrySend), Arrive(0, network(0)))
    ensures l.pending == {} && l.attempts == 2
  {
    var run := Step(q, PaymentRuns.Start(q), TrySend);
    var l0, l1 := NewLoop(q), Loop(run, 1, {0});
    l := Loop(Step(q, run, Arrive(0, network(0))), 2, {});
    FirstTurn(q, request, network);
    ReplyTurn(q, l1, network);
    assert l1.pending - {0} == {};
    TwoTurns(q, l0, l1, l, RunRequest(Ready), RunReply(0, false), network);
  }

  lemma FirstTurn(q: Quote, request: Request, network: nat -> Reply)
    requires Proposal(q, PaymentRuns.Start(q)) == Send(request)
    ensures Turn(q, NewLoop(q), RunRequest(Ready), network)
            == (Loop(Step(q, PaymentRuns.Start(q), TrySend), 0, {0}), Again)
  {
    var none: set<nat> := {};
    assert none + {0} == {0};
  }

  lemma ReplyTurn(q: Quote, l: Loop, network: nat -> Reply)
    requires 0 in l.pending && Pending(l.run, 0) && AfterReply(q, l.run, 0, network(0), false) == Again
    ensures Turn(q, l, RunReply(0, false), network)
            == (l.(run := Step(q, l.run, Arrive(0, network(0))), pending := l.pending - {0}), Again)
  {
  }

  lemma {:induction false} TwoTurns(q: Quote, l0: Loop, l1: Loop, l2: Loop, c: Choice, d: Choice, network: nat -> Reply)
    requires Turn(q, l0, c, network).1 == Again && Resumed(Turn(q, l0, c, network).0, Again) == l1
    requires Turn(q, l1, d, network).1 == Again && Resumed(Turn(q, l1, d, network).0, Again) == l2
    ensures After(q, l0, [c, d], network) == Some(l2)
  {
    var last := [d];
    assert [c, d][1..] == last && last[1..] == [];
    assert After(q, l1, last, network) == Some(l2);
  }

  /** For every target that a budget may miss, there is a payment that hangs. */
  lemma ShortPaymentHangs(target: pos, minRate: PositiveRatio) returns (schedule: seq<Choice>)
    requires !DividesClosely(target, minRate) && target <= MAX_U64
    ensures var q := ShortQuote(target, minRate);
            var network := (id: nat) => FulfilledWith(Guaranteed(target, minRate));
            && Quotes(q, FixedDelivery, target)
            && After(q, NewLoop(q), schedule, network).Some?
            && !Alive(After(q, NewLoop(q), schedule, network).value)
  {
    var q, given := ShortQuote(target, minRate), Guaranteed(target, minRate);
    var network := (id: nat) => FulfilledWith(given);
    BudgetFallsShort(target, minRate);
    var request := ShortRequest(target, minRate);
    var run := Step(q, PaymentRuns.Start(q), TrySend);
    ShortRunIs(q, request, given);
    RepliesEndLoopIff(q, run, 0, network(0), false);
    CreditsGreatest(q, run.sender, request, network(0));
    var l := OnePacketTurns(q, request, network);
    ExhaustedHangs(q, l, network);
    AfterConcat(q, NewLoop(q), [RunRequest(Ready), RunReply(0, false)], Attempts(2), network);
    schedule := [RunRequest(Ready), RunReply(0, false)] + Attempts(2);
  }

  lemma {:induction false} AfterConcat(q: Quote, l: Loop, xs: seq<Choice>, ys: seq<Choice>, network: nat -> Reply)
    requires After(q, l, xs, network).Some?
    ensures After(q, l, xs + ys, network) == After(q, After(q, l, xs, network).value, ys, network)
    decreases xs
  {
    if xs == [] {
      assert xs + ys == ys;
    } else {
      var (l', next) := Turn(q, l, xs[0], network);
      AfterConcat(q, Resumed(l', next), xs[1..], ys, network);
      assert (xs + ys)[1..] == xs[1..] + ys;
    }
  }

  /** The only packet of a short payment. */
  lemma ShortRequest(target: pos, minRate: PositiveRatio) returns (request: Request)
    requires !DividesClosely(target, minRate) && target <= MAX_U64
    ensures var q := ShortQuote(target, minRate);
            Proposal(q, PaymentRuns.Start(q)) == Send(request) && request.minDestination == Guaranteed(target, minRate)
  {
    BudgetIsCeiling(target, minRate);
    BudgetAtMostTarget(target, minRate);
    GuaranteeCoversIff(target, minRate);
    request := WholeBudgetPacket(ShortQuote(target, minRate));
  }

  lemma ShortRunIs(q: Quote, request: Request, given: nat)
    requires Proposal(q, PaymentRuns.Start(q)) == Send(request)
    ensures var run := Step(q, PaymentRuns.Start(q), TrySend);
            && Pending(run, 0) && run.log == [Entry(request, Outstanding)]
            && Exec(q, [TrySend, Arrive(0, FulfilledWith(given))]) == Step(q, run, Arrive(0, FulfilledWith(given)))
  {
    var es := [TrySend, Arrive(0, FulfilledWith(given))];
    ExecSnoc(q, [], TrySend);
    assert [] + [TrySend] == [TrySend];
    ExecSnoc(q, [TrySend], es[1]);
    assert [TrySend] + [es[1]] == es;
  }
}
