/** The send loop and its two task schedulers (packages/pay/src/senders/index.ts). */
module SendLoop {
  import opened Basics
  import opened Payment
  import opened PaymentRuns
  import ER = ExchangeRate
  import opened PaymentDecisions
  import opened PaymentReports
  import PacketHops
  import MP = MaxPacket

  datatype Result = Done | Error

  /** What the loop does next. */
  datatype Next = Again | Wait | Stop(result: Result)

  /** A controller may delay, drop or end an attempt, but not complete the payment. */
  type Cancellation = n: Next | n != Stop(Done) witness Wait

  /** How the controllers answered while a request was being built. */
  datatype Readiness = Ready | Cancelled(next: Cancellation)

  /**
   * Which resolved task the race picks: a scheduled attempt, or the reply to a request.
   * `otherError` stands for an error of a controller that is not modelled.
   */
  datatype Choice = RunRequest(readiness: Readiness) | RunReply(id: nat, otherError: bool)

  /** The requests committed so far. */
  function AllIds(n: nat): (ids: set<nat>)
    ensures forall id: nat :: id in ids <==> id < n
  {
    if n == 0 then {} else AllIds(n - 1) + {n - 1}
  }

  /** The reply scheduler holds exactly the outstanding requests; the others took the network's reply, once each. */
  ghost predicate Synced(run: Run, pending: set<nat>, applied: multiset<nat>, network: nat -> Reply) {
    && (forall id: nat :: id in pending <==> Pending(run, id))
    && (forall id: nat :: id < |run.log| && id !in pending
          ==> run.log[id].status == StatusAfter(run.log[id].request, network(id)))
    && applied + multiset(pending) == multiset(AllIds(|run.log|))
  }

  lemma CommitKeepsSynced(run: Run, run': Run, request: Request, pending: set<nat>, applied: multiset<nat>,
                          network: nat -> Reply)
    requires Synced(run, pending, applied, network) && run'.log == run.log + [Entry(request, Outstanding)]
    ensures Synced(run', pending + {|run.log|}, applied, network)
  {
    var n := |run.log|;
    assert n !in pending;
    assert multiset(pending + {n}) == multiset(pending) + multiset{n};
    assert multiset(AllIds(n + 1)) == multiset(AllIds(n)) + multiset{n};
  }

  lemma ReplyKeepsSynced(run: Run, run': Run, id: nat, pending: set<nat>, applied: multiset<nat>,
                         network: nat -> Reply)
    requires Synced(run, pending, applied, network) && id in pending
    requires run'.log == run.log[id := Entry(run.log[id].request, StatusAfter(run.log[id].request, network(id)))]
    ensures Synced(run', pending - {id}, applied + multiset{id}, network)
  {
  }

  // ---- what the loop decides ----

  function AfterAttempt(q: Quote, run: Run, readiness: Readiness): Next {
    match readiness
    case Cancelled(next) => next
    case Ready =>
      match Proposal(q, run)
      case Yield => Wait
      case InsufficientRate => Stop(Error)
      case Send(_) => Again
  }

  /** The first error of a controller wins over the verdict of the sender. */
  function AfterReply(q: Quote, run: Run, id: nat, reply: Reply, otherError: bool): Next
    requires Pending(run, id)
  {
    var request := run.log[id].request;
    if MP.Apply(run.max, MP.Reply(request.source, SignalOf(reply))).1 || otherError then Stop(Error)
    else
      match ApplyReply(q, run.sender, request, reply).1
      case Schedule => Again
      case Complete => Stop(Done)
      case ReceiverProtocolViolation => Stop(Error)
      case IncompatibleReceiveMax => Stop(Error)
  }

  /** An F08 that leaves no amount to send. */
  predicate PathIsUseless(source: nat, reply: Reply) {
    && !reply.fulfilled && reply.tooLarge.Some?
    && match reply.tooLarge.value
       case None => source <= 1
       case Some(m) => m.maximum < m.received && m.maximum * source < m.received
  }

  /**
   * Why a reply ends the loop: with an error when a controller fails, the path is useless, the receiver misreports or
   * will not take enough; with success when the payment is paid and none of these is so.
   */
  lemma RepliesEndLoopIff(q: Quote, run: Run, id: nat, reply: Reply, otherError: bool)
    requires Pending(run, id)
    ensures var before, after := run.sender, Step(q, run, Arrive(id, reply)).sender;
            var next := AfterReply(q, run, id, reply, otherError);
            var failed := otherError || PathIsUseless(run.log[id].request.source, reply);
            && (next == Stop(Done) <==> !failed && !Misreported(before, after, reply) && Paid(q, after))
            && (next == Stop(Error) <==>
                  failed || Misreported(before, after, reply) || (!Paid(q, after) && !LimitSuffices(q, after)))
            && next != Wait
  {
    var request := run.log[id].request;
    JudgesRightly(q, run.sender, request, reply);
    UselessIff(run.max, request.source, reply);
  }

  lemma UselessIff(max: MP.State, source: nat, reply: Reply)
    ensures MP.Apply(max, MP.Reply(source, SignalOf(reply))).1 <==> PathIsUseless(source, reply)
  {
    if !reply.fulfilled && reply.tooLarge.Some? { PacketHops.FailsIff(max, reply.tooLarge.value, source); }
  }

  lemma CompletesWhenPaid(q: Quote, run: Run, id: nat, reply: Reply, otherError: bool)
    requires Pending(run, id) && AfterReply(q, run, id, reply, otherError) == Stop(Done)
    ensures Paid(q, Step(q, run, Arrive(id, reply)).sender)
  {
    RepliesEndLoopIff(q, run, id, reply, otherError);
  }

  /** Every packet that was fulfilled was credited with just what its reply reported. */
  ghost predicate AsReported(log: seq<Entry>, network: nat -> Reply) {
    forall id: nat :: id < |log| && log[id].status.Fulfilled? ==> network(id).delivered == Some(log[id].status.credited)
  }

  lemma ReplyIsAsReported(q: Quote, run: Run, id: nat, otherError: bool, network: nat -> Reply)
    requires Pending(run, id) && AsReported(run.log, network)
    requires AfterReply(q, run, id, network(id), otherError) != Stop(Error)
    ensures AsReported(Step(q, run, Arrive(id, network(id))).log, network)
  {
    if network(id).fulfilled {
      JudgesRightly(q, run.sender, run.log[id].request, network(id));
      AcceptedEntry(q, run, id, network(id));
    }
  }

  /** The payment, the number of scheduled attempts and the requests without a reply. */
  datatype Loop = Loop(run: Run, attempts: nat, pending: set<nat>)

  function Attempted(q: Quote, l: Loop, readiness: Readiness): Loop {
    if readiness.Ready? && Proposal(q, l.run).Send?
    then l.(run := Step(q, l.run, TrySend), pending := l.pending + {|l.run.log|})
    else l
  }

  /** One turn; a choice that is not available is skipped. */
  function Turn(q: Quote, l: Loop, c: Choice, network: nat -> Reply): (Loop, Next) {
    match c
    case RunRequest(readiness) =>
      if l.attempts == 0 then (l, Wait)
      else (Attempted(q, l.(attempts := l.attempts - 1), readiness), AfterAttempt(q, l.run, readiness))
    case RunReply(id, otherError) =>
      if id !in l.pending || !Pending(l.run, id) then (l, Wait)
      else
        (l.(run := Step(q, l.run, Arrive(id, network(id))), pending := l.pending - {id}),
         AfterReply(q, l.run, id, network(id), otherError))
  }

  /** How the loop ends, if it does before the schedule is used up. */
  function Outcome(q: Quote, l: Loop, schedule: seq<Choice>, network: nat -> Reply): Option<Result>
    decreases schedule
  {
    if schedule == [] then None
    else
      var (l', next) := Turn(q, l, schedule[0], network);
      match next
      case Stop(result) => Some(result)
      case Wait => Outcome(q, l', schedule[1..], network)
      case Again => Outcome(q, l'.(attempts := l'.attempts + 1), schedule[1..], network)
  }

  /** The loop goes on from where a turn left it. */
  function Resumed(l: Loop, next: Next): Loop {
    if next.Again? then l.(attempts := l.attempts + 1) else l
  }

  lemma {:induction false} OutcomeAfterTurn(q: Quote, l: Loop, schedule: seq<Choice>, network: nat -> Reply, i: nat)
    requires i < |schedule|
    ensures var (l', next) := Turn(q, l, schedule[i], network);
            Outcome(q, l, schedule[i..], network)
            == if next.Stop? then Some(next.result) else Outcome(q, Resumed(l', next), schedule[i + 1..], network)
  {
    assert schedule[i..][1..] == schedule[i + 1..];
  }

  lemma AttemptNeverCompletes(q: Quote, run: Run, readiness: Readiness)
    ensures AfterAttempt(q, run, readiness) != Stop(Done)
  {
  }

  // ---- the loop ----

  class StreamSender {
    const quote: Quote
    const sender: PaymentSender
    const maxPacketController: MP.MaxPacketAmountController
    const rateCalculator: ER.ExchangeRateController
    /** What the reply tasks captured, by request. */
    var requests: seq<Request>
    /** Pending tasks of the request scheduler. */
    var attempts: nat
    /** Pending tasks of the reply scheduler, by request. */
    var pending: set<nat>
    /** The committed requests with their replies, what happened so far, and the requests whose reply was applied. */
    ghost var log: seq<Entry>
    ghost var trace: seq<Event>
    ghost var applied: multiset<nat>

    /** The state of the sender and its controllers. */
    ghost function View(): Run
      reads this, sender, maxPacketController, rateCalculator
    {
      Run(sender.View(), maxPacketController.View(), rateCalculator.View(), log)
    }

    ghost function State(): Loop
      reads this, sender, maxPacketController, rateCalculator
    {
      Loop(View(), attempts, pending)
    }

    /** `network` gives the reply each request gets, sooner or later. */
    ghost predicate Valid(network: nat -> Reply)
      reads this, sender, maxPacketController, rateCalculator
    {
      && sender.quote == quote
      && |requests| == |log| && (forall id: nat :: id < |log| ==> requests[id] == log[id].request)
      && View() == Exec(quote, trace)
      && Synced(View(), pending, applied, network)
    }

    constructor (quote: Quote, ghost network: nat -> Reply)
      ensures Valid(network) && this.quote == quote && State() == Loop(PaymentRuns.Start(quote), 1, {})
      ensures AsReported(log, network)
      ensures fresh(sender) && fresh(maxPacketController) && fresh(rateCalculator)
    {
      this.quote := quote;
      sender := new PaymentSender(quote);
      maxPacketController := new MP.MaxPacketAmountController(Some(quote.maxPacketAmount));
      rateCalculator := new ER.ExchangeRateController(quote.rate.lower, quote.rate.upper);
      requests, attempts, pending, log, trace, applied := [], 1, {}, [], [], multiset{};
    }

    /** The controllers may hold the attempt back; otherwise the sender decides, and a request is committed at once. */
    method TrySending(readiness: Readiness, ghost network: nat -> Reply) returns (next: Next)
      requires Valid(network)
      modifies this, sender
      ensures Valid(network)
      ensures next == AfterAttempt(quote, old(View()), readiness)
      ensures old(AsReported(log, network)) ==> AsReported(log, network)
      ensures State() == Attempted(quote, old(State()), readiness)
    {
      match readiness {
        case Cancelled(cancellation) => return cancellation;
        case Ready =>
      }
      ghost var run := View();
      var attempt := sender.TryNext(MP.NextMax(maxPacketController.View()), rateCalculator.View());
      match attempt {
        case Yield => return Wait;
        case InsufficientRate => return Stop(Error);
        case Send(request) =>
          Committed(request, run, network);
          return Again;
      }
    }

    /** Queue the task that waits for the reply. */
    method Committed(request: Request, ghost run: Run, ghost network: nat -> Reply)
      requires sender.quote == quote && |requests| == |log| && run == Exec(quote, trace)
      requires forall id: nat :: id < |log| ==> requests[id] == log[id].request
      requires Synced(run, pending, applied, network) && Proposal(quote, run) == Send(request)
      requires View() == run.(sender := Commit(run.sender, request))
      modifies this
      ensures Valid(network) && attempts == old(attempts)
      ensures View() == Step(quote, run, TrySend) && pending == old(pending) + {|run.log|}
    {
      ExecSnoc(quote, trace, TrySend);
      CommitKeepsSynced(run, Step(quote, run, TrySend), request, pending, applied, network);
      pending := pending + {|requests|};
      requests := requests + [request];
      log, trace := log + [Entry(request, Outstanding)], trace + [TrySend];
    }

    /** Run a reply task: the controllers see the reply, then the sender, and then the first error wins. */
    method ApplyEffects(id: nat, reply: Reply, otherError: bool, ghost network: nat -> Reply) returns (next: Next)
      requires Valid(network) && id in pending && reply == network(id)
      modifies this, sender, maxPacketController, rateCalculator
      ensures Valid(network) && attempts == old(attempts) && pending == old(pending) - {id}
      ensures |log| == old(|log|) && Pending(old(View()), id)
      ensures View() == Step(quote, old(View()), Arrive(id, reply))
      ensures next == AfterReply(quote, old(View()), id, reply, otherError)
    {
      ghost var run := View();
      var request := requests[id];
      var maxPacketError := maxPacketController.ApplyReply(MP.Reply(request.source, SignalOf(reply)));
      rateCalculator.ApplyReply(request.source, reply.delivered);
      var verdict := sender.OnReply(request, reply);
      ghost var run' := Step(quote, run, Arrive(id, reply));
      ReplyKeepsSynced(run, run', id, pending, applied, network);
      ExecSnoc(quote, trace, Arrive(id, reply));
      log, trace := run'.log, trace + [Arrive(id, reply)];
      applied := applied + multiset{id};
      pending := pending - {id};
      if maxPacketError || otherError {
        return Stop(Error);
      }
      match verdict {
        case Schedule => return Again;
        case Complete => return Stop(Done);
        case ReceiverProtocolViolation => return Stop(Error);
        case IncompatibleReceiveMax => return Stop(Error);
      }
    }

    /** Run the tasks that are still pending as they resolve; what they return is ignored. */
    method CompleteReplies(network: nat -> Reply)
      requires Valid(network)
      modifies this, sender, maxPacketController, rateCalculator
      ensures Valid(network) && pending == {} && |log| == old(|log|)
      ensures old(pending) == {} ==> View() == old(View())
    {
      while pending != {}
        invariant Valid(network) && |log| == old(|log|)
        invariant old(pending) == {} ==> pending == {} && View() == old(View())
        decreases |pending|
      {
        var id :| id in pending;
        var ignored := ApplyEffects(id, network(id), false, network);
      }
    }

    /** A turn with a scheduled attempt. */
    method RunAttempt(readiness: Readiness, ghost network: nat -> Reply) returns (next: Next)
      requires Valid(network)
      modifies this, sender
      ensures Valid(network) && next != Stop(Done)
      ensures (State(), next) == Turn(quote, old(State()), RunRequest(readiness), network)
      ensures old(AsReported(log, network)) ==> AsReported(log, network)
    {
      if attempts == 0 {
        return Wait;
      }
      AttemptNeverCompletes(quote, View(), readiness);
      TakeTask(network);
      next := TrySending(readiness, network);
    }

    /** Remove a task from the request scheduler. */
    method TakeTask(ghost network: nat -> Reply)
      requires Valid(network) && attempts > 0
      modifies this`attempts
      ensures Valid(network) && State() == old(State()).(attempts := old(attempts) - 1)
    {
      attempts := attempts - 1;
    }

    /** A turn with a reply. */
    method RunTask(id: nat, otherError: bool, network: nat -> Reply) returns (next: Next)
      requires Valid(network)
      modifies this, sender, maxPacketController, rateCalculator
      ensures Valid(network) && (State(), next) == Turn(quote, old(State()), RunReply(id, otherError), network)
      ensures next == Stop(Done) ==> Paid(quote, View().sender)
      ensures old(AsReported(log, network)) && next != Stop(Error) ==> AsReported(log, network)
    {
      if id !in pending {
        return Wait;
      }
      ghost var run := View();
      next := ApplyEffects(id, network(id), otherError, network);
      if next == Stop(Done) { CompletesWhenPaid(quote, run, id, network(id), otherError); }
      if next != Stop(Error) && AsReported(run.log, network) {
        ReplyIsAsReported(quote, run, id, otherError, network);
      }
    }

    method RunTurn(choice: Choice, network: nat -> Reply) returns (next: Next)
      requires Valid(network)
      modifies this, sender, maxPacketController, rateCalculator
      ensures Valid(network) && next == Turn(quote, old(State()), choice, network).1
      ensures State() == Resumed(Turn(quote, old(State()), choice, network).0, next)
      ensures next == Stop(Done) ==> Paid(quote, View().sender)
      ensures old(AsReported(log, network)) && next != Stop(Error) ==> AsReported(log, network)
    {
      match choice {
        case RunRequest(readiness) => next := RunAttempt(readiness, network);
        case RunReply(id, otherError) => next := RunTask(id, otherError, network);
      }
      Resume(next, network);
    }

    /** Schedule another attempt if the turn asks for one. */
    method Resume(next: Next, ghost network: nat -> Reply)
      requires Valid(network)
      modifies this`attempts
      ensures Valid(network) && State() == Resumed(old(State()), next)
    {
      if next.Again? {
        attempts := attempts + 1;
      }
    }

    /**
     * The loop, for any schedule. Without a result the schedule ended first. With one, every committed
     * request had its reply applied exactly once, nothing is in flight and the totals are those of the
     * fulfilled requests; and success means that the payment is complete and every fulfilled packet was
     * credited with just what the receiver reported.
     */
    method Start(network: nat -> Reply, schedule: seq<Choice>) returns (result: Option<Result>)
      requires Valid(network) && AsReported(log, network)
      modifies this, sender, maxPacketController, rateCalculator
      ensures Valid(network) && result == Outcome(quote, old(State()), schedule, network)
      ensures result.Some? ==> Settled(network)
      ensures result == Some(Done) ==> Paid(quote, sender.View()) && AsReported(log, network)
    {
      assert schedule[0..] == schedule;
      for i := 0 to |schedule|
        invariant Valid(network) && AsReported(log, network)
        invariant Outcome(quote, State(), schedule[i..], network) == Outcome(quote, old(State()), schedule, network)
      {
        OutcomeAfterTurn(quote, State(), schedule, network, i);
        var next := RunTurn(schedule[i], network);
        if next.Stop? {
          Finish(network, next.result);
          return Some(next.result);
        }
      }
      return None;
    }

    ghost predicate Settled(network: nat -> Reply)
      reads this, sender
    {
      && applied == multiset(AllIds(|log|))
      && (forall id: nat :: id < |log| ==> log[id].status == StatusAfter(log[id].request, network(id)))
      && sender.sourceAmountInFlight == 0 && sender.destinationAmountInFlight == 0
      && sender.amountSent == Sum(log, SentOf) && sender.amountDelivered == Sum(log, DeliveredOf)
    }

    /** Wait for the outstanding replies before the loop returns. */
    method Finish(network: nat -> Reply, ghost stopped: Result)
      requires Valid(network) && (stopped.Done? ==> Paid(quote, View().sender))
      modifies this, sender, maxPacketController, rateCalculator
      ensures Valid(network) && Settled(network)
      ensures stopped.Done? ==> Paid(quote, View().sender) && log == old(log)
    {
      if stopped.Done? {
        CompletionSettlesEverything(quote, trace);
        assert pending == {};
      }
      CompleteReplies(network);
      NothingInFlight(quote, trace);
    }
  }

  /** Once no request is pending both in-flight totals are zero. */
  lemma NothingInFlight(q: Quote, es: seq<Event>)
    requires forall id: nat :: !Pending(Exec(q, es), id)
    ensures Accounts(q, Exec(q, es))
    ensures Exec(q, es).sender.sourceAmountInFlight == 0
    ensures Exec(q, es).sender.destinationAmountInFlight == 0
  {
    var s := Exec(q, es);
    EveryRunKeepsAccounts(q, es);
    forall e | e in s.log ensures !e.status.Outstanding? {
      var id :| 0 <= id < |s.log| && s.log[id] == e;
      assert !Pending(s, id);
    }
    SumZero(s.log, SourceInFlightOf);
    SumZero(s.log, DestinationInFlightOf);
  }
}
