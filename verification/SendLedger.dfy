/**
 * Money of all streams of a connection: allocation to packets, fulfilment and rejection
 * (packages/ilp-protocol-stream/src/connection.ts:1273-1347, 1454-1461, 1930-1939, 2112-2134).
 */
module SendLedger {
  import opened Basics
  import opened Long64
  import opened Rational64
  import opened MoneyStream

  /** One stream as the connection sees it; `registered` is membership in the connection's stream map. */
  datatype Stream = Stream(money: Money, registered: bool, sentEnd: bool,
                           remoteReceiveMax: u64, remoteReceived: u64)

  datatype Status = Outstanding | Fulfilled(delivered: u64) | Rejected

  /** `shares[i]` is the money frame of stream `i`, or zero without one. */
  datatype Packet = Packet(shares: seq<u64>, amount: u64, cap: u64, status: Status)

  /** The most a stream would put into a packet: what it has, and what its receiver says it can take. */
  function WantOf(s: Stream, rate: PositiveRational): u64 {
    if !s.registered || s.sentEnd then 0
    else
      var maxDestination := CheckedSubtract(s.remoteReceiveMax, s.remoteReceived).value;
      MinLong(MultiplyByLongCeil(Rational64.Reciprocal(rate), maxDestination), AvailableToSend(s.money))
  }

  function Wants(streams: seq<Stream>, rate: PositiveRational): seq<u64> {
    seq(|streams|, i requires 0 <= i < |streams| => WantOf(streams[i], rate))
  }

  /** Serve the streams in order until the limit is used up. */
  function Split(wants: seq<u64>, limit: u64): (shares: seq<u64>)
    ensures |shares| == |wants|
  {
    if wants == [] then []
    else
      var share := MinLong(wants[0], limit);
      [share] + Split(wants[1..], limit - share)
  }

  function Shares(streams: seq<Stream>, limit: u64, rate: PositiveRational): seq<u64> {
    Split(Wants(streams, rate), limit)
  }

  function Reserve(s: Stream, share: u64, id: nat): Stream {
    if share > 0 then s.(money := Hold(s.money, id, Some(share)).0) else s
  }

  // ---- sums ----

  function Sum(n: nat, f: nat -> nat): nat {
    if n == 0 then 0 else Sum(n - 1, f) + f(n - 1)
  }

  lemma {:induction false} SumSplit(n: nat, f: nat -> nat, g: nat -> nat, h: nat -> nat)
    requires forall i: nat :: i < n ==> h(i) == f(i) + g(i)
    ensures Sum(n, h) == Sum(n, f) + Sum(n, g)
  {
    if n > 0 { SumSplit(n - 1, f, g, h); }
  }

  lemma {:induction false} SumSame(n: nat, f: nat -> nat, g: nat -> nat)
    requires forall i: nat :: i < n ==> f(i) == g(i)
    ensures Sum(n, f) == Sum(n, g)
  {
    if n > 0 { SumSame(n - 1, f, g); }
  }

  lemma {:induction false} SumTail(n: nat, m: nat, f: nat -> nat)
    requires n <= m && forall i: nat :: n <= i < m ==> f(i) == 0
    ensures Sum(m, f) == Sum(n, f)
  {
    if n < m { SumTail(n, m - 1, f); }
  }

  lemma {:induction false} SumShift(n: nat, f: nat -> nat)
    ensures Sum(n + 1, f) == f(0) + Sum(n, i => f(i + 1))
  {
    if n > 0 { SumShift(n - 1, f); }
  }

  function At(shares: seq<u64>): nat -> nat {
    (i: nat) => if i < |shares| then shares[i] else 0
  }

  function SumShares(shares: seq<u64>): nat {
    Sum(|shares|, At(shares))
  }

  lemma SumSharesCons(share: u64, rest: seq<u64>)
    ensures SumShares([share] + rest) == share + SumShares(rest)
  {
    var f := At([share] + rest);
    SumShift(|rest|, f);
    SumSame(|rest|, i => f(i + 1), At(rest));
  }

  // ---- allocation ----

  lemma {:induction false} SplitAtMostWanted(wants: seq<u64>, limit: u64, i: nat)
    requires i < |wants|
    ensures Split(wants, limit)[i] <= wants[i]
    decreases wants
  {
    if i > 0 {
      SplitAtMostWanted(wants[1..], limit - MinLong(wants[0], limit), i - 1);
    }
  }

  /** The shares add up to the smaller of the limit and all that was wanted. */
  lemma {:induction false} SplitIsGreedy(wants: seq<u64>, limit: u64)
    ensures SumShares(Split(wants, limit)) == if SumShares(wants) <= limit then SumShares(wants) else limit
    decreases wants
  {
    if wants != [] {
      var share := MinLong(wants[0], limit);
      SplitIsGreedy(wants[1..], limit - share);
      SumSharesCons(share, Split(wants[1..], limit - share));
      SumSharesCons(wants[0], wants[1..]);
      assert wants == [wants[0]] + wants[1..];
    }
  }

  /** The streams are served in order: the first of them get what they want, up to the limit. */
  lemma {:induction false} SplitServesInOrder(wants: seq<u64>, limit: u64, n: nat)
    requires n <= |wants|
    ensures var wanted := SumShares(wants[..n]);
            SumShares(Split(wants, limit)[..n]) == if wanted <= limit then wanted else limit
    decreases n
  {
    if n == 0 {
      assert wants[..0] == [] && Split(wants, limit)[..0] == [];
    } else {
      var share := MinLong(wants[0], limit);
      var rest := Split(wants[1..], limit - share);
      SplitServesInOrder(wants[1..], limit - share, n - 1);
      assert ([share] + rest)[..n] == [share] + rest[..n - 1];
      assert wants[..n] == [wants[0]] + wants[1..][..n - 1];
      SumSharesCons(share, rest[..n - 1]);
      SumSharesCons(wants[0], wants[1..][..n - 1]);
    }
  }

  // ---- what a stream wants ----

  /** What the receiver of the stream says it can still take. */
  function Room(s: Stream): nat {
    Monus(s.remoteReceiveMax, s.remoteReceived)
  }

  /** The code finds the room, unless its underflow check is fooled. */
  predicate RoomIsFound(s: Stream) {
    2 * s.remoteReceived < s.remoteReceiveMax + TWO64
  }

  predicate Live(s: Stream) {
    s.registered && !s.sentEnd
  }

  lemma OnlyLiveStreamsWant(s: Stream, rate: PositiveRational)
    ensures !Live(s) ==> WantOf(s, rate) == 0
    ensures WantOf(s, rate) <= AvailableToSend(s.money)
  {
  }

  /** Less than one source unit of what a stream wants exceeds the room at its receiver, for any rate. */
  lemma WantFitsRoom(s: Stream, rate: PositiveRational)
    requires RoomIsFound(s) && WantOf(s, rate) > 0
    ensures Times(WantOf(s, rate) - 1, rate.a) < Times(Room(s), rate.b)
  {
    CheckedSubtractIsMonusIff(s.remoteReceiveMax, s.remoteReceived);
    CeilAtMost(Room(s), rate.b, rate.a);
    TimesOrder(WantOf(s, rate) - 1, MultiplyByLongCeil(Rational64.Reciprocal(rate), Room(s)) - 1, rate.a);
  }

  /** A stream wants all it has, or enough to fill the room. */
  ghost predicate FillsRoom(s: Stream, rate: PositiveRational) {
    WantOf(s, rate) == AvailableToSend(s.money) || Times(WantOf(s, rate), rate.a) >= Times(Room(s), rate.b)
  }

  lemma WantFillsRoom(s: Stream, rate: PositiveRational)
    requires Live(s) && RoomIsFound(s)
    requires rate.a <= TWO63 && (rate.b < 2 * rate.a || Times(Room(s), rate.b) < Times(TWO64, rate.a))
    ensures FillsRoom(s, rate)
  {
    CheckedSubtractIsMonusIff(s.remoteReceiveMax, s.remoteReceived);
    CeilCovers(Room(s), rate.b, rate.a);
  }

  /** A stream that may send this much, to a receiver with this much room. */
  function StreamWith(available: u64, room: u64): Stream {
    Stream(NewMoney().(sendMax := available), true, false, room, 0)
  }

  lemma StreamWithHas(available: u64, room: u64)
    ensures var s := StreamWith(available, room);
            Live(s) && RoomIsFound(s) && Room(s) == room && AvailableToSend(s.money) == available
  {
    CheckedSubtractIsMonusIff(available, 0);
  }

  /** Every live stream fills the room at a rate if and only if the rate is above one half. */
  lemma FillsRoomIff(rate: PositiveRational)
    requires rate.a <= TWO63
    ensures (forall s: Stream :: Live(s) && RoomIsFound(s) ==> FillsRoom(s, rate)) <==> rate.b < 2 * rate.a
  {
    if rate.b < 2 * rate.a {
      forall s: Stream | Live(s) && RoomIsFound(s) ensures FillsRoom(s, rate) {
        WantFillsRoom(s, rate);
      }
    } else {
      var s := StreamWith(MAX, TWO63);
      StreamWithHas(MAX, TWO63);
      CheckedSubtractIsMonusIff(s.remoteReceiveMax, s.remoteReceived);
      CeilFallsShort(rate.b, rate.a);
      assert !FillsRoom(s, rate);
    }
  }

  ghost predicate FillsAtAllRates(a: divisor) {
    forall s: Stream, rate: PositiveRational ::
      Live(s) && RoomIsFound(s) && rate.a == a && rate.b < 2 * a ==> FillsRoom(s, rate)
  }

  /** And so it is at all rates above one half with a numerator if and only if that is at most 2^63. */
  lemma FillsAtAllRatesIff(a: divisor)
    ensures FillsAtAllRates(a) <==> a <= TWO63
  {
    if a <= TWO63 {
      forall s: Stream, rate: PositiveRational | Live(s) && RoomIsFound(s) && rate.a == a && rate.b < 2 * a
        ensures FillsRoom(s, rate)
      {
        WantFillsRoom(s, rate);
      }
    } else {
      var s, rate: PositiveRational := StreamWith(2, 2), Rational(a, a - 1);
      StreamWithHas(2, 2);
      CheckedSubtractIsMonusIff(2, 0);
      MultiplyDivideByTwo(a - 1, a);
      assert WantOf(s, rate) <= 1;
      TimesIsProduct(WantOf(s, rate), a);
      TimesIsProduct(2, a - 1);
      assert !FillsRoom(s, rate);
    }
  }

  /** In a loaded packet, streams that are removed or ended have no share, and the others what their receivers take. */
  lemma SharesFitRooms(streams: seq<Stream>, limit: u64, rate: PositiveRational, i: nat)
    requires i < |streams|
    ensures var share, s := Shares(streams, limit, rate)[i], streams[i];
            && (!Live(s) ==> share == 0)
            && share <= AvailableToSend(s.money)
            && (share > 0 && RoomIsFound(s) ==> Times(share - 1, rate.a) < Times(Room(s), rate.b))
  {
    var share, s := Shares(streams, limit, rate)[i], streams[i];
    SplitAtMostWanted(Wants(streams, rate), limit, i);
    OnlyLiveStreamsWant(s, rate);
    if share > 0 && RoomIsFound(s) {
      WantFitsRoom(s, rate);
      TimesOrder(share - 1, WantOf(s, rate) - 1, rate.a);
    }
  }

  /** Reserving a share holds exactly that share under the packet's sequence number. */
  lemma ReserveKeepsBalance(s: Stream, share: u64, id: nat, peak: nat)
    requires Balanced(s.money, id, peak) && share <= AvailableToSend(s.money)
    ensures var s' := Reserve(s, share, id);
            && Balanced(s'.money, id + 1, peak)
            && s'.money.holds == (if share > 0 then s.money.holds[id := share] else s.money.holds)
            && s'.money.totalSent == s.money.totalSent
            && s'.money.held == s.money.held + share
            && s'.registered == s.registered
  {
    AvailableWithinLimit(s.money, id, peak);
    HoldKeepsBalance(s.money, id, peak, id, Some(share));
  }

  lemma ReserveKeepsTotal(s: Stream, share: u64, id: nat)
    ensures Reserve(s, share, id).money.totalSent == s.money.totalSent
  {
  }

  // ---- runs ----

  /** `peaks[i]` records the largest limit ever set on stream `i`; a packet's sequence number is its position. */
  datatype Ledger = Ledger(streams: seq<Stream>, peaks: seq<nat>, packets: seq<Packet>,
                           totalSent: u64, totalDelivered: u64, destroyed: bool)

  datatype Event =
    | OpenStream
    | ChangeSendMax(stream: nat, limit: u64)
    | RemoteLimits(stream: nat, receiveMax: u64, received: u64)
    | CloseStream(stream: nat)
    | RemoveStream(stream: nat)
    | LoadPacket(limit: u64, rate: PositiveRational)
    | FulfillPacket(packet: nat, delivered: u64)
    | RejectPacket(packet: nat)

  function Start(): Ledger {
    Ledger([], [], [], 0, 0, false)
  }

  function ShareAt(p: Packet, i: nat): u64 {
    if i < |p.shares| then p.shares[i] else 0
  }

  function Executed(s: Stream, share: u64, id: nat): Stream {
    if share > 0 then s.(money := Execute(s.money, id)) else s
  }

  /** Only streams still in the connection's map are rolled back. */
  function RolledBack(s: Stream, share: u64, id: nat): Stream {
    if share > 0 && s.registered then s.(money := Cancel(s.money, id)) else s
  }

  predicate IsPending(l: Ledger, k: nat) {
    k < |l.packets| && l.packets[k].status.Outstanding?
  }

  function Load(l: Ledger, limit: u64, rate: PositiveRational): Ledger {
    var id := |l.packets|;
    var shares := Shares(l.streams, limit, rate);
    SplitIsGreedy(Wants(l.streams, rate), limit);
    l.(streams := seq(|l.streams|, i requires 0 <= i < |l.streams| => Reserve(l.streams[i], shares[i], id)),
       packets := l.packets + [Packet(shares, SumShares(shares), limit, Outstanding)])
  }

  /** A fulfilment executes the holds first; an overflowing counter destroys the connection. */
  function Fulfill(l: Ledger, k: nat, delivered: u64): Ledger
    requires IsPending(l, k)
  {
    var p := l.packets[k];
    var newDelivered := CheckedAdd(l.totalDelivered, delivered);
    var newSent := CheckedAdd(l.totalSent, p.amount);
    l.(streams := seq(|l.streams|, i requires 0 <= i < |l.streams| => Executed(l.streams[i], ShareAt(p, i), k)),
       packets := l.packets[k := p.(status := Fulfilled(delivered))],
       totalDelivered := if newDelivered.flag then l.totalDelivered else newDelivered.value,
       totalSent := if newDelivered.flag || newSent.flag then l.totalSent else newSent.value,
       destroyed := l.destroyed || newDelivered.flag || newSent.flag)
  }

  function Reject(l: Ledger, k: nat): Ledger
    requires IsPending(l, k)
  {
    var p := l.packets[k];
    l.(streams := seq(|l.streams|, i requires 0 <= i < |l.streams| => RolledBack(l.streams[i], ShareAt(p, i), k)),
       packets := l.packets[k := p.(status := Rejected)])
  }

  function Step(l: Ledger, e: Event): Ledger {
    match e
    case OpenStream =>
      l.(streams := l.streams + [Stream(NewMoney(), true, false, MAX, 0)], peaks := l.peaks + [0])
    case ChangeSendMax(i, limit) =>
      if i < |l.streams| && i < |l.peaks| && SetSendMax(l.streams[i].money, limit).Some?
      then l.(streams := l.streams[i := l.streams[i].(money := SetSendMax(l.streams[i].money, limit).value)],
              peaks := l.peaks[i := if limit > l.peaks[i] then limit else l.peaks[i]])
      else l
    case RemoteLimits(i, receiveMax, received) =>
      if i < |l.streams|
      then l.(streams := l.streams[i := l.streams[i].(remoteReceiveMax := receiveMax, remoteReceived := received)])
      else l
    case CloseStream(i) =>
      if i < |l.streams|
      then l.(streams := l.streams[i := l.streams[i].(money := l.streams[i].money.(closed := true))])
      else l
    case RemoveStream(i) =>
      if i < |l.streams|
      then l.(streams := l.streams[i := l.streams[i].(registered := false, sentEnd := true)])
      else l
    case LoadPacket(limit, rate) => Load(l, limit, rate)
    case FulfillPacket(k, delivered) => if IsPending(l, k) then Fulfill(l, k, delivered) else l
    case RejectPacket(k) => if IsPending(l, k) then Reject(l, k) else l
  }

  function Exec(es: seq<Event>): Ledger {
    if es == [] then Start() else Step(Exec(es[..|es| - 1]), es[|es| - 1])
  }

  // ---- the ledger invariant ----

  /** An open hold of stream `i` belongs to a packet that is in flight, or was rejected after the stream was removed. */
  ghost predicate HoldsMatch(l: Ledger, i: nat)
    requires i < |l.streams|
  {
    var s := l.streams[i];
    && (forall k :: k in s.money.holds ==>
          && k < |l.packets|
          && s.money.holds[k] == ShareAt(l.packets[k], i)
          && (l.packets[k].status.Outstanding? || (l.packets[k].status.Rejected? && !s.registered)))
    && (forall k: nat :: IsPending(l, k) && ShareAt(l.packets[k], i) > 0 ==> k in s.money.holds)
  }

  ghost predicate StreamsOk(l: Ledger) {
    && |l.peaks| == |l.streams|
    && (forall i: nat :: i < |l.streams| ==> Balanced(l.streams[i].money, |l.packets|, l.peaks[i]) && HoldsMatch(l, i))
  }

  ghost predicate PacketOk(p: Packet, streams: nat) {
    && |p.shares| <= streams
    && p.amount == SumShares(p.shares) <= p.cap
  }

  function Totals(streams: seq<Stream>): nat -> nat {
    (i: nat) => if i < |streams| then streams[i].money.totalSent else 0
  }

  ghost predicate Consistent(l: Ledger) {
    && StreamsOk(l)
    && (forall p :: p in l.packets ==> PacketOk(p, |l.streams|))
    && (!l.destroyed ==> l.totalSent == Sum(|l.streams|, Totals(l.streams)))
  }

  /** A change of a limit that keeps the stream's arithmetic right. */
  ghost predicate SafeChange(l: Ledger, e: Event) {
    e.ChangeSendMax? && e.stream < |l.streams| ==> SafeLimit(l.streams[e.stream].money, e.limit)
  }

  ghost predicate SafeRun(es: seq<Event>) {
    es != [] ==> SafeRun(es[..|es| - 1]) && SafeChange(Exec(es[..|es| - 1]), es[|es| - 1])
  }

  /** One stream changed, in a way that leaves its total and its holds alone. */
  lemma UpdateKeepsConsistent(l: Ledger, i: nat, s: Stream, peak: nat)
    requires Consistent(l) && i < |l.streams| && Balanced(s.money, |l.packets|, peak)
    requires s.money.holds == l.streams[i].money.holds && s.money.totalSent == l.streams[i].money.totalSent
    requires s.registered ==> l.streams[i].registered
    ensures Consistent(l.(streams := l.streams[i := s], peaks := l.peaks[i := peak]))
  {
    var l' := l.(streams := l.streams[i := s], peaks := l.peaks[i := peak]);
    forall j: nat | j < |l.streams| ensures HoldsMatch(l', j) {
      assert HoldsMatch(l, j);
      assert forall k: nat :: IsPending(l', k) <==> IsPending(l, k);
    }
    SumSame(|l.streams|, Totals(l.streams), Totals(l'.streams));
  }

  lemma OpenKeepsConsistent(l: Ledger)
    requires Consistent(l)
    ensures Consistent(Step(l, OpenStream))
  {
    var l' := Step(l, OpenStream);
    var n := |l.streams|;
    forall i: nat | i <= n ensures Balanced(l'.streams[i].money, |l.packets|, l'.peaks[i]) && HoldsMatch(l', i) {
      assert forall k: nat :: IsPending(l', k) <==> IsPending(l, k);
      if i < n {
        assert HoldsMatch(l, i);
      } else {
        SumHoldsExtend(map[], 0, |l.packets|);
        forall k: nat | IsPending(l', k) ensures ShareAt(l.packets[k], n) == 0 {
          assert l.packets[k] in l.packets;
        }
      }
    }
    SumSame(n, Totals(l.streams), Totals(l'.streams));
    forall p | p in l'.packets ensures PacketOk(p, n + 1) {
      assert PacketOk(p, n);
    }
  }

  lemma LoadStream(l: Ledger, limit: u64, rate: PositiveRational, i: nat)
    requires StreamsOk(l) && i < |l.streams|
    ensures var l' := Load(l, limit, rate);
            Balanced(l'.streams[i].money, |l'.packets|, l.peaks[i]) && HoldsMatch(l', i)
  {
    var id, l' := |l.packets|, Load(l, limit, rate);
    var share := Shares(l.streams, limit, rate)[i];
    SplitAtMostWanted(Wants(l.streams, rate), limit, i);
    ReserveKeepsBalance(l.streams[i], share, id, l.peaks[i]);
    assert HoldsMatch(l, i);
    LoadKeepsMatch(l, l', l'.packets[id], i);
  }

  /** A new packet adds its own hold and no other. */
  lemma LoadKeepsMatch(l: Ledger, l': Ledger, p: Packet, i: nat)
    requires i < |l.streams| == |l'.streams| && HoldsMatch(l, i)
    requires p.status.Outstanding? && l'.packets == l.packets + [p]
    requires l'.streams[i].registered == l.streams[i].registered
    requires var holds, share := l.streams[i].money.holds, ShareAt(p, i);
             l'.streams[i].money.holds == if share > 0 then holds[|l.packets| := share] else holds
    ensures HoldsMatch(l', i)
  {
    assert forall k: nat :: k < |l.packets| ==> l'.packets[k] == l.packets[k];
    assert forall k: nat :: IsPending(l', k) <==> IsPending(l, k) || k == |l.packets|;
  }

  lemma LoadKeepsStreams(l: Ledger, limit: u64, rate: PositiveRational)
    requires StreamsOk(l)
    ensures StreamsOk(Load(l, limit, rate))
  {
    var l' := Load(l, limit, rate);
    forall i: nat | i < |l.streams|
      ensures Balanced(l'.streams[i].money, |l'.packets|, l.peaks[i]) && HoldsMatch(l', i)
    {
      LoadStream(l, limit, rate, i);
    }
  }

  lemma LoadKeepsConsistent(l: Ledger, limit: u64, rate: PositiveRational)
    requires Consistent(l)
    ensures Consistent(Load(l, limit, rate))
  {
    var l' := Load(l, limit, rate);
    LoadKeepsStreams(l, limit, rate);
    SplitIsGreedy(Wants(l.streams, rate), limit);
    forall i: nat | i < |l.streams| ensures Totals(l'.streams)(i) == Totals(l.streams)(i) {
      ReserveKeepsTotal(l.streams[i], Shares(l.streams, limit, rate)[i], |l.packets|);
    }
    SumSame(|l.streams|, Totals(l.streams), Totals(l'.streams));
  }

  /** Settling a packet takes away its own hold and no other. */
  lemma SettleKeepsMatch(l: Ledger, l': Ledger, k: nat, i: nat, status: Status)
    requires i < |l.streams| == |l'.streams| && HoldsMatch(l, i) && IsPending(l, k)
    requires !status.Outstanding? && l'.packets == l.packets[k := l.packets[k].(status := status)]
    requires k in l'.streams[i].money.holds ==> status.Rejected? && !l.streams[i].registered
    requires l'.streams[i].registered == l.streams[i].registered
    requires || l'.streams[i].money.holds == l.streams[i].money.holds - {k}
             || l'.streams[i].money.holds == l.streams[i].money.holds
    ensures HoldsMatch(l', i)
  {
  }

  lemma FulfillStream(l: Ledger, k: nat, delivered: u64, i: nat)
    requires StreamsOk(l) && IsPending(l, k) && i < |l.streams|
    ensures var l' := Fulfill(l, k, delivered);
            && Balanced(l'.streams[i].money, |l'.packets|, l'.peaks[i])
            && HoldsMatch(l', i)
            && l'.streams[i].money.totalSent == l.streams[i].money.totalSent + ShareAt(l.packets[k], i)
  {
    var l', p := Fulfill(l, k, delivered), l.packets[k];
    assert HoldsMatch(l, i);
    ExecuteKeepsBalance(l.streams[i].money, |l.packets|, l.peaks[i], k);
    SettleKeepsMatch(l, l', k, i, Fulfilled(delivered));
  }

  lemma FulfillKeepsConsistent(l: Ledger, k: nat, delivered: u64)
    requires Consistent(l) && IsPending(l, k)
    ensures Consistent(Fulfill(l, k, delivered))
  {
    var l', p, n := Fulfill(l, k, delivered), l.packets[k], |l.streams|;
    assert p in l.packets;
    forall i: nat | i < n
      ensures Balanced(l'.streams[i].money, |l'.packets|, l'.peaks[i]) && HoldsMatch(l', i)
      ensures Totals(l'.streams)(i) == Totals(l.streams)(i) + At(p.shares)(i)
    {
      FulfillStream(l, k, delivered, i);
    }
    SumSplit(n, Totals(l.streams), At(p.shares), Totals(l'.streams));
    SumTail(|p.shares|, n, At(p.shares));
    CheckedAddSaturates(l.totalSent, p.amount);
    PacketsStayOk(l, k, Fulfilled(delivered));
  }

  lemma PacketsStayOk(l: Ledger, k: nat, status: Status)
    requires (forall p :: p in l.packets ==> PacketOk(p, |l.streams|)) && k < |l.packets|
    ensures forall p :: p in l.packets[k := l.packets[k].(status := status)] ==> PacketOk(p, |l.streams|)
  {
    var p' := l.packets[k].(status := status);
    assert l.packets[k] in l.packets;
    assert PacketOk(p', |l.streams|);
    assert forall p :: p in l.packets[k := p'] ==> p == p' || p in l.packets;
  }

  /** A rejection cancels the packet's hold on every registered stream and touches nothing else. */
  lemma RejectStream(l: Ledger, k: nat, i: nat)
    requires StreamsOk(l) && IsPending(l, k) && i < |l.streams|
    ensures var l', s := Reject(l, k), l.streams[i];
            && l'.streams[i].money.holds == (if s.registered then s.money.holds - {k} else s.money.holds)
            && l'.streams[i].money.held == s.money.held - (if s.registered then ShareAt(l.packets[k], i) else 0)
            && l'.streams[i].money.totalSent == s.money.totalSent
            && Balanced(l'.streams[i].money, |l'.packets|, l'.peaks[i])
            && HoldsMatch(l', i)
  {
    var l', p := Reject(l, k), l.packets[k];
    assert HoldsMatch(l, i);
    CancelKeepsBalance(l.streams[i].money, |l.packets|, l.peaks[i], k);
    SumHoldsRemove(l.streams[i].money.holds, |l.packets|, k);
    assert k !in l.streams[i].money.holds ==> l.streams[i].money.holds - {k} == l.streams[i].money.holds;
    SettleKeepsMatch(l, l', k, i, Rejected);
  }

  lemma RejectKeepsConsistent(l: Ledger, k: nat)
    requires Consistent(l) && IsPending(l, k)
    ensures Consistent(Reject(l, k))
  {
    var l', n := Reject(l, k), |l.streams|;
    forall i: nat | i < n
      ensures Balanced(l'.streams[i].money, |l'.packets|, l'.peaks[i]) && HoldsMatch(l', i)
      ensures Totals(l'.streams)(i) == Totals(l.streams)(i)
    {
      RejectStream(l, k, i);
    }
    SumSame(n, Totals(l.streams), Totals(l'.streams));
    PacketsStayOk(l, k, Rejected);
  }

  lemma ChangeKeepsConsistent(l: Ledger, i: nat, limit: u64)
    requires Consistent(l) && i < |l.streams| && SetSendMax(l.streams[i].money, limit).Some?
    requires SafeLimit(l.streams[i].money, limit)
    ensures Consistent(Step(l, ChangeSendMax(i, limit)))
  {
    var s := l.streams[i].(money := SetSendMax(l.streams[i].money, limit).value);
    SetSendMaxKeepsBalance(l.streams[i].money, |l.packets|, l.peaks[i], limit);
    UpdateKeepsConsistent(l, i, s, if limit > l.peaks[i] then limit else l.peaks[i]);
  }

  lemma StepKeepsConsistent(l: Ledger, e: Event)
    requires Consistent(l) && SafeChange(l, e)
    ensures Consistent(Step(l, e))
  {
    match e {
      case OpenStream => OpenKeepsConsistent(l);
      case LoadPacket(limit, rate) => LoadKeepsConsistent(l, limit, rate);
      case FulfillPacket(k, delivered) => if IsPending(l, k) { FulfillKeepsConsistent(l, k, delivered); }
      case RejectPacket(k) => if IsPending(l, k) { RejectKeepsConsistent(l, k); }
      case ChangeSendMax(i, limit) =>
        if i < |l.streams| && SetSendMax(l.streams[i].money, limit).Some? { ChangeKeepsConsistent(l, i, limit); }
      case RemoteLimits(i, receiveMax, received) =>
        if i < |l.streams| {
          LimitsKeepConsistent(l, i, l.streams[i].(remoteReceiveMax := receiveMax, remoteReceived := received));
        }
      case CloseStream(i) =>
        if i < |l.streams| {
          LimitsKeepConsistent(l, i, l.streams[i].(money := l.streams[i].money.(closed := true)));
        }
      case RemoveStream(i) =>
        if i < |l.streams| {
          LimitsKeepConsistent(l, i, l.streams[i].(registered := false, sentEnd := true));
        }
    }
  }

  /** A stream changed and its limit stayed. */
  lemma LimitsKeepConsistent(l: Ledger, i: nat, s: Stream)
    requires Consistent(l) && i < |l.streams| && (s.registered ==> l.streams[i].registered)
    requires s.money == l.streams[i].money.(closed := s.money.closed)
    ensures Consistent(l.(streams := l.streams[i := s]))
  {
    UpdateKeepsConsistent(l, i, s, l.peaks[i]);
    assert l.peaks[i := l.peaks[i]] == l.peaks;
  }

  /**
   * Every run: a stream's held amount is the sum of its open holds, holds equal the money-frame shares of
   * packets in flight, shares add up to the packet amount within the packet limit, sent plus held never exceeds
   * the largest limit ever set, and until it is destroyed the connection's total is the sum of its streams' totals.
   */
  lemma {:induction false} EveryRunIsConsistent(es: seq<Event>)
    requires SafeRun(es)
    ensures Consistent(Exec(es))
  {
    if es != [] {
      EveryRunIsConsistent(es[..|es| - 1]);
      StepKeepsConsistent(Exec(es[..|es| - 1]), es[|es| - 1]);
    }
  }

  // ---- the connection's counters ----

  function DeliveredBy(packets: seq<Packet>): nat -> nat {
    (k: nat) => if k < |packets| && packets[k].status.Fulfilled? then packets[k].status.delivered else 0
  }

  function SentBy(packets: seq<Packet>): nat -> nat {
    (k: nat) => if k < |packets| && packets[k].status.Fulfilled? then packets[k].amount else 0
  }

  /** Until the connection is destroyed, its counters are the sums over the fulfilled packets. */
  ghost predicate Counted(l: Ledger) {
    !l.destroyed ==>
      && l.totalSent == Sum(|l.packets|, SentBy(l.packets))
      && l.totalDelivered == Sum(|l.packets|, DeliveredBy(l.packets))
  }

  lemma {:induction false} SumBump(n: nat, f: nat -> nat, g: nat -> nat, k: nat, d: nat)
    requires k < n && g(k) == f(k) + d && forall i: nat :: i < n && i != k ==> g(i) == f(i)
    ensures Sum(n, g) == Sum(n, f) + d
  {
    if k == n - 1 { SumSame(n - 1, f, g); } else { SumBump(n - 1, f, g, k, d); }
  }

  lemma SettleCounts(l: Ledger, k: nat, status: Status)
    requires IsPending(l, k) && !status.Outstanding?
    ensures var packets := l.packets[k := l.packets[k].(status := status)];
            var n := |l.packets|;
            && Sum(n, SentBy(packets))
               == Sum(n, SentBy(l.packets)) + (if status.Fulfilled? then l.packets[k].amount else 0)
            && Sum(n, DeliveredBy(packets))
               == Sum(n, DeliveredBy(l.packets)) + (if status.Fulfilled? then status.delivered else 0)
  {
    var n, packets := |l.packets|, l.packets[k := l.packets[k].(status := status)];
    SumBump(n, SentBy(l.packets), SentBy(packets), k, if status.Fulfilled? then l.packets[k].amount else 0);
    SumBump(n, DeliveredBy(l.packets), DeliveredBy(packets), k, if status.Fulfilled? then status.delivered else 0);
  }

  lemma StepKeepsCounted(l: Ledger, e: Event)
    requires Counted(l)
    ensures Counted(Step(l, e))
  {
    var n, l' := |l.packets|, Step(l, e);
    match e {
      case FulfillPacket(k, delivered) =>
        if IsPending(l, k) {
          CheckedAddSaturates(l.totalSent, l.packets[k].amount);
          CheckedAddSaturates(l.totalDelivered, delivered);
          SettleCounts(l, k, Fulfilled(delivered));
        }
      case RejectPacket(k) => if IsPending(l, k) { SettleCounts(l, k, Rejected); }
      case LoadPacket(_, _) =>
        SumSame(n, SentBy(l.packets), SentBy(l'.packets));
        SumSame(n, DeliveredBy(l.packets), DeliveredBy(l'.packets));
      case _ =>
    }
  }

  lemma {:induction false} EveryRunIsCounted(es: seq<Event>)
    ensures Counted(Exec(es))
  {
    if es != [] {
      EveryRunIsCounted(es[..|es| - 1]);
      StepKeepsCounted(Exec(es[..|es| - 1]), es[|es| - 1]);
    }
  }

  /** What overflow does: the connection is destroyed and the counter that would overflow keeps its value. */
  lemma OverflowDestroys(l: Ledger, k: nat, delivered: u64)
    requires IsPending(l, k)
    ensures var l', amount := Fulfill(l, k, delivered), l.packets[k].amount;
            var full := l.totalDelivered + delivered >= TWO64;
            && l'.totalDelivered == (if full then l.totalDelivered else l.totalDelivered + delivered)
            && l'.totalSent == (if full || l.totalSent + amount >= TWO64 then l.totalSent else l.totalSent + amount)
            && l'.destroyed == (l.destroyed || full || l.totalSent + amount >= TWO64)
  {
    CheckedAddSaturates(l.totalSent, l.packets[k].amount);
    CheckedAddSaturates(l.totalDelivered, delivered);
  }

  ghost predicate Overflows(l: Ledger) {
    Sum(|l.packets|, SentBy(l.packets)) >= TWO64 || Sum(|l.packets|, DeliveredBy(l.packets)) >= TWO64
  }

  lemma StepDestroysIff(l: Ledger, e: Event)
    requires Counted(l) && (l.destroyed <==> Overflows(l))
    ensures var l' := Step(l, e); l'.destroyed <==> Overflows(l')
  {
    var n, l' := |l.packets|, Step(l, e);
    match e {
      case FulfillPacket(k, delivered) =>
        if IsPending(l, k) {
          OverflowDestroys(l, k, delivered);
          SettleCounts(l, k, Fulfilled(delivered));
        }
      case RejectPacket(k) => if IsPending(l, k) { SettleCounts(l, k, Rejected); }
      case LoadPacket(_, _) =>
        SumSame(n, SentBy(l.packets), SentBy(l'.packets));
        SumSame(n, DeliveredBy(l.packets), DeliveredBy(l'.packets));
      case _ =>
    }
  }

  /** In every run the connection is destroyed exactly when the fulfilled packets add up to more than 64 bits. */
  lemma {:induction false} DestroyedIffOverflow(es: seq<Event>)
    ensures Exec(es).destroyed <==> Overflows(Exec(es))
  {
    if es != [] {
      DestroyedIffOverflow(es[..|es| - 1]);
      EveryRunIsCounted(es[..|es| - 1]);
      StepDestroysIff(Exec(es[..|es| - 1]), es[|es| - 1]);
    }
  }

  /** Limits below 2^63 are always safe. */
  ghost predicate Moderate(e: Event) {
    e.ChangeSendMax? ==> e.limit < TWO63
  }

  ghost predicate PeaksModerate(l: Ledger) {
    forall i: nat :: i < |l.peaks| ==> l.peaks[i] < TWO63
  }

  lemma {:induction false} ModerateRunIsSafe(es: seq<Event>)
    requires forall e :: e in es ==> Moderate(e)
    ensures SafeRun(es) && PeaksModerate(Exec(es))
  {
    if es != [] {
      var init, last := es[..|es| - 1], es[|es| - 1];
      ModerateRunIsSafe(init);
      EveryRunIsConsistent(init);
      assert last in es;
      ModerateStep(Exec(init), last);
    }
  }

  lemma ModerateStep(l: Ledger, e: Event)
    requires Consistent(l) && PeaksModerate(l) && Moderate(e)
    ensures SafeChange(l, e) && PeaksModerate(Step(l, e))
  {
  }
}
