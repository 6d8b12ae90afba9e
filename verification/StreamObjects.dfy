/**
 * The stream objects and the loops of the connection over them
 * (packages/ilp-protocol-stream/src/stream.ts:392-454, packages/ilp-protocol-stream/src/connection.ts:1283-1347).
 */
module StreamObjects {
  import opened Basics
  import opened Long64
  import opened Rational64
  import opened MoneyStream
  import opened SendLedger

  class DataAndMoneyStream {
    var totalSent: u64
    var sendMax: u64
    var outgoingHeldAmount: u64
    var holds: map<nat, u64>
    var closed: bool
    var registered: bool
    var sentEnd: bool
    var remoteReceiveMax: u64
    var remoteReceived: u64

    function View(): Stream
      reads this
    {
      Stream(Money(totalSent, sendMax, outgoingHeldAmount, holds, closed),
             registered, sentEnd, remoteReceiveMax, remoteReceived)
    }

    constructor ()
      ensures View() == Stream(NewMoney(), true, false, MAX, 0)
    {
      totalSent, sendMax, outgoingHeldAmount, holds, closed := 0, 0, 0, map[], false;
      registered, sentEnd, remoteReceiveMax, remoteReceived := true, false, MAX, 0;
    }

    method SetSendLimit(limit: u64) returns (ok: bool)
      modifies this
      ensures var changed := SetSendMax(old(View()).money, limit);
              && ok == changed.Some?
              && View() == if ok then old(View()).(money := changed.value) else old(View())
    {
      if closed || totalSent > limit {
        return false;
      }
      sendMax := limit;
      return true;
    }

    method GetAmountAvailableToSend() returns (amount: u64)
      ensures amount == AvailableToSend(View().money)
    {
      if closed {
        return 0;
      }
      var unsent := CheckedSubtract(sendMax, totalSent).value;
      return CheckedSubtract(unsent, outgoingHeldAmount).value;
    }

    method HoldOutgoing(holdId: nat, maxAmount: Option<u64>) returns (amountToHold: u64)
      modifies this
      ensures var (money, amount) := Hold(old(View()).money, holdId, maxAmount);
              View() == old(View()).(money := money) && amountToHold == amount
    {
      var available := GetAmountAvailableToSend();
      amountToHold := if maxAmount.Some? then MinLong(available, maxAmount.value) else available;
      if amountToHold > 0 {
        outgoingHeldAmount := Wrap(outgoingHeldAmount + amountToHold);
        holds := holds[holdId := amountToHold];
      }
    }

    method ExecuteHold(holdId: nat)
      modifies this
      ensures View() == old(View()).(money := Execute(old(View()).money, holdId))
    {
      if holdId !in holds {
        return;
      }
      var amount := holds[holdId];
      outgoingHeldAmount := Wrap(outgoingHeldAmount - amount);
      totalSent := Wrap(totalSent + amount);
      holds := holds - {holdId};
    }

    method CancelHold(holdId: nat)
      modifies this
      ensures View() == old(View()).(money := Cancel(old(View()).money, holdId))
    {
      if holdId !in holds {
        return;
      }
      outgoingHeldAmount := Wrap(outgoingHeldAmount - holds[holdId]);
      holds := holds - {holdId};
    }
  }

  ghost predicate Distinct(streams: seq<DataAndMoneyStream>) {
    forall i, j :: 0 <= i < j < |streams| ==> streams[i] != streams[j]
  }

  function Zeros(n: nat): seq<u64> {
    seq(n, _ => 0)
  }

  lemma {:induction false} SplitNothing(wants: seq<u64>)
    ensures Split(wants, 0) == Zeros(|wants|)
    decreases wants
  {
    if wants != [] {
      SplitNothing(wants[1..]);
      assert Split(wants, 0) == [0] + Split(wants[1..], 0);
    }
  }

  /** The loop has served the first `i` streams and has `left` to give to the rest. */
  ghost predicate Served(wants: seq<u64>, limit: u64, shares: seq<u64>, left: u64) {
    && |shares| <= |wants|
    && Split(wants, limit) == shares + Split(wants[|shares|..], left)
    && SumShares(shares) + left == limit
  }

  lemma ServeStart(wants: seq<u64>, limit: u64)
    ensures Served(wants, limit, [], limit)
  {
    assert wants[0..] == wants && [] + Split(wants, limit) == Split(wants, limit);
  }

  lemma ServeNext(wants: seq<u64>, limit: u64, shares: seq<u64>, left: u64, share: u64)
    requires Served(wants, limit, shares, left) && |shares| < |wants|
    requires share == MinLong(wants[|shares|], left)
    ensures Served(wants, limit, shares + [share], left - share)
    ensures Wrap(SumShares(shares) + share) == SumShares(shares + [share])
  {
    var i := |shares|;
    assert wants[i..][1..] == wants[i + 1..];
    assert Split(wants[i..], left) == [share] + Split(wants[i + 1..], left - share);
    var rest := Split(wants[i + 1..], left - share);
    assert shares + ([share] + rest) == (shares + [share]) + rest;
    SumSharesSnoc(shares, share);
  }

  lemma ServeDone(wants: seq<u64>, limit: u64, shares: seq<u64>, left: u64)
    requires Served(wants, limit, shares, left) && (left == 0 || |shares| == |wants|)
    ensures Split(wants, limit) == shares + Zeros(|wants| - |shares|)
    ensures SumShares(Split(wants, limit)) == SumShares(shares)
  {
    var rest := wants[|shares|..];
    if left == 0 {
      SplitNothing(rest);
    }
    assert |shares| == |wants| ==> Zeros(0) == Split(rest, left) == [];
    SumSharesZeros(shares, |wants| - |shares|);
  }

  /** One round of the allocation loop for one stream: hold its share and return it. */
  method ReserveFrom(stream: DataAndMoneyStream, rate: PositiveRational, left: u64, packet: nat)
    returns (amount: u64)
    modifies stream
    ensures amount == MinLong(WantOf(old(stream.View()), rate), left)
    ensures stream.View() == Reserve(old(stream.View()), amount, packet)
  {
    if !stream.registered || stream.sentEnd {
      return 0;
    }
    var available := stream.GetAmountAvailableToSend();
    amount := MinLong(available, left);
    var maxDestination := CheckedSubtract(stream.remoteReceiveMax, stream.remoteReceived).value;
    var maxSource := MultiplyByLongCeil(Rational64.Reciprocal(rate), maxDestination);
    if maxSource < amount {
      amount := maxSource;
    }
    if amount > 0 {
      var held := stream.HoldOutgoing(packet, Some(amount));
    }
  }

  /** The streams after the loop has served the first of them, as seen from their views before it. */
  ghost predicate Reserved(streams: seq<DataAndMoneyStream>, views: seq<Stream>, served: seq<u64>, packet: nat)
    reads streams
  {
    && |views| == |streams| && |served| <= |streams|
    && (forall i: nat :: i < |served| ==> streams[i].View() == Reserve(views[i], served[i], packet))
    && (forall i: nat :: |served| <= i < |streams| ==> streams[i].View() == views[i])
  }

  /** One round of the loop, for the next stream. */
  method ServeOne(streams: seq<DataAndMoneyStream>, ghost views: seq<Stream>, rate: PositiveRational,
                  ghost limit: u64, left: u64, packet: nat, served: seq<u64>)
    returns (share: u64)
    requires Distinct(streams) && Reserved(streams, views, served, packet) && |served| < |streams|
    requires Served(Wants(views, rate), limit, served, left)
    modifies streams
    ensures share <= left
    ensures Reserved(streams, views, served + [share], packet)
    ensures Served(Wants(views, rate), limit, served + [share], left - share)
    ensures Wrap(SumShares(served) + share) == SumShares(served + [share])
  {
    share := ReserveFrom(streams[|served|], rate, left, packet);
    ServeNext(Wants(views, rate), limit, served, left, share);
  }

  /** The allocation loop: in stream order, until the limit is used up. */
  method ServeStreams(streams: seq<DataAndMoneyStream>, ghost views: seq<Stream>, rate: PositiveRational,
                      limit: u64, packet: nat)
    returns (served: seq<u64>, amountToSend: u64)
    requires Distinct(streams) && Reserved(streams, views, [], packet)
    modifies streams
    ensures Reserved(streams, views, served, packet)
    ensures amountToSend == SumShares(served) && amountToSend <= limit
    ensures Served(Wants(views, rate), limit, served, limit - amountToSend)
    ensures amountToSend == limit || |served| == |streams|
  {
    ghost var wants := Wants(views, rate);
    var left := limit;
    served, amountToSend := [], 0;
    ServeStart(wants, limit);
    while |served| < |streams|
      invariant Reserved(streams, views, served, packet)
      invariant Served(wants, limit, served, left) && amountToSend == SumShares(served)
      decreases |streams| - |served|
    {
      var share := ServeOne(streams, views, rate, limit, left, packet, served);
      amountToSend := Wrap(amountToSend + share);
      left := left - share;
      served := served + [share];
      if left == 0 {
        break;
      }
    }
  }

  /** The money part of loading a packet: every stream holds its share, and the shares make up the amount. */
  method LoadMoney(streams: seq<DataAndMoneyStream>, ghost views: seq<Stream>, rate: PositiveRational,
                   limit: u64, packet: nat)
    returns (shares: seq<u64>, amountToSend: u64)
    requires Distinct(streams) && Reserved(streams, views, [], packet)
    modifies streams
    ensures shares == Shares(views, limit, rate)
    ensures amountToSend == SumShares(shares)
    ensures amountToSend <= limit
    ensures Reserved(streams, views, shares, packet)
  {
    shares, amountToSend := ServeStreams(streams, views, rate, limit, packet);
    ServeDone(Wants(views, rate), limit, shares, limit - amountToSend);
    shares := shares + Zeros(|streams| - |shares|);
  }

  lemma SumSharesSnoc(shares: seq<u64>, share: u64)
    ensures SumShares(shares + [share]) == SumShares(shares) + share
  {
    SumSame(|shares|, At(shares), At(shares + [share]));
  }

  lemma SumSharesZeros(shares: seq<u64>, n: nat)
    ensures SumShares(shares + Zeros(n)) == SumShares(shares)
  {
    var f := At(shares + Zeros(n));
    SumTail(|shares|, |shares| + n, f);
    SumSame(|shares|, f, At(shares));
  }

  /** After a fulfilment: execute the hold of every stream the packet was sent from. */
  method ExecuteHolds(streams: seq<DataAndMoneyStream>, ghost views: seq<Stream>, shares: seq<u64>, packet: nat)
    requires Distinct(streams) && |views| == |streams| && |shares| <= |streams|
    requires forall i: nat :: i < |streams| ==> streams[i].View() == views[i]
    modifies streams
    ensures forall i: nat :: i < |streams| ==>
              streams[i].View() == Executed(views[i], At(shares)(i), packet)
  {
    for i := 0 to |shares|
      invariant forall j: nat :: j < i ==> streams[j].View() == Executed(views[j], At(shares)(j), packet)
      invariant forall j: nat :: i <= j < |streams| ==> streams[j].View() == views[j]
    {
      if shares[i] > 0 {
        streams[i].ExecuteHold(packet);
      }
    }
  }

  /** After a rejection: cancel the hold of every money frame whose stream is still registered. */
  method UndoRejectedPacket(streams: seq<DataAndMoneyStream>, ghost views: seq<Stream>, shares: seq<u64>, packet: nat)
    requires Distinct(streams) && |views| == |streams| && |shares| <= |streams|
    requires forall i: nat :: i < |streams| ==> streams[i].View() == views[i]
    modifies streams
    ensures forall i: nat :: i < |streams| ==>
              streams[i].View() == RolledBack(views[i], At(shares)(i), packet)
  {
    for i := 0 to |shares|
      invariant forall j: nat :: j < i ==> streams[j].View() == RolledBack(views[j], At(shares)(j), packet)
      invariant forall j: nat :: i <= j < |streams| ==> streams[j].View() == views[j]
    {
      if shares[i] > 0 && streams[i].registered {
        streams[i].CancelHold(packet);
      }
    }
  }
}
