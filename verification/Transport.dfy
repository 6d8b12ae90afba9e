/**
 * Bytes of one stream from writer to reader over frames that may be rejected, resent, reordered and
 * duplicated (packages/ilp-protocol-stream/src/stream.ts:525-660,
 * packages/ilp-protocol-stream/src/connection.ts:985-1031, 1365-1377, 1941-1944).
 */
module Transport {
  import opened Basics
  import opened DataQueues
  import opened OffsetSorters

  /** The sending side of a stream; `queued` is the content of its queue. */
  datatype Sender = Sender(queued: seq<byte>, toRetry: seq<Chunk>, outgoingOffset: nat, remoteMaxOffset: nat)

  datatype Receiver = Receiver(entries: seq<Chunk>, readOffset: nat)

  /** Up to `size` bytes to send: first what must be resent, then new data within the remote's window. */
  function Available(s: Sender, size: nat): (Sender, Option<Chunk>) {
    if s.toRetry != [] then
      var c := s.toRetry[0];
      if |c.data| > size
      then (s.(toRetry := [Chunk(c.data[size..], c.offset + size)] + s.toRetry[1..]),
            Some(Chunk(c.data[..size], c.offset)))
      else (s.(toRetry := s.toRetry[1..]), Some(c))
    else if s.queued == [] then (s, None)
    else
      var window := s.remoteMaxOffset - s.outgoingOffset;
      var n := Clamp(if size <= window then size else window, |s.queued|);
      (s.(queued := s.queued[n..], outgoingOffset := s.outgoingOffset + n),
       Some(Chunk(s.queued[..n], s.outgoingOffset)))
  }

  function Read(r: Receiver): Receiver {
    if Readable(r.entries, r.readOffset) then Receiver(r.entries[1..], End(r.entries[0])) else r
  }

  /** Read until nothing more can be read. */
  function Drain(r: Receiver): Receiver
    decreases |r.entries|
  {
    if Readable(r.entries, r.readOffset) then Drain(Read(r)) else r
  }

  /**
   * `sent` holds every frame ever put on the wire, `ingested` every frame the receiver ever pushed,
   * and `output` what the reader got.
   */
  datatype Run = Run(written: seq<byte>, sender: Sender, sent: seq<Chunk>, inFlight: seq<Chunk>, acked: seq<Chunk>,
                     receiver: Receiver, ingested: seq<Chunk>, output: seq<byte>)

  datatype Event =
    | Write(data: seq<byte>)
    | Send(size: nat)
    | Fulfil(frame: nat)     // the packet of an in-flight frame was fulfilled
    | Reject(frame: nat)     // ... or rejected, so the frame is queued again
    | MaxData(offset: nat)   // the remote raises its window
    | Deliver(frame: nat)    // any frame ever sent arrives, possibly again
    | ReadSome

  const INITIAL_WINDOW: nat := 16384

  function Start(): Run {
    Run([], Sender([], [], 0, INITIAL_WINDOW), [], [], [], Receiver([], 0), [], [])
  }

  function Without(cs: seq<Chunk>, i: nat): seq<Chunk>
    requires i < |cs|
  {
    cs[..i] + cs[i + 1..]
  }

  function Transmit(s: Run, size: nat): Run {
    var (sender, frame) := Available(s.sender, size);
    if frame.None? || frame.value.data == [] then s.(sender := sender)
    else s.(sender := sender, sent := s.sent + [frame.value], inFlight := s.inFlight + [frame.value])
  }

  function Step(s: Run, e: Event): Run {
    match e
    case Write(data) => s.(written := s.written + data, sender := s.sender.(queued := s.sender.queued + data))
    case Send(size) => Transmit(s, size)
    case Fulfil(i) =>
      if i < |s.inFlight|
      then s.(inFlight := Without(s.inFlight, i), acked := s.acked + [s.inFlight[i]])
      else s
    case Reject(i) =>
      if i < |s.inFlight|
      then s.(inFlight := Without(s.inFlight, i),
              sender := s.sender.(toRetry := s.sender.toRetry + [s.inFlight[i]]))
      else s
    case MaxData(offset) =>
      if offset > s.sender.remoteMaxOffset then s.(sender := s.sender.(remoteMaxOffset := offset)) else s
    case Deliver(k) =>
      if k < |s.sent|
      then s.(receiver := s.receiver.(entries := Insert(s.receiver.entries, s.sent[k])),
              ingested := s.ingested + [s.sent[k]])
      else s
    case ReadSome =>
      if Readable(s.receiver.entries, s.receiver.readOffset)
      then s.(receiver := Read(s.receiver), output := s.output + s.receiver.entries[0].data)
      else s
  }

  function Exec(es: seq<Event>): Run {
    if es == [] then Start() else Step(Exec(es[..|es| - 1]), es[|es| - 1])
  }

  // ---- safety: one byte sequence ----

  /** A frame carries the bytes written at its offset, and at least one. */
  ghost predicate Genuine(written: seq<byte>, c: Chunk) {
    c.data != [] && End(c) <= |written| && written[c.offset..End(c)] == c.data
  }

  ghost predicate AllGenuine(written: seq<byte>, cs: seq<Chunk>) {
    forall c :: c in cs ==> Genuine(written, c)
  }

  ghost predicate SenderOk(s: Run) {
    && s.sender.outgoingOffset <= |s.written|
    && s.sender.queued == s.written[s.sender.outgoingOffset..]
    && s.sender.outgoingOffset <= s.sender.remoteMaxOffset
    && AllGenuine(s.written, s.sent) && AllGenuine(s.written, s.inFlight) && AllGenuine(s.written, s.sender.toRetry)
  }

  ghost predicate ReceiverOk(s: Run) {
    && AllGenuine(s.written, s.receiver.entries)
    && Sorted(s.receiver.entries)
    && s.receiver.readOffset <= |s.written|
    && s.output == s.written[..s.receiver.readOffset]
  }

  lemma SplitGenuine(written: seq<byte>, c: Chunk, n: nat)
    requires Genuine(written, c) && 0 < n < |c.data|
    ensures Genuine(written, Chunk(c.data[..n], c.offset))
    ensures Genuine(written, Chunk(c.data[n..], c.offset + n))
  {
  }

  lemma WriteKeepsOk(s: Run, data: seq<byte>)
    requires SenderOk(s) && ReceiverOk(s)
    ensures SenderOk(Step(s, Write(data))) && ReceiverOk(Step(s, Write(data)))
  {
  }

  /** What is taken to be sent is genuine, and so is what remains to be resent. */
  lemma AvailableIsGenuine(s: Run, size: nat)
    requires SenderOk(s) && size > 0
    ensures var (sender, frame) := Available(s.sender, size);
            && AllGenuine(s.written, sender.toRetry)
            && sender.queued == s.written[sender.outgoingOffset..]
            && (frame.Some? && frame.value.data != [] ==> Genuine(s.written, frame.value))
  {
    if s.sender.toRetry != [] {
      var c := s.sender.toRetry[0];
      assert c in s.sender.toRetry;
      if |c.data| > size { SplitGenuine(s.written, c, size); }
    }
  }

  lemma SendKeepsOk(s: Run, size: nat)
    requires SenderOk(s) && ReceiverOk(s)
    ensures SenderOk(Step(s, Send(size))) && ReceiverOk(Step(s, Send(size)))
  {
    if size > 0 {
      AvailableIsGenuine(s, size);
    } else if s.sender.toRetry != [] {
      var c := s.sender.toRetry[0];
      assert c in s.sender.toRetry;
      assert c.data[0..] == c.data && [c] + s.sender.toRetry[1..] == s.sender.toRetry;
    }
  }

  lemma MoveKeepsOk(s: Run, e: Event)
    requires (e.Fulfil? || e.Reject? || e.MaxData?) && SenderOk(s) && ReceiverOk(s)
    ensures SenderOk(Step(s, e)) && ReceiverOk(Step(s, e))
  {
  }

  lemma DeliverKeepsOk(s: Run, k: nat)
    requires SenderOk(s) && ReceiverOk(s)
    ensures SenderOk(Step(s, Deliver(k))) && ReceiverOk(Step(s, Deliver(k)))
  {
    if k < |s.sent| {
      var c := s.sent[k];
      InsertKeepsSorted(s.receiver.entries, c);
      InsertElements(s.receiver.entries, c);
      forall x | x in Insert(s.receiver.entries, c) ensures Genuine(s.written, x) {
        assert x in multiset(Insert(s.receiver.entries, c));
        assert x == c || x in s.receiver.entries;
      }
    }
  }

  lemma ReadKeepsOk(s: Run)
    requires SenderOk(s) && ReceiverOk(s)
    ensures SenderOk(Step(s, ReadSome)) && ReceiverOk(Step(s, ReadSome))
  {
    if Readable(s.receiver.entries, s.receiver.readOffset) {
      var c := s.receiver.entries[0];
      assert c in s.receiver.entries;
      assert s.written[..c.offset] + s.written[c.offset..End(c)] == s.written[..End(c)];
    }
  }

  lemma StepKeepsOk(s: Run, e: Event)
    requires SenderOk(s) && ReceiverOk(s)
    ensures SenderOk(Step(s, e)) && ReceiverOk(Step(s, e))
  {
    match e {
      case Write(data) => WriteKeepsOk(s, data);
      case Send(size) => SendKeepsOk(s, size);
      case Deliver(k) => DeliverKeepsOk(s, k);
      case ReadSome => ReadKeepsOk(s);
      case Fulfil(_) => MoveKeepsOk(s, e);
      case Reject(_) => MoveKeepsOk(s, e);
      case MaxData(_) => MoveKeepsOk(s, e);
    }
  }

  lemma {:induction false} EveryRunIsOk(es: seq<Event>)
    ensures SenderOk(Exec(es)) && ReceiverOk(Exec(es))
  {
    if es != [] {
      EveryRunIsOk(es[..|es| - 1]);
      StepKeepsOk(Exec(es[..|es| - 1]), es[|es| - 1]);
    }
  }

  /** Whatever is rejected, resent, reordered or duplicated, the reader has read exactly the first bytes written. */
  lemma ReaderSeesOneByteSequence(es: seq<Event>)
    ensures var s := Exec(es);
            s.receiver.readOffset <= |s.written| && s.output == s.written[..s.receiver.readOffset]
  {
    EveryRunIsOk(es);
  }

  // ---- conservation: every byte is in exactly one place ----

  predicate Covers(c: Chunk, p: nat) {
    c.offset <= p < End(c)
  }

  /** How many of the chunks contain byte `p`. */
  function Cover(cs: seq<Chunk>, p: nat): nat {
    if cs == [] then 0 else (if Covers(cs[0], p) then 1 else 0) + Cover(cs[1..], p)
  }

  lemma {:induction false} CoverConcat(cs: seq<Chunk>, ds: seq<Chunk>, p: nat)
    ensures Cover(cs + ds, p) == Cover(cs, p) + Cover(ds, p)
  {
    if cs == [] {
      assert cs + ds == ds;
    } else {
      CoverConcat(cs[1..], ds, p);
      assert (cs + ds)[1..] == cs[1..] + ds;
    }
  }

  lemma CoverSnoc(cs: seq<Chunk>, c: Chunk, p: nat)
    ensures Cover(cs + [c], p) == Cover(cs, p) + (if Covers(c, p) then 1 else 0)
  {
    CoverConcat(cs, [c], p);
  }

  lemma CoverWithout(cs: seq<Chunk>, i: nat, p: nat)
    requires i < |cs|
    ensures Cover(cs, p) == Cover(Without(cs, i), p) + (if Covers(cs[i], p) then 1 else 0)
  {
    CoverConcat(cs[..i], cs[i..], p);
    CoverConcat(cs[..i], cs[i + 1..], p);
    assert cs == cs[..i] + cs[i..];
    assert cs[i..][1..] == cs[i + 1..];
  }

  lemma {:induction false} CoverInsert(entries: seq<Chunk>, c: Chunk, p: nat)
    ensures Cover(Insert(entries, c), p) == Cover(entries, p) + (if Covers(c, p) then 1 else 0)
  {
    if entries != [] {
      if entries[0].offset > c.offset {
        CoverConcat([c], entries, p);
      } else {
        CoverInsert(entries[1..], c, p);
        CoverConcat([entries[0]], Insert(entries[1..], c), p);
      }
    }
  }

  /** Each byte below the outgoing offset is in flight, acknowledged or waiting to be resent, once; no other byte is. */
  ghost predicate Conserved(s: Run, p: nat) {
    Cover(s.inFlight, p) + Cover(s.acked, p) + Cover(s.sender.toRetry, p)
    == if p < s.sender.outgoingOffset then 1 else 0
  }

  /** Each ingested byte was read or is still listed. */
  ghost predicate Accounted(s: Run, p: nat) {
    Cover(s.ingested, p) == Cover(s.receiver.entries, p) + if p < s.receiver.readOffset then 1 else 0
  }

  lemma AvailableConserves(s: Sender, size: nat, p: nat)
    requires s.outgoingOffset <= s.remoteMaxOffset
    ensures var (s', frame) := Available(s, size);
            Cover(s'.toRetry, p) + (if frame.Some? && Covers(frame.value, p) then 1 else 0)
              + (if p < s.outgoingOffset then 1 else 0)
            == Cover(s.toRetry, p) + (if p < s'.outgoingOffset then 1 else 0)
  {
  }

  lemma StepConserves(s: Run, e: Event, p: nat)
    requires SenderOk(s) && Conserved(s, p)
    ensures Conserved(Step(s, e), p)
  {
    match e {
      case Send(size) =>
        AvailableConserves(s.sender, size, p);
        var frame := Available(s.sender, size).1;
        if frame.Some? { CoverSnoc(s.inFlight, frame.value, p); }
      case Fulfil(i) =>
        if i < |s.inFlight| {
          CoverWithout(s.inFlight, i, p);
          CoverSnoc(s.acked, s.inFlight[i], p);
        }
      case Reject(i) =>
        if i < |s.inFlight| {
          CoverWithout(s.inFlight, i, p);
          CoverSnoc(s.sender.toRetry, s.inFlight[i], p);
        }
      case _ =>
    }
  }

  lemma StepAccounts(s: Run, e: Event, p: nat)
    requires Accounted(s, p)
    ensures Accounted(Step(s, e), p)
  {
    match e {
      case Deliver(k) =>
        if k < |s.sent| {
          CoverInsert(s.receiver.entries, s.sent[k], p);
          CoverSnoc(s.ingested, s.sent[k], p);
        }
      case ReadSome =>
      case _ =>
    }
  }

  lemma {:induction false} RunConserves(es: seq<Event>, p: nat)
    ensures Conserved(Exec(es), p) && Accounted(Exec(es), p)
  {
    if es != [] {
      var s := Exec(es[..|es| - 1]);
      RunConserves(es[..|es| - 1], p);
      EveryRunIsOk(es[..|es| - 1]);
      StepConserves(s, es[|es| - 1], p);
      StepAccounts(s, es[|es| - 1], p);
    }
  }

  /**
   * In every run the frames in flight, acknowledged and to be resent partition the bytes below the outgoing
   * offset, the queue holds exactly the bytes from there on, and the remote's window is respected.
   */
  lemma SenderConservesData(es: seq<Event>)
    ensures forall p: nat :: Conserved(Exec(es), p)
    ensures Exec(es).sender.outgoingOffset <= |Exec(es).written|
    ensures Exec(es).sender.queued == Exec(es).written[Exec(es).sender.outgoingOffset..]
    ensures Exec(es).sender.outgoingOffset <= Exec(es).sender.remoteMaxOffset
  {
    EveryRunIsOk(es);
    forall p: nat ensures Conserved(Exec(es), p) {
      RunConserves(es, p);
    }
  }

  // ---- when the reader gets everything ----

  ghost predicate NonEmpty(entries: seq<Chunk>) {
    forall c :: c in entries ==> c.data != []
  }

  /** The entries cover each byte from `from` up to `end` exactly once, and no other. */
  ghost predicate CoversExactly(entries: seq<Chunk>, from: nat, end: nat) {
    forall p: nat :: Cover(entries, p) == if from <= p < end then 1 else 0
  }

  lemma {:induction false} CoverHasWitness(entries: seq<Chunk>, p: nat) returns (i: nat)
    requires Cover(entries, p) > 0
    ensures i < |entries| && Covers(entries[i], p)
  {
    if Covers(entries[0], p) {
      i := 0;
    } else {
      i := CoverHasWitness(entries[1..], p);
      i := i + 1;
    }
  }

  lemma FirstIsCovered(entries: seq<Chunk>)
    requires entries != [] && NonEmpty(entries)
    ensures Cover(entries, entries[0].offset) >= 1
    ensures Cover(entries, End(entries[0]) - 1) >= 1
  {
  }

  /** With an exact cover the first entry is the next one to read. */
  lemma ExactCoverIsReadable(entries: seq<Chunk>, from: nat, end: nat)
    requires Sorted(entries) && NonEmpty(entries) && CoversExactly(entries, from, end) && from < end
    ensures Readable(entries, from) && End(entries[0]) <= end
    ensures CoversExactly(entries[1..], End(entries[0]), end)
  {
    assert Cover(entries, from) == 1;
    var i := CoverHasWitness(entries, from);
    var c := entries[0];
    FirstIsCovered(entries);
    forall p: nat ensures Cover(entries[1..], p) == if End(c) <= p < end then 1 else 0 {
      assert Cover(entries, p) == if from <= p < end then 1 else 0;
    }
  }

  lemma {:induction false} ExactCoverDrains(r: Receiver, end: nat)
    requires Sorted(r.entries) && NonEmpty(r.entries) && r.readOffset <= end
    requires CoversExactly(r.entries, r.readOffset, end)
    ensures Drain(r) == Receiver([], end)
    decreases |r.entries|
  {
    if r.readOffset < end {
      ExactCoverIsReadable(r.entries, r.readOffset, end);
      ExactCoverDrains(Read(r), end);
    } else if r.entries != [] {
      FirstIsCovered(r.entries);
      assert false;
    }
  }

  lemma {:induction false} DrainedWasExactCover(r: Receiver, end: nat, p: nat)
    requires Drain(r) == Receiver([], end)
    ensures r.readOffset <= end
    ensures Cover(r.entries, p) == if r.readOffset <= p < end then 1 else 0
    decreases |r.entries|
  {
    if r.entries != [] {
      DrainedWasExactCover(Read(r), end, p);
    }
  }

  /** Reading empties the list at `end` if and only if the entries cover exactly the bytes up to there, once each. */
  lemma DrainsIffExactCover(r: Receiver, end: nat)
    requires Sorted(r.entries) && NonEmpty(r.entries) && r.readOffset <= end
    ensures Drain(r) == Receiver([], end) <==> CoversExactly(r.entries, r.readOffset, end)
  {
    if CoversExactly(r.entries, r.readOffset, end) {
      ExactCoverDrains(r, end);
    }
    if Drain(r) == Receiver([], end) {
      forall p: nat ensures Cover(r.entries, p) == if r.readOffset <= p < end then 1 else 0 {
        DrainedWasExactCover(r, end, p);
      }
    }
  }

  /** The frames ingested were the acknowledged ones, each once: no rejected frame was, and none twice. */
  ghost predicate IngestedOnlyAcked(s: Run) {
    forall p: nat :: Cover(s.ingested, p) == Cover(s.acked, p)
  }

  /** With nothing in flight or to be resent, all that was sent is readable, if only acknowledged frames came in. */
  lemma DrainedSenderMeansAllReadable(es: seq<Event>)
    requires var s := Exec(es);
             s.inFlight == [] && s.sender.toRetry == [] && IngestedOnlyAcked(s)
    ensures var s := Exec(es);
            Drain(s.receiver) == Receiver([], s.sender.outgoingOffset)
  {
    var s := Exec(es);
    EveryRunIsOk(es);
    assert NonEmpty(s.receiver.entries) by {
      forall c | c in s.receiver.entries ensures c.data != [] { assert Genuine(s.written, c); }
    }
    forall p: nat
      ensures Cover(s.receiver.entries, p) + (if p < s.receiver.readOffset then 1 else 0)
              == if p < s.sender.outgoingOffset then 1 else 0
    {
      RunConserves(es, p);
      assert Cover(s.ingested, p) == Cover(s.acked, p);
    }
    ReadWithinSent(s);
    ExactCoverDrains(s.receiver, s.sender.outgoingOffset);
  }

  lemma ReadWithinSent(s: Run)
    requires forall p: nat ::
               Cover(s.receiver.entries, p) + (if p < s.receiver.readOffset then 1 else 0)
               == if p < s.sender.outgoingOffset then 1 else 0
    ensures s.receiver.readOffset <= s.sender.outgoingOffset
    ensures CoversExactly(s.receiver.entries, s.receiver.readOffset, s.sender.outgoingOffset)
  {
    var n := s.sender.outgoingOffset;
    assert Cover(s.receiver.entries, n) + (if n < s.receiver.readOffset then 1 else 0) == 0;
  }

  // ---- a byte that arrives again blocks the reader for good ----

  /** The first entry lies before the read offset; it is never dropped. */
  predicate Blocked(r: Receiver) {
    r.entries != [] && r.entries[0].offset < r.readOffset
  }

  lemma StepKeepsBlocked(s: Run, e: Event)
    requires Blocked(s.receiver)
    ensures Blocked(Step(s, e).receiver) && Step(s, e).output == s.output
  {
  }

  /** Nothing that happens later unblocks the reader or yields another byte. */
  lemma {:induction false} BlockedForever(es: seq<Event>, fs: seq<Event>)
    requires Blocked(Exec(es).receiver)
    ensures Blocked(Exec(es + fs).receiver) && Exec(es + fs).output == Exec(es).output
    decreases fs
  {
    if fs == [] {
      assert es + fs == es;
    } else {
      var init, last := fs[..|fs| - 1], fs[|fs| - 1];
      BlockedForever(es, init);
      assert es + fs == es + init + [last];
      ExecSnoc(es + init, last);
      StepKeepsBlocked(Exec(es + init), last);
    }
  }

  /** A byte below the read offset was ingested more than once. */
  ghost predicate ReceivedAgain(s: Run) {
    exists p: nat :: p < s.receiver.readOffset && Cover(s.ingested, p) >= 2
  }

  lemma BlockedReceivedAgain(es: seq<Event>)
    requires Blocked(Exec(es).receiver)
    ensures ReceivedAgain(Exec(es))
  {
    var s := Exec(es);
    var c := s.receiver.entries[0];
    EveryRunIsOk(es);
    assert c in s.receiver.entries && Genuine(s.written, c);
    RunConserves(es, c.offset);
    assert Cover(s.receiver.entries, c.offset) >= 1;
    assert c.offset < s.receiver.readOffset && Cover(s.ingested, c.offset) >= 2;
  }

  lemma ReceivedAgainBlocks(es: seq<Event>, p: nat)
    requires p < Exec(es).receiver.readOffset && Cover(Exec(es).ingested, p) >= 2
    ensures Blocked(Exec(es).receiver)
  {
    var r := Exec(es).receiver;
    EveryRunIsOk(es);
    RunConserves(es, p);
    var i := CoverHasWitness(r.entries, p);
    assert r.entries[0].offset <= r.entries[i].offset <= p;
  }

  /** The reader is blocked exactly when a byte it has already read was ingested again. */
  lemma BlockedIffReceivedAgain(es: seq<Event>)
    ensures Blocked(Exec(es).receiver) <==> ReceivedAgain(Exec(es))
  {
    var s := Exec(es);
    if Blocked(s.receiver) { BlockedReceivedAgain(es); }
    if p: nat :| p < s.receiver.readOffset && Cover(s.ingested, p) >= 2 { ReceivedAgainBlocks(es, p); }
  }

  /** Such a run: a frame is ingested and read, its packet is rejected all the same, and the resent frame arrives. */
  function BlockingEvents(): seq<Event> {
    [Write([1]), Send(1), Deliver(0), ReadSome, Reject(0), Send(1), Deliver(1)]
  }

  lemma ExecSnoc(es: seq<Event>, e: Event)
    ensures Exec(es + [e]) == Step(Exec(es), e)
  {
  }

  const FIRST_BYTE: Chunk := Chunk([1], 0)

  lemma ReadAndStillInFlight() returns (s: Run)
    ensures s == Exec(BlockingEvents()[..4])
    ensures s.receiver == Receiver([], 1) && s.inFlight == [FIRST_BYTE] && s.sent == [FIRST_BYTE]
    ensures s.sender.toRetry == []
  {
    var es, c := BlockingEvents(), FIRST_BYTE;
    ExecSnoc([], es[0]);
    assert [] + [es[0]] == es[..1];
    var s1 := Exec(es[..1]);
    assert s1 == Start().(written := [1], sender := Sender([1], [], 0, INITIAL_WINDOW));
    ExecSnoc(es[..1], es[1]);
    assert es[..1] + [es[1]] == es[..2];
    var one: seq<byte> := [1];
    assert one[1..] == [] && one[..1] == one;
    assert Available(s1.sender, 1) == (Sender([], [], 1, INITIAL_WINDOW), Some(c));
    var s2 := Exec(es[..2]);
    assert s2 == s1.(sender := Sender([], [], 1, INITIAL_WINDOW), sent := [c], inFlight := [c]);
    ExecSnoc(es[..2], es[2]);
    assert es[..2] + [es[2]] == es[..3];
    assert Exec(es[..3]).receiver == Receiver([c], 0);
    ExecSnoc(es[..3], es[3]);
    assert es[..3] + [es[3]] == es[..4];
    s := Exec(es[..4]);
  }

  lemma RejectedAfterIngestionBlocks()
    ensures Blocked(Exec(BlockingEvents()).receiver)
  {
    var es, c := BlockingEvents(), FIRST_BYTE;
    var s4 := ReadAndStillInFlight();
    ExecSnoc(es[..4], es[4]);
    assert es[..4] + [es[4]] == es[..5];
    assert Exec(es[..5]).sender.toRetry == [c];
    ExecSnoc(es[..5], es[5]);
    assert es[..5] + [es[5]] == es[..6];
    assert Exec(es[..6]).sent == [c, c];
    ExecSnoc(es[..6], es[6]);
    assert es[..6] + [es[6]] == es;
  }
}
