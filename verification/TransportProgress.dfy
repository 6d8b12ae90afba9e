/** A sender that is allowed to send does send, and sends all (packages/ilp-protocol-stream/src/stream.ts:582-607). */
module TransportProgress {
  import opened Basics
  import opened OffsetSorters
  import opened Transport

  // ---- the window ----

  /** The window reaches as far as the remote ever said, whatever the order in which its limits arrive. */
  lemma {:induction false} WindowIsLargest(es: seq<Event>)
    ensures var window := Exec(es).sender.remoteMaxOffset;
            && INITIAL_WINDOW <= window
            && (forall e :: e in es && e.MaxData? ==> e.offset <= window)
            && (window == INITIAL_WINDOW || MaxData(window) in es)
  {
    if es != [] {
      var init, last := es[..|es| - 1], es[|es| - 1];
      WindowIsLargest(init);
      assert es == init + [last];
      StepMovesWindow(Exec(init), last);
    }
  }

  lemma StepMovesWindow(s: Run, e: Event)
    ensures var before, after := s.sender.remoteMaxOffset, Step(s, e).sender.remoteMaxOffset;
            if e.MaxData? && e.offset > before then after == e.offset else after == before
  {
  }

  // ---- what is left to send ----

  function Bytes(cs: seq<Chunk>): nat {
    if cs == [] then 0 else |cs[0].data| + Bytes(cs[1..])
  }

  function AtMost(x: nat, y: nat): nat {
    if x <= y then x else y
  }

  /** New bytes that the window admits. */
  function Admitted(s: Sender): nat
    requires s.outgoingOffset <= s.remoteMaxOffset
  {
    AtMost(|s.queued|, s.remoteMaxOffset - s.outgoingOffset)
  }

  /** Bytes to be sent again, and new ones that may be sent. */
  function Sendable(s: Sender): nat
    requires s.outgoingOffset <= s.remoteMaxOffset
  {
    Bytes(s.toRetry) + Admitted(s)
  }

  /** Each frame is as large as it may be: retries come first, one chunk at a time, and then new bytes. */
  lemma FramesAreFull(s: Sender, size: nat)
    requires s.outgoingOffset <= s.remoteMaxOffset
    ensures var (s', frame) := Available(s, size);
            var sent := if frame.Some? then |frame.value.data| else 0;
            && s'.outgoingOffset <= s'.remoteMaxOffset
            && sent == AtMost(size, if s.toRetry != [] then |s.toRetry[0].data| else Admitted(s))
            && Sendable(s') + sent == Sendable(s)
            && (frame.Some? ==> frame.value.offset == if s.toRetry != [] then s.toRetry[0].offset else s.outgoingOffset)
  {
    if s.toRetry != [] && |s.toRetry[0].data| > size {
      var rest := [Chunk(s.toRetry[0].data[size..], s.toRetry[0].offset + size)] + s.toRetry[1..];
      assert rest[1..] == s.toRetry[1..];
    }
  }

  function SendEach(s: Run, sizes: seq<nat>): Run
    decreases sizes
  {
    if sizes == [] then s else SendEach(Step(s, Send(sizes[0])), sizes[1..])
  }

  /** A sender that sends often enough, however little each time, has sent all that the window admits. */
  lemma {:induction false} SendingDrains(s: Run, sizes: seq<nat>)
    requires SenderOk(s) && ReceiverOk(s) && (forall i :: 0 <= i < |sizes| ==> sizes[i] > 0)
    requires Sendable(s.sender) <= |sizes|
    ensures var s' := SendEach(s, sizes).sender;
            s'.toRetry == [] && (s'.queued == [] || s'.outgoingOffset == s'.remoteMaxOffset)
    decreases sizes
  {
    if sizes == [] {
      NothingSendable(s);
    } else {
      SendKeepsOk(s, sizes[0]);
      FramesAreFull(s.sender, sizes[0]);
      if Sendable(s.sender) > 0 { SomethingIsSent(s, sizes[0]); }
      SendingDrains(Step(s, Send(sizes[0])), sizes[1..]);
    }
  }

  lemma NothingSendable(s: Run)
    requires SenderOk(s) && Sendable(s.sender) == 0
    ensures s.sender.toRetry == []
    ensures s.sender.queued == [] || s.sender.outgoingOffset == s.sender.remoteMaxOffset
  {
    if s.sender.toRetry != [] { RetryHasBytes(s); }
  }

  lemma RetryHasBytes(s: Run)
    requires SenderOk(s) && s.sender.toRetry != []
    ensures |s.sender.toRetry[0].data| > 0 && Bytes(s.sender.toRetry) > 0
  {
    assert Genuine(s.written, s.sender.toRetry[0]);
  }

  lemma SomethingIsSent(s: Run, size: nat)
    requires SenderOk(s) && size > 0 && Sendable(s.sender) > 0
    ensures Sendable(s.sender) > Sendable(Available(s.sender, size).0)
  {
    FramesAreFull(s.sender, size);
    if s.sender.toRetry != [] { RetryHasBytes(s); }
  }

  // ---- what can be read ----

  /** The contiguous length is just what reading on would yield. */
  lemma {:induction false} ContiguousIsReadable(r: Receiver)
    ensures Drain(r).readOffset == r.readOffset + Contiguous(r.entries, r.readOffset)
    decreases |r.entries|
  {
    if Readable(r.entries, r.readOffset) { ContiguousIsReadable(Read(r)); }
  }
}
