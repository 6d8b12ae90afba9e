/** The data side of a stream object (packages/ilp-protocol-stream/src/stream.ts:525-660). */
module StreamData {
  import opened Basics
  import opened DataQueues
  import opened OffsetSorters
  import opened Transport

  class OutgoingData {
    const queue: DataQueue
    var toRetry: seq<Chunk>
    var outgoingOffset: nat
    var remoteMaxOffset: nat

    ghost predicate Valid()
      reads this, queue, queue.nodes
    {
      queue.Valid()
    }

    ghost function View(): Sender
      requires Valid()
      reads this, queue, queue.nodes
    {
      Sender(Flatten(queue.chunks), toRetry, outgoingOffset, remoteMaxOffset)
    }

    constructor ()
      ensures Valid() && View() == Transport.Start().sender
    {
      queue := new DataQueue();
      toRetry, outgoingOffset, remoteMaxOffset := [], 0, INITIAL_WINDOW;
    }

    method WriteData(data: seq<byte>)
      requires Valid()
      modifies queue, queue.nodes
      ensures Valid() && View() == old(View()).(queued := old(View()).queued + data)
    {
      FlattenSnoc(queue.chunks, data);
      queue.Push(data);
    }

    /** Takes what to send next; the queue may hold entries without bytes, which yield an empty chunk. */
    method GetAvailableDataToSend(size: nat) returns (chunk: Option<Chunk>)
      requires Valid()
      modifies this, queue, queue.nodes
      ensures Valid() && View() == Available(old(View()), size).0
      ensures chunk == Available(old(View()), size).1
              || (old(View()).toRetry == [] && old(View()).queued == [] && chunk == Some(Chunk([], outgoingOffset)))
      ensures chunk.None? <==> old(toRetry) == [] && old(queue.chunks) == []
    {
      if |toRetry| > 0 {
        var retry := TakeRetry(size);
        return Some(retry);
      }
      chunk := TakeNew(size);
    }

    /** The first chunk to send again, or its first bytes. */
    method TakeRetry(size: nat) returns (chunk: Chunk)
      requires Valid() && toRetry != []
      modifies this`toRetry
      ensures Valid() && (View(), Some(chunk)) == Available(old(View()), size)
    {
      chunk := toRetry[0];
      if |chunk.data| > size {
        toRetry := [Chunk(chunk.data[size..], chunk.offset + size)] + toRetry[1..];
        chunk := Chunk(chunk.data[..size], chunk.offset);
      } else {
        toRetry := toRetry[1..];
      }
    }

    /** New bytes, as far as the window admits them. */
    method TakeNew(size: nat) returns (chunk: Option<Chunk>)
      requires Valid() && toRetry == []
      modifies this`outgoingOffset, queue, queue.nodes
      ensures Valid() && View() == Available(old(View()), size).0
      ensures chunk == Available(old(View()), size).1
              || (old(View()).queued == [] && chunk == Some(Chunk([], outgoingOffset)))
      ensures chunk.None? <==> old(queue.chunks) == []
    {
      var window := remoteMaxOffset - outgoingOffset;
      var maxBytes := if size <= window then size else window;
      var offset := outgoingOffset;
      ghost var all := Flatten(queue.chunks);
      var data := queue.Read(maxBytes);
      if data.None? {
        return None;
      }
      assert data.value == all[..|data.value|] && Flatten(queue.chunks) == all[|data.value|..];
      outgoingOffset := outgoingOffset + |data.value|;
      return Some(Chunk(data.value, offset));
    }

    method ResendOutgoingData(data: seq<byte>, offset: nat)
      requires Valid()
      modifies this`toRetry
      ensures Valid() && View() == old(View()).(toRetry := old(View()).toRetry + [Chunk(data, offset)])
    {
      toRetry := toRetry + [Chunk(data, offset)];
    }

    /** The remote states its window; it only ever widens. */
    method WidenWindow(newOffset: nat)
      requires Valid()
      modifies this`remoteMaxOffset
      ensures Valid()
      ensures View() == old(View()).(remoteMaxOffset := if newOffset > old(remoteMaxOffset) then newOffset
                                                        else old(remoteMaxOffset))
    {
      if newOffset > remoteMaxOffset {
        remoteMaxOffset := newOffset;
      }
    }

    /** The offset the stream wants to reach, when the remote's window stops it before. */
    method IsDataBlocked() returns (wanted: Option<nat>)
      requires Valid()
      ensures wanted == if remoteMaxOffset < outgoingOffset + |View().queued|
                        then Some(outgoingOffset + |View().queued|) else None
    {
      var queued := queue.ByteLength();
      if remoteMaxOffset < outgoingOffset + queued {
        return Some(outgoingOffset + queued);
      }
      return None;
    }
  }
}
