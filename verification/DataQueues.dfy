/** The queue of outgoing bytes (packages/ilp-protocol-stream/src/util/data-queue.ts). */
module DataQueues {
  import opened Basics

  function Flatten(chunks: seq<seq<byte>>): seq<byte> {
    if chunks == [] then [] else chunks[0] + Flatten(chunks[1..])
  }

  lemma {:induction false} FlattenSnoc(chunks: seq<seq<byte>>, chunk: seq<byte>)
    ensures Flatten(chunks + [chunk]) == Flatten(chunks) + chunk
  {
    if chunks == [] {
      assert [] + [chunk] == [chunk];
    } else {
      FlattenSnoc(chunks[1..], chunk);
      assert (chunks + [chunk])[1..] == chunks[1..] + [chunk];
      assert chunks[0] + (Flatten(chunks[1..]) + chunk) == (chunks[0] + Flatten(chunks[1..])) + chunk;
    }
  }

  class DataQueueEntry {
    var data: seq<byte>
    var next: DataQueueEntry?

    constructor (data: seq<byte>)
      ensures this.data == data && next == null
    {
      this.data, next := data, null;
    }
  }

  class DataQueue {
    var head: DataQueueEntry?
    var tail: DataQueueEntry?
    var length: nat

    /** The linked entries in order, and the bytes they hold. */
    ghost var nodes: seq<DataQueueEntry>
    ghost var chunks: seq<seq<byte>>

    ghost predicate Valid()
      reads this, nodes
    {
      && length == |nodes| == |chunks|
      && (length == 0 ==> head == null && tail == null)
      && (length > 0 ==> head == nodes[0] && tail == nodes[length - 1])
      && (forall i :: 0 <= i < length ==> nodes[i].data == chunks[i])
      && (forall i {:trigger nodes[i].next} ::
            0 <= i < length ==> nodes[i].next == if i + 1 < length then nodes[i + 1] else null)
      && (forall i, j :: 0 <= i < j < length ==> nodes[i] != nodes[j])
    }

    constructor ()
      ensures Valid() && chunks == [] && fresh(nodes)
    {
      head, tail, length, nodes, chunks := null, null, 0, [], [];
    }

    method Push(data: seq<byte>)
      requires Valid()
      modifies this, nodes
      ensures Valid() && fresh(set n | n in nodes && n !in old(nodes))
      ensures chunks == old(chunks) + [data]
    {
      var entry := new DataQueueEntry(data);
      if tail != null {
        tail.next := entry;
      } else {
        head := entry;
      }
      tail := entry;
      length := length + 1;
      nodes := nodes + [entry];
      chunks := chunks + [data];
    }

    /** Takes the first entry, if there is one. */
    method Shift() returns (data: Option<seq<byte>>)
      requires Valid()
      modifies this
      ensures Valid()
      ensures if old(chunks) == [] then data == None && chunks == [] && nodes == old(nodes)
              else data == Some(old(chunks)[0]) && chunks == old(chunks)[1..] && nodes == old(nodes)[1..]
    {
      if head == null {
        return None;
      }
      data := Some(head.data);
      if length == 1 {
        head, tail := null, null;
      } else {
        head := head.next;
      }
      length := length - 1;
      nodes := nodes[1..];
      chunks := chunks[1..];
    }

    /** Drops the first bytes of the first entry. */
    method TrimHead(n: nat)
      requires Valid() && head != null && n < |head.data|
      modifies this`chunks, head
      ensures Valid() && nodes == old(nodes) && length == old(length)
      ensures old(head.data)[..n] + Flatten(chunks) == Flatten(old(chunks))
    {
      assert head in nodes;
      ghost var chunk := head.data;
      head.data := head.data[n..];
      chunks := [chunk[n..]] + chunks[1..];
      assert chunk[..n] + (chunk[n..] + Flatten(chunks[1..])) == chunk + Flatten(chunks[1..]);
    }

    /** Takes the first entry, or its first `n` bytes if it has more. */
    method TakeUpTo(n: nat) returns (chunk: seq<byte>)
      requires Valid() && head != null && n > 0
      modifies this, head
      ensures Valid() && (forall x :: x in nodes ==> x in old(nodes))
      ensures chunk + Flatten(chunks) == Flatten(old(chunks)) && |chunk| <= n
      ensures length < old(length) || (length == old(length) && |chunk| == n)
    {
      assert head in nodes;
      chunk := head.data;
      if |chunk| > n {
        TrimHead(n);
        chunk := chunk[..n];
      } else {
        var first := Shift();
      }
    }

    /** Takes the first `n` bytes, or all of them; absent when there is no entry. */
    method Read(n: int) returns (data: Option<seq<byte>>)
      requires Valid()
      modifies this, nodes
      ensures Valid() && (forall x :: x in nodes ==> x in old(nodes))
      ensures data.None? <==> old(chunks) == []
      ensures data.None? ==> chunks == []
      ensures data.Some? ==> data.value + Flatten(chunks) == Flatten(old(chunks))
      ensures data.Some? ==> |data.value| == Clamp(n, |Flatten(old(chunks))|)
    {
      if head == null {
        return None;
      }
      var bytesLeft := n;
      var taken: seq<byte> := [];
      while bytesLeft > 0 && length > 0
        invariant Valid() && (forall x :: x in nodes ==> x in old(nodes))
        invariant taken + Flatten(chunks) == Flatten(old(chunks))
        invariant |taken| == if n < 0 then 0 else n - bytesLeft
        invariant n < 0 ==> bytesLeft == n
        invariant 0 <= n ==> 0 <= bytesLeft <= n
        decreases length, bytesLeft
      {
        assert head in nodes;
        var chunk := TakeUpTo(bytesLeft);
        taken := taken + chunk;
        bytesLeft := bytesLeft - |chunk|;
      }
      return Some(taken);
    }

    method ByteLength() returns (total: nat)
      requires Valid()
      ensures total == |Flatten(chunks)|
    {
      total := 0;
      var entry := head;
      ghost var i := 0;
      while entry != null
        invariant 0 <= i <= length
        invariant entry == if i < length then nodes[i] else null
        invariant total + |Flatten(chunks[i..])| == |Flatten(chunks)|
        decreases length - i
      {
        assert chunks[i..][1..] == chunks[i + 1..];
        total := total + |entry.data|;
        entry := entry.next;
        i := i + 1;
      }
    }
  }

  function Clamp(n: int, limit: nat): nat {
    if n < 0 then 0 else if n <= limit then n else limit
  }
}
