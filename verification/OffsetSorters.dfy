/** The receiver's list of chunks sorted by offset (packages/ilp-protocol-stream/src/util/data-offset-sorter.ts). */
module OffsetSorters {
  import opened Basics

  datatype Chunk = Chunk(data: seq<byte>, offset: nat)

  function End(c: Chunk): nat {
    c.offset + |c.data|
  }

  /** Before the first entry with a larger offset. */
  function Insert(entries: seq<Chunk>, c: Chunk): seq<Chunk> {
    if entries == [] then [c]
    else if entries[0].offset > c.offset then [c] + entries
    else [entries[0]] + Insert(entries[1..], c)
  }

  predicate Readable(entries: seq<Chunk>, readOffset: nat) {
    entries != [] && entries[0].offset == readOffset
  }

  /** Length of the data that can be read without a gap. */
  function Contiguous(entries: seq<Chunk>, offset: nat): nat {
    if !Readable(entries, offset) then 0
    else |entries[0].data| + Contiguous(entries[1..], End(entries[0]))
  }

  ghost predicate Sorted(entries: seq<Chunk>) {
    forall i, j :: 0 <= i < j < |entries| ==> entries[i].offset <= entries[j].offset
  }

  lemma {:induction false} InsertAt(entries: seq<Chunk>, c: Chunk, k: nat)
    requires k <= |entries| && forall i :: 0 <= i < k ==> entries[i].offset <= c.offset
    requires k < |entries| ==> entries[k].offset > c.offset
    ensures Insert(entries, c) == entries[..k] + [c] + entries[k..]
  {
    if k > 0 {
      var first, rest := [entries[0]], entries[1..];
      InsertAt(rest, c, k - 1);
      assert rest[k - 1..] == entries[k..];
      assert first + rest[..k - 1] == entries[..k];
      calc {
        Insert(entries, c);
        first + (rest[..k - 1] + [c] + rest[k - 1..]);
        (first + rest[..k - 1]) + [c] + rest[k - 1..];
        entries[..k] + [c] + entries[k..];
      }
    } else {
      assert entries[..0] + [c] + entries[0..] == [c] + entries;
    }
  }

  lemma {:induction false} InsertElements(entries: seq<Chunk>, c: Chunk)
    ensures multiset(Insert(entries, c)) == multiset(entries) + multiset{c}
  {
    if entries != [] {
      InsertElements(entries[1..], c);
      assert entries == [entries[0]] + entries[1..];
    }
  }

  lemma {:induction false} InsertKeepsSorted(entries: seq<Chunk>, c: Chunk)
    requires Sorted(entries)
    ensures Sorted(Insert(entries, c))
  {
    if entries != [] && entries[0].offset <= c.offset {
      InsertKeepsSorted(entries[1..], c);
      var rest := Insert(entries[1..], c);
      forall j | 0 <= j < |rest| ensures entries[0].offset <= rest[j].offset {
        InsertElements(entries[1..], c);
        assert rest[j] in multiset(rest);
        assert rest[j] == c || rest[j] in entries[1..];
      }
    }
  }

  class OffsetDataEntry {
    const data: seq<byte>
    const offset: nat
    var next: OffsetDataEntry?

    constructor (data: seq<byte>, offset: nat)
      ensures this.data == data && this.offset == offset && next == null
    {
      this.data, this.offset, next := data, offset, null;
    }
  }

  class OffsetSorter {
    var head: OffsetDataEntry?
    var readOffset: nat
    var maxOffset: nat

    /** The linked entries in order, and what they hold. */
    ghost var nodes: seq<OffsetDataEntry>
    ghost var entries: seq<Chunk>

    ghost predicate Valid()
      reads this, nodes
    {
      && |nodes| == |entries|
      && head == (if nodes == [] then null else nodes[0])
      && (forall i :: 0 <= i < |nodes| ==> Chunk(nodes[i].data, nodes[i].offset) == entries[i])
      && (forall i {:trigger nodes[i].next} ::
            0 <= i < |nodes| ==> nodes[i].next == if i + 1 < |nodes| then nodes[i + 1] else null)
      && (forall i, j :: 0 <= i < j < |nodes| ==> nodes[i] != nodes[j])
    }

    constructor ()
      ensures Valid() && entries == [] && readOffset == 0 && maxOffset == 0
    {
      head, readOffset, maxOffset, nodes, entries := null, 0, 0, [], [];
    }

    method LinkFirst(entry: OffsetDataEntry)
      requires Valid() && entry !in nodes
      modifies this, entry
      ensures Valid() && entries == [Chunk(entry.data, entry.offset)] + old(entries)
      ensures readOffset == old(readOffset) && maxOffset == old(maxOffset)
    {
      entry.next := head;
      head := entry;
      nodes := [entry] + nodes;
      entries := [Chunk(entry.data, entry.offset)] + entries;
    }

    method LinkAfter(prev: OffsetDataEntry, entry: OffsetDataEntry, ghost k: nat)
      requires Valid() && entry !in nodes && 1 <= k <= |nodes| && prev == nodes[k - 1]
      modifies this, prev, entry
      ensures Valid() && entries == old(entries)[..k] + [Chunk(entry.data, entry.offset)] + old(entries)[k..]
      ensures readOffset == old(readOffset) && maxOffset == old(maxOffset)
    {
      entry.next := prev.next;
      prev.next := entry;
      nodes := nodes[..k] + [entry] + nodes[k..];
      entries := entries[..k] + [Chunk(entry.data, entry.offset)] + entries[k..];
    }

    /** The last entry before the first one with a larger offset. */
    method FindPrevious(offset: nat) returns (prev: OffsetDataEntry, ghost k: nat)
      requires Valid() && head != null && head.offset <= offset
      ensures 1 <= k <= |nodes| && prev == nodes[k - 1]
      ensures forall i :: 0 <= i < k ==> entries[i].offset <= offset
      ensures k < |nodes| ==> entries[k].offset > offset
    {
      prev := head;
      k := 1;
      while prev.next != null && prev.next.offset <= offset
        invariant 1 <= k <= |nodes| && prev == nodes[k - 1]
        invariant forall i :: 0 <= i < k ==> entries[i].offset <= offset
        decreases |nodes| - k
      {
        prev := prev.next;
        k := k + 1;
      }
    }

    method Push(data: seq<byte>, offset: nat)
      requires Valid()
      modifies this, nodes
      ensures Valid()
      ensures entries == Insert(old(entries), Chunk(data, offset))
      ensures readOffset == old(readOffset)
      ensures maxOffset == if offset + |data| > old(maxOffset) then offset + |data| else old(maxOffset)
    {
      var entry := new OffsetDataEntry(data, offset);
      if offset + |data| > maxOffset {
        maxOffset := offset + |data|;
      }
      if head == null || head.offset > offset {
        LinkFirst(entry);
      } else {
        var prev, k := FindPrevious(offset);
        InsertAt(entries, Chunk(data, offset), k);
        LinkAfter(prev, entry, k);
      }
    }

    method Read() returns (data: Option<seq<byte>>)
      requires Valid()
      modifies this
      ensures Valid() && maxOffset == old(maxOffset)
      ensures data.Some? <==> Readable(old(entries), old(readOffset))
      ensures data.Some? ==> && data.value == old(entries)[0].data
                             && entries == old(entries)[1..]
                             && readOffset == End(old(entries)[0])
      ensures data.None? ==> entries == old(entries) && readOffset == old(readOffset)
    {
      data := None;
      if head != null && readOffset == head.offset {
        data := Some(head.data);
        readOffset := head.offset + |head.data|;
        head := head.next;
        nodes := nodes[1..];
        entries := entries[1..];
      }
    }

    method ByteLength() returns (length: nat)
      requires Valid()
      ensures length == Contiguous(entries, readOffset)
    {
      length := 0;
      var entry := head;
      var offset: nat := readOffset;
      ghost var i := 0;
      while entry != null && entry.offset == offset
        invariant 0 <= i <= |nodes|
        invariant entry == if i < |nodes| then nodes[i] else null
        invariant length + Contiguous(entries[i..], offset) == Contiguous(entries, readOffset)
        decreases |nodes| - i
      {
        assert entries[i..][1..] == entries[i + 1..];
        length := length + |entry.data|;
        offset := offset + |entry.data|;
        entry := entry.next;
        i := i + 1;
      }
    }
  }
}
