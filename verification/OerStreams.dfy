/** The mutable writer, size predictor and reader (packages/oer-utils/src/lib/writer.ts, predictor.ts, reader.ts). */
module OerStreams {
  import opened Basics
  import opened Oer

  const MIN_BUFFER_SIZE: nat := 32

  /**
   * Writes into a buffer that grows, or into a fixed region of one. The writer of an octet string
   * shares the buffer of its parent; `start` and `finish` delimit its region.
   */
  class Writer {
    var buffer: array<byte>
    const start: nat
    var finish: nat
    var position: nat
    const strict: bool

    ghost predicate Valid()
      reads this
    {
      start <= position <= finish <= buffer.Length && (!strict ==> start == 0 && finish == buffer.Length)
    }

    ghost function Written(): seq<byte>
      requires Valid()
      reads this, buffer
    {
      buffer[start..position]
    }

    /** Whether `n` more bytes can be written. */
    ghost predicate Room(n: nat)
      reads this
    {
      !strict || position + n <= finish
    }

    /** Bytes were only added at the end; a fixed region stays where it is and nothing outside the new bytes changes. */
    twostate predicate OnlyAppended()
      requires old(Valid()) && Valid()
      reads this, buffer
    {
      && old(position) <= position
      && (buffer == old(buffer) || fresh(buffer))
      && (strict ==> buffer == old(buffer) && finish == old(finish))
      && (buffer == old(buffer) ==> SameOutside(old(buffer[..]), buffer[..], old(position), position))
    }

    constructor Strict(capacity: nat)
      ensures Valid() && strict && fresh(buffer) && Written() == [] && finish - position == capacity
    {
      buffer := new byte[capacity](_ => 0);
      start, finish, position, strict := 0, capacity, 0, true;
    }

    constructor Growing()
      ensures Valid() && !strict && fresh(buffer) && Written() == []
    {
      buffer := new byte[0];
      start, finish, position, strict := 0, 0, 0, false;
    }

    constructor Slice(buffer: array<byte>, from: nat, length: nat)
      requires from + length <= buffer.Length
      ensures Valid() && strict && this.buffer == buffer && start == position == from && finish == from + length
    {
      this.buffer := buffer;
      start, finish, position, strict := from, from + length, from, true;
    }

    /** Claims the next `n` bytes, growing the buffer if it may grow. */
    method Advance(n: nat) returns (ok: bool)
      requires Valid()
      modifies this
      ensures Valid() && ok == old(Room(n))
      ensures position == if ok then old(position) + n else old(position)
      ensures buffer == old(buffer) || fresh(buffer)
      ensures strict || !ok ==> buffer == old(buffer) && finish == old(finish)
      ensures buffer[start..old(position)] == old(Written())
    {
      if position + n <= finish {
        position := position + n;
        return true;
      }
      if strict {
        return false;
      }
      var capacity := if buffer.Length > 0 then buffer.Length else MIN_BUFFER_SIZE;
      while capacity < position + n
        invariant capacity >= buffer.Length && capacity > 0
        decreases position + n - capacity
      {
        capacity := capacity * 2;
      }
      var newBuffer := new byte[capacity](_ => 0);
      forall i | 0 <= i < buffer.Length {
        newBuffer[i] := buffer[i];
      }
      assert newBuffer[start..position] == buffer[start..position];
      buffer := newBuffer;
      finish := capacity;
      position := position + n;
      return true;
    }

    method Write(data: seq<byte>) returns (ok: bool)
      requires Valid()
      modifies this, buffer
      ensures Valid() && OnlyAppended() && ok == old(Room(|data|))
      ensures ok ==> Written() == old(Written()) + data
    {
      var offset := position;
      ok := Advance(|data|);
      if ok {
        forall i | 0 <= i < |data| {
          buffer[offset + i] := data[i];
        }
        assert buffer[start..offset] == old(Written());
        assert buffer[offset..position] == data;
        assert buffer[start..position] == buffer[start..offset] + buffer[offset..position];
      }
    }

    /** A fixed-length integer of up to 64 bits; fails when it does not fit the length. */
    method WriteUInt(v: nat, n: nat) returns (ok: bool)
      requires Valid() && v < Pow256(8)
      modifies this, buffer
      ensures Valid() && OnlyAppended() && ok == (n > 0 && v < Pow256(n) && old(Room(|LongToBuffer(v, n)|)))
      ensures ok ==> Written() == old(Written()) + LongToBuffer(v, n)
    {
      if n == 0 || v >= Pow256(n) {
        return false;
      }
      ok := Write(LongToBuffer(v, n));
    }

    method WriteByte(v: byte) returns (ok: bool)
      requires Valid()
      modifies this, buffer
      ensures Valid() && OnlyAppended() && ok == old(Room(1))
      ensures ok ==> Written() == old(Written()) + [v]
    {
      ByteFits(v);
      OneByte(v);
      ok := WriteUInt(v, 1);
    }

    method WriteLengthPrefix(n: nat) returns (ok: bool)
      requires Valid() && n < Pow256(8)
      modifies this, buffer
      ensures Valid() && OnlyAppended() && ok == old(Room(|EncodeLength(n)|))
      ensures ok ==> Written() == old(Written()) + EncodeLength(n)
    {
      if n <= 127 {
        ok := WriteByte(n);
      } else {
        LongFormParts(n);
        var lengthOfLength := UIntBufferSize(n);
        ok := WriteLongForm(n, lengthOfLength);
      }
    }

    /** The number of length bytes with the high bit set, and the length in that many bytes. */
    method WriteLongForm(n: nat, k: nat) returns (ok: bool)
      requires Valid() && n < Pow256(8) && 0 < k <= 8 && n < Pow256(k)
      modifies this, buffer
      ensures Valid() && OnlyAppended() && ok == old(Room(1 + k))
      ensures ok ==> Written() == old(Written()) + ([128 + k] + ToBytes(n, k))
    {
      ok := WriteByte(128 + k);
      if ok {
        ghost var before, from := buffer[..], position;
        LongToBufferIsExactIff(n, k);
        ok := WriteUInt(n, k);
        AppendBoth(old(Written()), [128 + k], ToBytes(n, k));
        SameOutsideThen(old(buffer[..]), before, buffer[..], old(position), from, position);
      }
    }

    method WriteVarOctetString(data: seq<byte>) returns (ok: bool)
      requires Valid() && |data| < Pow256(8)
      modifies this, buffer
      ensures Valid() && OnlyAppended() && ok == old(Room(|EncodeOctets(data)|))
      ensures ok ==> Written() == old(Written()) + EncodeOctets(data)
    {
      ok := WriteLengthPrefix(|data|);
      if ok {
        ok := Write(data);
      }
    }

    /** Writes the prefix and hands out a writer for exactly the bytes that follow it. */
    method CreateVarOctetString(length: nat) returns (contents: Option<Writer>)
      requires Valid() && length < Pow256(8)
      modifies this, buffer
      ensures Valid() && OnlyAppended()
      ensures contents.Some? == old(Room(|EncodeLength(length)| + length))
      ensures contents.Some? ==>
                var w := contents.value;
                && fresh(w) && w.Valid() && w.strict && w.buffer == buffer
                && old(position) <= w.start == w.position && w.finish == position && w.finish - w.start == length
                && buffer[start..w.start] == old(Written()) + EncodeLength(length)
    {
      var ok := WriteLengthPrefix(length);
      if !ok {
        return None;
      }
      var from := position;
      ok := Advance(length);
      if !ok {
        return None;
      }
      var w := new Writer.Slice(buffer, from, length);
      return Some(w);
    }

    method WriteVarUInt(v: nat) returns (ok: bool)
      requires Valid() && v < Pow256(8)
      modifies this, buffer
      ensures Valid() && OnlyAppended() && ok == old(Room(|EncodeUInt(v)|))
      ensures ok ==> Written() == old(Written()) + EncodeUInt(v)
    {
      UIntShape(v);
      SizeBounds(v);
      var lengthOfValue := UIntBufferSize(v);
      SmallPrefix(lengthOfValue);
      ok := WriteUIntString(v, lengthOfValue);
    }

    /** An octet string that holds an integer of the given length. */
    method WriteUIntString(v: nat, n: nat) returns (ok: bool)
      requires Valid() && 0 < n <= 8 && n < Pow256(8) && v < Pow256(n) && v < Pow256(8)
      modifies this, buffer
      ensures Valid() && OnlyAppended() && ok == old(Room(|EncodeLength(n)| + n))
      ensures ok ==> Written() == old(Written()) + (EncodeLength(n) + ToBytes(v, n))
    {
      var contents := CreateVarOctetString(n);
      if contents.None? {
        return false;
      }
      var w := contents.value;
      LongToBufferIsExactIff(v, n);
      ghost var before := buffer[..];
      ok := w.WriteUInt(v, n);
      FilledIn(before, buffer[..], start, w.start, position, old(Written()), EncodeLength(n), ToBytes(v, n));
      SameOutsideAgain(old(buffer[..]), before, buffer[..], old(position), w.start, position);
    }
  }

  /** The bytes before `from` and those at `to` and after it are the same. */
  ghost predicate SameOutside(before: seq<byte>, after: seq<byte>, from: nat, to: nat) {
    |before| == |after| && forall i :: 0 <= i < |after| && !(from <= i < to) ==> after[i] == before[i]
  }

  lemma SameOutsideAgain(s0: seq<byte>, s1: seq<byte>, s2: seq<byte>, from: nat, mid: nat, to: nat)
    requires from <= mid <= to && SameOutside(s1, s2, mid, to)
    ensures SameOutside(s0, s1, from, to) ==> SameOutside(s0, s2, from, to)
  {
  }

  lemma SameOutsideThen(s0: seq<byte>, s1: seq<byte>, s2: seq<byte>, i: nat, j: nat, k: nat)
    requires i <= j <= k
    ensures SameOutside(s0, s1, i, j) && SameOutside(s1, s2, j, k) ==> SameOutside(s0, s2, i, k)
  {
  }

  lemma AppendBoth(prior: seq<byte>, a: seq<byte>, b: seq<byte>)
    ensures prior + a + b == prior + (a + b)
  {
  }

  /** What the writer of an octet string writes stands behind what its parent had written before. */
  lemma FilledIn(before: seq<byte>, after: seq<byte>, start: nat, from: nat, end: nat,
                 prior: seq<byte>, prefix: seq<byte>, data: seq<byte>)
    requires start <= from <= end <= |after| && SameOutside(before, after, from, end)
    requires before[start..from] == prior + prefix && after[from..end] == data
    ensures after[start..end] == prior + (prefix + data)
  {
    assert after[start..from] == before[start..from];
    assert after[start..end] == after[start..from] + after[from..end];
  }

  lemma ByteFits(v: byte)
    ensures v < Pow256(1) && v < Pow256(8)
  {
    Powers();
  }

  lemma {:induction false} OneByte(v: byte)
    requires v < Pow256(8)
    ensures LongToBuffer(v, 1) == [v]
  {
    LongToBufferIsExactIff(v, 1);
    assert ToBytes(v, 1) == ToBytes(v / 256, 0) + [v % 256];
  }

  lemma LongFormParts(n: nat)
    requires 127 < n < Pow256(8)
    ensures 1 <= Size(n) <= 8 && n < Pow256(Size(n))
    ensures EncodeLength(n) == [128 + Size(n)] + ToBytes(n, Size(n))
  {
    SizeIsLeast(n, 8);
    SizeBounds(n);
  }

  lemma SmallPrefix(n: nat)
    requires n <= 8
    ensures n < Pow256(8) && EncodeLength(n) == [n]
  {
  }

  /** The search through the table of sizes. */
  method UIntBufferSize(v: nat) returns (size: nat)
    requires v < Pow256(8)
    ensures size == Size(v)
  {
    size := 1;
    while v >= Pow256(size)
      invariant 1 <= size <= 8
      invariant size > 1 ==> v >= Pow256(size - 1)
      decreases 8 - size
    {
      size := size + 1;
    }
    SizeIsLeast(v, size);
    if size > 1 {
      SizeIsLeast(v, size - 1);
    }
  }

  /** Counts what a writer would write. */
  class Predictor {
    var size: nat

    constructor ()
      ensures size == 0
    {
      size := 0;
    }

    method Skip(n: nat)
      modifies this
      ensures size == old(size) + n
    {
      size := size + n;
    }

    method SkipVarOctetString(length: nat)
      requires length < Pow256(8)
      modifies this
      ensures size == old(size) + MeasureOctets(length)
    {
      var total := 1;
      if length > 127 {
        var lengthOfLength := UIntBufferSize(length);
        total := total + lengthOfLength;
      }
      Skip(total + length);
    }

    method WriteVarUInt(v: nat)
      requires v < Pow256(8)
      modifies this
      ensures size == old(size) + |EncodeUInt(v)|
    {
      UIntShape(v);
      Powers();
      var lengthOfValue := UIntBufferSize(v);
      SkipVarOctetString(lengthOfValue);
    }
  }

  /** Reads a buffer from a cursor that moves. */
  class Reader {
    const buffer: seq<byte>
    var cursor: nat
    var bookmarks: seq<nat>

    constructor (buffer: seq<byte>)
      ensures this.buffer == buffer && cursor == 0 && bookmarks == []
    {
      this.buffer := buffer;
      cursor, bookmarks := 0, [];
    }

    method Bookmark()
      modifies this`bookmarks
      ensures bookmarks == old(bookmarks) + [cursor]
    {
      bookmarks := bookmarks + [cursor];
    }

    method Restore() returns (ok: bool)
      modifies this
      ensures ok == (old(bookmarks) != [])
      ensures ok ==> cursor == old(bookmarks[|bookmarks| - 1]) && bookmarks == old(bookmarks[..|bookmarks| - 1])
      ensures !ok ==> cursor == old(cursor) && bookmarks == []
    {
      if bookmarks == [] {
        return false;
      }
      cursor := bookmarks[|bookmarks| - 1];
      bookmarks := bookmarks[..|bookmarks| - 1];
      return true;
    }

    method ReadUIntNumber(length: nat) returns (v: Option<nat>)
      modifies this`cursor
      ensures v.Some? == (1 <= length <= MAX_SAFE_BYTES && old(cursor) + length <= |buffer|)
      ensures v.Some? ==> cursor == old(cursor) + length && v.value == FromBytes(buffer[old(cursor)..cursor])
    {
      if length < 1 || MAX_SAFE_BYTES < length || cursor + length > |buffer| {
        return None;
      }
      v := Some(FromBytes(buffer[cursor..cursor + length]));
      cursor := cursor + length;
    }

    method ReadUInt8() returns (v: Option<byte>)
      modifies this`cursor
      ensures v.Some? == (old(cursor) < |buffer|)
      ensures v.Some? ==> cursor == old(cursor) + 1 && v.value == buffer[old(cursor)]
    {
      if cursor >= |buffer| {
        return None;
      }
      v := Some(buffer[cursor]);
      cursor := cursor + 1;
    }

    method ReadLengthPrefix() returns (length: Option<nat>)
      modifies this`cursor
      ensures length.Some? == DecodeLength(buffer, old(cursor)).Some?
      ensures length.Some? ==> (length.value, cursor) == DecodeLength(buffer, old(cursor)).value
    {
      var first := ReadUInt8();
      if first.None? {
        return None;
      }
      if first.value < 128 {
        return Some(first.value);
      }
      var lengthPrefixLength := first.value - 128;
      if lengthPrefixLength == 0 {
        return None;
      }
      var actualLength := ReadUIntNumber(lengthPrefixLength);
      if actualLength.None? || actualLength.value < MinLength(lengthPrefixLength) {
        return None;
      }
      return actualLength;
    }

    method ReadVarOctetString() returns (data: Option<seq<byte>>)
      modifies this`cursor
      ensures data.Some? == DecodeOctets(buffer, old(cursor)).Some?
      ensures data.Some? ==> (data.value, cursor) == DecodeOctets(buffer, old(cursor)).value
    {
      var length := ReadLengthPrefix();
      if length.None? || cursor + length.value > |buffer| {
        return None;
      }
      data := Some(buffer[cursor..cursor + length.value]);
      cursor := cursor + length.value;
    }

    /** Reads ahead and comes back; when the read fails the bookmark stays behind. */
    method PeekVarOctetString() returns (data: Option<seq<byte>>)
      modifies this
      ensures data.Some? == DecodeOctets(buffer, old(cursor)).Some?
      ensures data.Some? ==> data.value == DecodeOctets(buffer, old(cursor)).value.0
      ensures data.Some? ==> cursor == old(cursor) && bookmarks == old(bookmarks)
    {
      Bookmark();
      data := ReadVarOctetString();
      if data.Some? {
        var restored := Restore();
      }
    }

    method ReadVarUIntLong() returns (v: Option<nat>)
      modifies this`cursor
      ensures v.Some? == DecodeUInt(buffer, old(cursor)).Some?
      ensures v.Some? ==> (v.value, cursor) == DecodeUInt(buffer, old(cursor)).value
    {
      var data := ReadVarOctetString();
      if data.None? || |data.value| == 0 || |data.value| > 8 {
        return None;
      }
      return Some(FromBytes(data.value));
    }

    method ReadVarUIntNumber() returns (v: Option<nat>)
      modifies this`cursor
      ensures v.Some? == DecodeNumber(buffer, old(cursor)).Some?
      ensures v.Some? ==> (v.value, cursor) == DecodeNumber(buffer, old(cursor)).value
    {
      if cursor >= |buffer| || buffer[cursor] == 0 || buffer[cursor] > MAX_SAFE_BYTES {
        return None;
      }
      var length := buffer[cursor];
      cursor := cursor + 1;
      v := ReadUIntNumber(length);
    }

    /** Used for limits that may exceed 64 bits (packages/ilp-protocol-stream/src/packet.ts:565-572). */
    method SaturatingReadVarUInt() returns (v: Option<nat>)
      modifies this
      ensures v.Some? == DecodeSaturating(buffer, old(cursor)).Some?
      ensures v.Some? ==> (v.value, cursor) == DecodeSaturating(buffer, old(cursor)).value
    {
      var ahead := PeekVarOctetString();
      if ahead.None? {
        return None;
      }
      if |ahead.value| > 8 {
        var skipped := ReadVarOctetString();
        return Some(Pow256(8) - 1);
      }
      v := ReadVarUIntLong();
    }
  }
}
