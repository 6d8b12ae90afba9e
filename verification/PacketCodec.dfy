/**
 * Writing and reading STREAM packets with the mutable writer, predictor and reader
 * (packages/ilp-protocol-stream/src/packet.ts).
 */
module PacketCodec {
  import opened Basics
  import opened Oer
  import opened OerStreams
  import opened Long64
  import opened StreamPackets

  // ---- parts of a concatenation ----

  lemma {:induction false} ConcatSplit(es: seq<seq<byte>>, i: nat)
    requires i <= |es|
    ensures Concat(es) == Concat(es[..i]) + Concat(es[i..])
  {
    if i == 0 {
      assert es[..0] == [] && es[0..] == es;
    } else {
      ConcatSplit(es, i - 1);
      ConcatSnoc(es[..i - 1], es[i - 1]);
      assert es[..i] == es[..i - 1] + [es[i - 1]];
      assert es[i - 1..][1..] == es[i..];
    }
  }

  lemma {:induction false} ConcatNext(es: seq<seq<byte>>, i: nat)
    requires i < |es|
    ensures Concat(es[..i + 1]) == Concat(es[..i]) + es[i]
    ensures |Concat(es[..i])| + |es[i]| <= |Concat(es)|
  {
    ConcatSnoc(es[..i], es[i]);
    assert es[..i + 1] == es[..i] + [es[i]];
    ConcatSplit(es, i + 1);
  }

  lemma AppendNext(prior: seq<byte>, es: seq<seq<byte>>, i: nat)
    requires i < |es|
    ensures prior + Concat(es[..i]) + es[i] == prior + Concat(es[..i + 1])
    ensures |prior + Concat(es[..i])| + |es[i]| <= |prior| + |Concat(es)|
  {
    ConcatNext(es, i);
    AppendBoth(prior, Concat(es[..i]), es[i]);
  }

  lemma ConcatWhole(es: seq<seq<byte>>)
    ensures Concat(es[..0]) == [] && Concat(es[..|es|]) == Concat(es)
  {
    assert es[..|es|] == es;
  }

  // ---- predicted sizes ----

  method MeasureField(predictor: Predictor, f: Field)
    requires FieldFits(f)
    modifies predictor
    ensures predictor.size == old(predictor.size) + |EncodeField(f)|
  {
    match f {
      case U8(_) => predictor.Skip(1);
      case UInt(number) =>
        WordFits(number);
        predictor.WriteVarUInt(number);
      case Octets(data) =>
        FitsInEight(|data|);
        predictor.SkipVarOctetString(|data|);
        MeasuresOctets(data);
    }
  }

  method MeasureFields(fs: seq<Field>) returns (size: nat)
    requires AllFit(fs)
    ensures size == |EncodeFields(fs)|
  {
    ghost var es := FieldBytes(fs);
    ConcatWhole(es);
    var predictor := new Predictor();
    for i := 0 to |fs|
      invariant predictor.size == |Concat(es[..i])|
    {
      ConcatNext(es, i);
      MeasureField(predictor, fs[i]);
    }
    size := predictor.size;
  }

  method MeasureFrame(predictor: Predictor, f: Frame)
    requires FrameFits(f)
    modifies predictor
    ensures predictor.size == old(predictor.size) + |EncodeFrame(f)|
  {
    var length := MeasureFields(Fields(f));
    FitsInEight(length);
    MeasuresOctets(EncodeFields(Fields(f)));
    predictor.Skip(1);
    predictor.SkipVarOctetString(length);
  }

  method MeasureHeader(predictor: Predictor, p: Packet)
    requires Fits(|p.frames|)
    modifies predictor
    ensures predictor.size == old(predictor.size) + |EncodeHeader(p)|
  {
    WordFits(p.sequence);
    WordFits(p.prepareAmount);
    FitsInEight(|p.frames|);
    predictor.Skip(1);
    predictor.Skip(1);
    predictor.WriteVarUInt(p.sequence);
    predictor.WriteVarUInt(p.prepareAmount);
    predictor.WriteVarUInt(|p.frames|);
  }

  method MeasurePacket(predictor: Predictor, p: Packet)
    requires PacketFits(p)
    modifies predictor
    ensures predictor.size == old(predictor.size) + |EncodePacket(p)|
  {
    MeasureHeader(predictor, p);
    ghost var es := FrameBytes(p.frames);
    ConcatWhole(es);
    ghost var size := predictor.size;
    for i := 0 to |p.frames|
      invariant predictor.size == size + |Concat(es[..i])|
    {
      ConcatNext(es, i);
      MeasureFrame(predictor, p.frames[i]);
    }
  }

  // ---- writing ----

  method WriteField(w: Writer, f: Field) returns (ok: bool)
    requires w.Valid() && FieldFits(f)
    modifies w, w.buffer
    ensures w.Valid() && w.OnlyAppended() && ok == old(w.Room(|EncodeField(f)|))
    ensures ok ==> w.Written() == old(w.Written()) + EncodeField(f)
  {
    match f {
      case U8(value) => ok := w.WriteByte(value);
      case UInt(number) =>
        WordFits(number);
        ok := w.WriteVarUInt(number);
      case Octets(data) =>
        FitsInEight(|data|);
        ok := w.WriteVarOctetString(data);
    }
  }

  method WriteNthField(w: Writer, fs: seq<Field>, i: nat, ghost prior: seq<byte>) returns (ok: bool)
    requires w.Valid() && AllFit(fs) && i < |fs|
    requires w.Written() == prior + Concat(FieldBytes(fs)[..i])
    modifies w, w.buffer
    ensures w.Valid() && w.OnlyAppended()
    ensures ok ==> w.Written() == prior + Concat(FieldBytes(fs)[..i + 1])
    ensures !ok ==> w.strict && |prior| + |EncodeFields(fs)| > w.finish - w.start
  {
    ok := WriteField(w, fs[i]);
    AppendNext(prior, FieldBytes(fs), i);
  }

  method WriteFields(w: Writer, fs: seq<Field>) returns (ok: bool)
    requires w.Valid() && AllFit(fs)
    modifies w, w.buffer
    ensures w.Valid() && w.OnlyAppended() && ok == old(w.Room(|EncodeFields(fs)|))
    ensures ok ==> w.Written() == old(w.Written()) + EncodeFields(fs)
  {
    ConcatWhole(FieldBytes(fs));
    for i := 0 to |fs|
      invariant w.Valid() && w.OnlyAppended()
      invariant w.Written() == old(w.Written()) + Concat(FieldBytes(fs)[..i])
    {
      ghost var before, from := w.buffer[..], w.position;
      ok := WriteNthField(w, fs, i, old(w.Written()));
      SameOutsideThen(old(w.buffer[..]), before, w.buffer[..], old(w.position), from, w.position);
      if !ok {
        return false;
      }
    }
    return true;
  }

  /** The fields as one octet string, through a writer for exactly its length. */
  method WriteContents(w: Writer, fs: seq<Field>, length: nat) returns (ok: bool)
    requires w.Valid() && AllFit(fs) && length == |EncodeFields(fs)| < Pow256(8)
    modifies w, w.buffer
    ensures w.Valid() && w.OnlyAppended() && ok == old(w.Room(|EncodeOctets(EncodeFields(fs))|))
    ensures ok ==> w.Written() == old(w.Written()) + EncodeOctets(EncodeFields(fs))
  {
    var contents := w.CreateVarOctetString(length);
    if contents.None? {
      return false;
    }
    var c := contents.value;
    ghost var before := w.buffer[..];
    ok := WriteFields(c, fs);
    FilledIn(before, w.buffer[..], w.start, c.start, w.position,
             old(w.Written()), EncodeLength(length), EncodeFields(fs));
    SameOutsideAgain(old(w.buffer[..]), before, w.buffer[..], old(w.position), c.start, w.position);
  }

  method WriteTyped(w: Writer, t: byte, fs: seq<Field>, length: nat) returns (ok: bool)
    requires w.Valid() && AllFit(fs) && length == |EncodeFields(fs)| < Pow256(8)
    modifies w, w.buffer
    ensures w.Valid() && w.OnlyAppended() && ok == old(w.Room(1 + |EncodeOctets(EncodeFields(fs))|))
    ensures ok ==> w.Written() == old(w.Written()) + ([t] + EncodeOctets(EncodeFields(fs)))
  {
    ok := w.WriteByte(t);
    if ok {
      ghost var before, from := w.buffer[..], w.position;
      ok := WriteContents(w, fs, length);
      AppendBoth(old(w.Written()), [t], EncodeOctets(EncodeFields(fs)));
      SameOutsideThen(old(w.buffer[..]), before, w.buffer[..], old(w.position), from, w.position);
    }
  }

  method WriteFrame(w: Writer, f: Frame) returns (ok: bool)
    requires w.Valid() && FrameFits(f)
    modifies w, w.buffer
    ensures w.Valid() && w.OnlyAppended() && ok == old(w.Room(|EncodeFrame(f)|))
    ensures ok ==> w.Written() == old(w.Written()) + EncodeFrame(f)
  {
    var length := MeasureFields(Fields(f));
    FitsInEight(length);
    ok := WriteTyped(w, TypeOf(f), Fields(f), length);
  }

  method WriteNthFrame(w: Writer, frames: seq<Frame>, i: nat, ghost prior: seq<byte>) returns (ok: bool)
    requires w.Valid() && AllFramesFit(frames) && i < |frames|
    requires w.Written() == prior + Concat(FrameBytes(frames)[..i])
    modifies w, w.buffer
    ensures w.Valid() && w.OnlyAppended()
    ensures ok ==> w.Written() == prior + Concat(FrameBytes(frames)[..i + 1])
    ensures !ok ==> w.strict && |prior| + |EncodeFrames(frames)| > w.finish - w.start
  {
    ok := WriteFrame(w, frames[i]);
    AppendNext(prior, FrameBytes(frames), i);
  }

  method WriteFrames(w: Writer, frames: seq<Frame>) returns (ok: bool)
    requires w.Valid() && AllFramesFit(frames)
    modifies w, w.buffer
    ensures w.Valid() && w.OnlyAppended() && ok == old(w.Room(|EncodeFrames(frames)|))
    ensures ok ==> w.Written() == old(w.Written()) + EncodeFrames(frames)
  {
    ConcatWhole(FrameBytes(frames));
    for i := 0 to |frames|
      invariant w.Valid() && w.OnlyAppended()
      invariant w.Written() == old(w.Written()) + Concat(FrameBytes(frames)[..i])
    {
      ghost var before, from := w.buffer[..], w.position;
      ok := WriteNthFrame(w, frames, i, old(w.Written()));
      SameOutsideThen(old(w.buffer[..]), before, w.buffer[..], old(w.position), from, w.position);
      if !ok {
        return false;
      }
    }
    return true;
  }

  function HeaderFields(p: Packet): seq<Field>
    requires |p.frames| < TWO64
  {
    [U8(VERSION), U8(p.ilpPacketType), UInt(p.sequence), UInt(p.prepareAmount), UInt(|p.frames|)]
  }

  lemma HeaderIsFields(p: Packet)
    requires Fits(|p.frames|)
    ensures |p.frames| < TWO64 && AllFit(HeaderFields(p)) && EncodeFields(HeaderFields(p)) == EncodeHeader(p)
  {
    WordFits(0);
    FitsInEight(|p.frames|);
    var es := FieldBytes(HeaderFields(p));
    assert es == [[VERSION], [p.ilpPacketType],
                  EncodeUInt(p.sequence), EncodeUInt(p.prepareAmount), EncodeUInt(|p.frames|)];
    FiveParts(es[0], es[1], es[2], es[3], es[4]);
  }

  lemma FiveParts(a: seq<byte>, b: seq<byte>, c: seq<byte>, d: seq<byte>, e: seq<byte>)
    ensures Concat([a, b, c, d, e]) == a + b + c + d + e
  {
    ConcatSnoc([a, b, c, d], e);
    ConcatSnoc([a, b, c], d);
    ConcatSnoc([a, b], c);
    ConcatSnoc([a], b);
    ConcatSnoc([], a);
    assert [a, b, c, d] + [e] == [a, b, c, d, e];
    assert [a, b, c] + [d] == [a, b, c, d];
    assert [a, b] + [c] == [a, b, c];
    assert [a] + [b] == [a, b];
    assert [] + [a] == [a];
  }

  method WriteHeader(w: Writer, p: Packet) returns (ok: bool)
    requires w.Valid() && Fits(|p.frames|)
    modifies w, w.buffer
    ensures w.Valid() && w.OnlyAppended() && ok == old(w.Room(|EncodeHeader(p)|))
    ensures ok ==> w.Written() == old(w.Written()) + EncodeHeader(p)
  {
    HeaderIsFields(p);
    ok := WriteFields(w, HeaderFields(p));
  }

  method WritePacket(w: Writer, p: Packet) returns (ok: bool)
    requires w.Valid() && PacketFits(p)
    modifies w, w.buffer
    ensures w.Valid() && w.OnlyAppended() && ok == old(w.Room(|EncodePacket(p)|))
    ensures ok ==> w.Written() == old(w.Written()) + EncodePacket(p)
  {
    ok := WriteHeader(w, p);
    if ok {
      ghost var before, from := w.buffer[..], w.position;
      ok := WriteFrames(w, p.frames);
      AppendBoth(old(w.Written()), EncodeHeader(p), EncodeFrames(p.frames));
      SameOutsideThen(old(w.buffer[..]), before, w.buffer[..], old(w.position), from, w.position);
    }
  }

  /** The buffer of predicted size takes the whole packet and no byte of it stays unused. */
  method Serialize(p: Packet) returns (bytes: Option<seq<byte>>, unused: nat)
    requires PacketFits(p)
    ensures bytes == Some(EncodePacket(p)) && unused == 0
  {
    var predictor := new Predictor();
    MeasurePacket(predictor, p);
    var writer := new Writer.Strict(predictor.size);
    var ok := WritePacket(writer, p);
    assert [] + EncodePacket(p) == EncodePacket(p);
    bytes := if ok then Some(writer.buffer[writer.start..writer.position]) else None;
    unused := writer.finish - writer.position;
  }

  // ---- reading ----

  /** Results already read, put before those still to come. */
  function Prepend<T>(done: seq<T>, rest: Option<(seq<T>, nat)>): Option<(seq<T>, nat)> {
    if rest.None? then None else Some((done + rest.value.0, rest.value.1))
  }

  lemma {:induction false} PrependNext<T>(done: seq<T>, ds: seq<Decoder<T>>, i: nat, at: nat)
    requires i < |ds|
    ensures ds[i](at).None? ==> Prepend(done, DecodeAll(ds[i..], at)) == None
    ensures ds[i](at).Some? ==>
              var (x, next) := ds[i](at).value;
              Prepend(done, DecodeAll(ds[i..], at)) == Prepend(done + [x], DecodeAll(ds[i + 1..], next))
  {
    assert ds[i..][0] == ds[i] && ds[i..][1..] == ds[i + 1..];
    if ds[i](at).Some? {
      var (x, next) := ds[i](at).value;
      var rest := DecodeAll(ds[i + 1..], next);
      if rest.Some? {
        assert done + ([x] + rest.value.0) == done + [x] + rest.value.0;
      }
    }
  }

  lemma PrependEnds<T>(done: seq<T>, ds: seq<Decoder<T>>, at: nat)
    ensures Prepend([], DecodeAll(ds[0..], at)) == DecodeAll(ds, at)
    ensures Prepend(done, DecodeAll(ds[|ds|..], at)) == Some((done, at))
  {
    assert ds[0..] == ds;
    var none := ds[|ds|..];
    assert none == [] && DecodeAll(none, at) == Some(([], at));
    assert done + [] == done;
    var all := DecodeAll(ds, at);
    if all.Some? {
      assert [] + all.value.0 == all.value.0;
    }
  }

  method ReadField(reader: Reader, k: Kind) returns (f: Option<Field>)
    modifies reader
    ensures f.Some? == DecodeField(k, reader.buffer, old(reader.cursor)).Some?
    ensures f.Some? ==> (f.value, reader.cursor) == DecodeField(k, reader.buffer, old(reader.cursor)).value
  {
    WordFits(0);
    match k {
      case KindU8 =>
        var v := reader.ReadUInt8();
        f := if v.None? then None else Some(U8(v.value));
      case KindUInt =>
        var v := reader.ReadVarUIntLong();
        f := if v.None? then None else Some(UInt(v.value));
      case KindSaturating =>
        var v := reader.SaturatingReadVarUInt();
        f := if v.None? then None else Some(UInt(v.value));
      case KindOctets =>
        var v := reader.ReadVarOctetString();
        f := if v.None? then None else Some(Octets(v.value));
    }
  }

  /** The properties of a frame, read one after the other. */
  method ReadFields(contents: seq<byte>, kinds: seq<Kind>) returns (fields: Option<seq<Field>>)
    ensures fields.Some? == DecodeFields(kinds, contents, 0).Some?
    ensures fields.Some? ==> fields.value == DecodeFields(kinds, contents, 0).value.0
  {
    var reader := new Reader(contents);
    ghost var ds := FieldDecoders(kinds, contents);
    var done: seq<Field> := [];
    PrependEnds(done, ds, 0);
    for i := 0 to |kinds|
      invariant Prepend(done, DecodeAll(ds[i..], reader.cursor)) == DecodeAll(ds, 0)
    {
      PrependNext(done, ds, i, reader.cursor);
      var f := ReadField(reader, kinds[i]);
      if f.None? {
        return None;
      }
      done := done + [f.value];
    }
    PrependEnds(done, ds, reader.cursor);
    return Some(done);
  }

  /** The frame that the contents hold, or nothing in place of a frame of unknown type. */
  method ReadContents(t: byte, contents: seq<byte>) returns (frame: Option<Option<Frame>>)
    ensures frame == FromContents(t, contents)
  {
    var kinds := KindsOf(t);
    if kinds.None? {
      return Some(None);
    }
    var fields := ReadFields(contents, kinds.value);
    if fields.None? {
      return None;
    }
    DecodedFieldsMatch(kinds.value, contents, 0);
    return Some(Some(Build(t, fields.value)));
  }

  method ParseFrame(reader: Reader) returns (frame: Option<Option<Frame>>)
    modifies reader
    ensures frame.Some? == DecodeFrame(reader.buffer, old(reader.cursor)).Some?
    ensures frame.Some? ==> (frame.value, reader.cursor) == DecodeFrame(reader.buffer, old(reader.cursor)).value
  {
    var t := reader.ReadUInt8();
    if t.None? {
      return None;
    }
    var contents := reader.ReadVarOctetString();
    if contents.None? {
      return None;
    }
    frame := ReadContents(t.value, contents.value);
  }

  method ReadHeader(reader: Reader) returns (header: Option<Header>)
    requires reader.cursor == 0
    modifies reader
    ensures header == DecodeHeader(reader.buffer)
    ensures header.Some? ==> reader.cursor == header.value.end
  {
    WordFits(0);
    var version := reader.ReadUInt8();
    if version.None? || version.value != VERSION {
      return None;
    }
    var ilpPacketType := reader.ReadUInt8();
    if ilpPacketType.None? {
      return None;
    }
    var sequence := reader.ReadVarUIntLong();
    if sequence.None? {
      return None;
    }
    var amount := reader.ReadVarUIntLong();
    if amount.None? {
      return None;
    }
    var frames := reader.ReadVarUIntNumber();
    if frames.None? {
      return None;
    }
    return Some(Header(ilpPacketType.value, sequence.value, amount.value, frames.value, reader.cursor));
  }

  lemma {:induction false} KnownSnoc(fs: seq<Option<Frame>>, f: Option<Frame>)
    ensures Known(fs + [f]) == Known(fs) + (if f.Some? then [f.value] else [])
  {
    if fs == [] {
      assert [] + [f] == [f];
    } else {
      KnownSnoc(fs[1..], f);
      assert (fs + [f])[1..] == fs[1..] + [f];
    }
  }

  method ReadFrames(reader: Reader, n: nat) returns (frames: Option<seq<Frame>>)
    modifies reader
    ensures frames == DecodeFrames(reader.buffer, old(reader.cursor), n)
  {
    ghost var ds := FrameDecoders(n, reader.buffer);
    ghost var done: seq<Option<Frame>> := [];
    var known: seq<Frame> := [];
    PrependEnds(done, ds, reader.cursor);
    for i := 0 to n
      invariant known == Known(done)
      invariant Prepend(done, DecodeAll(ds[i..], reader.cursor)) == DecodeAll(ds, old(reader.cursor))
    {
      PrependNext(done, ds, i, reader.cursor);
      var frame := ParseFrame(reader);
      if frame.None? {
        return None;
      }
      if frame.value.Some? {
        known := known + [frame.value.value];
      }
      KnownSnoc(done, frame.value);
      done := done + [frame.value];
    }
    PrependEnds(done, ds, reader.cursor);
    return Some(known);
  }

  method Deserialize(bytes: seq<byte>) returns (packet: Option<Packet>)
    ensures packet == DecodePacket(bytes)
  {
    var reader := new Reader(bytes);
    var header := ReadHeader(reader);
    if header.None? {
      return None;
    }
    var frames := ReadFrames(reader, header.value.frames);
    if frames.None? {
      return None;
    }
    return Some(Packet(header.value.sequence, header.value.ilpPacketType, header.value.amount, frames.value));
  }

  /** What the packet becomes when it is written, padded and read again. */
  method SerializeAndRead(p: Packet, padding: seq<byte>) returns (read: Option<Packet>)
    requires PacketFits(p)
    ensures read == Some(p)
  {
    var bytes, _ := Serialize(p);
    PacketRoundTrip(p, padding);
    read := Deserialize(bytes.value + padding);
  }
}
