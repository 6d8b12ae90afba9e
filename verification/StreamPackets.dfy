/** STREAM packets and their 15 frame types as byte sequences (packages/ilp-protocol-stream/src/packet.ts). */
module StreamPackets {
  import opened Basics
  import opened Oer
  import opened Long64

  // ---- the fields a frame is made of ----

  datatype Field = U8(value: byte) | UInt(number: u64) | Octets(data: seq<byte>)

  /** How a field is read; a saturating integer may be longer than 64 bits. */
  datatype Kind = KindU8 | KindUInt | KindSaturating | KindOctets

  predicate Matches(f: Field, k: Kind) {
    match f
    case U8(_) => k.KindU8?
    case UInt(_) => k.KindUInt? || k.KindSaturating?
    case Octets(_) => k.KindOctets?
  }

  predicate AllMatch(fs: seq<Field>, ks: seq<Kind>) {
    |fs| == |ks| && forall i :: 0 <= i < |fs| ==> Matches(fs[i], ks[i])
  }

  ghost predicate FieldFits(f: Field) {
    f.Octets? ==> Fits(|f.data|)
  }

  ghost predicate AllFit(fs: seq<Field>) {
    forall f :: f in fs ==> FieldFits(f)
  }

  lemma FitsInEight(n: nat)
    requires Fits(n)
    ensures n < Pow256(8)
  {
  }

  lemma WordFits(v: u64)
    ensures v < Pow256(8) == TWO64
  {
  }

  function EncodeField(f: Field): (bs: seq<byte>)
    requires FieldFits(f)
  {
    match f
    case U8(value) => [value]
    case UInt(number) => WordFits(number); EncodeUInt(number)
    case Octets(data) => FitsInEight(|data|); EncodeOctets(data)
  }

  function FieldBytes(fs: seq<Field>): seq<seq<byte>>
    requires AllFit(fs)
  {
    seq(|fs|, i requires 0 <= i < |fs| => EncodeField(fs[i]))
  }

  function EncodeFields(fs: seq<Field>): seq<byte>
    requires AllFit(fs)
  {
    Concat(FieldBytes(fs))
  }

  function DecodeField(k: Kind, bs: seq<byte>, at: nat): (r: Option<(Field, nat)>)
    ensures r.Some? ==> Matches(r.value.0, k) && at < r.value.1 <= |bs|
  {
    match k
    case KindU8 => if at < |bs| then Some((U8(bs[at]), at + 1)) else None
    case KindUInt =>
      WordFits(0);
      var r := DecodeUInt(bs, at);
      if r.None? then None else Some((UInt(r.value.0), r.value.1))
    case KindSaturating =>
      WordFits(0);
      var r := DecodeSaturating(bs, at);
      if r.None? then None else Some((UInt(r.value.0), r.value.1))
    case KindOctets =>
      var r := DecodeOctets(bs, at);
      if r.None? then None else Some((Octets(r.value.0), r.value.1))
  }

  function FieldDecoder(k: Kind, bs: seq<byte>): Decoder<Field> {
    p => DecodeField(k, bs, p)
  }

  function FieldDecoders(ks: seq<Kind>, bs: seq<byte>): seq<Decoder<Field>> {
    seq<Decoder<Field>>(|ks|, i requires 0 <= i < |ks| => FieldDecoder(ks[i], bs))
  }

  function DecodeFields(ks: seq<Kind>, bs: seq<byte>, at: nat): Option<(seq<Field>, nat)> {
    DecodeAll(FieldDecoders(ks, bs), at)
  }

  lemma DecodedFieldsMatch(ks: seq<Kind>, bs: seq<byte>, at: nat)
    requires DecodeFields(ks, bs, at).Some?
    ensures AllMatch(DecodeFields(ks, bs, at).value.0, ks)
  {
    var ds, fs := FieldDecoders(ks, bs), DecodeFields(ks, bs, at).value.0;
    forall i | 0 <= i < |ks| ensures Matches(fs[i], ks[i]) {
      var p := DecodeAllPointwise(ds, at, i);
      assert ds[i](p) == DecodeField(ks[i], bs, p);
    }
  }

  lemma {:induction false} ByteField(bs: seq<byte>, at: nat, f: Field, k: Kind)
    requires f.U8? && FieldFits(f) && Matches(f, k) && At(bs, at, EncodeField(f))
    ensures DecodeField(k, bs, at) == Some((f, at + |EncodeField(f)|))
  {
    AtHead(bs, at, f.value, []);
  }

  lemma {:induction false} NumberField(bs: seq<byte>, at: nat, f: Field, k: Kind)
    requires f.UInt? && FieldFits(f) && Matches(f, k) && At(bs, at, EncodeField(f))
    ensures DecodeField(k, bs, at) == Some((f, at + |EncodeField(f)|))
  {
    WordFits(f.number);
    UIntRoundTrip(bs, at, f.number);
  }

  lemma {:induction false} OctetsField(bs: seq<byte>, at: nat, f: Field, k: Kind)
    requires f.Octets? && FieldFits(f) && Matches(f, k) && At(bs, at, EncodeField(f))
    ensures DecodeField(k, bs, at) == Some((f, at + |EncodeField(f)|))
  {
    FitsInEight(|f.data|);
    OctetsDecoded(bs, at, f.data, EncodeField(f));
  }

  lemma {:induction false} OctetsDecoded(bs: seq<byte>, at: nat, data: seq<byte>, e: seq<byte>)
    requires Fits(|data|)
    requires |data| < Pow256(8) && e == EncodeOctets(data) && At(bs, at, e)
    ensures DecodeField(KindOctets, bs, at) == Some((Octets(data), at + |e|))
  {
    OctetsRoundTrip(bs, at, data);
  }

  lemma {:induction false} FieldRoundTrip(bs: seq<byte>, at: nat, f: Field, k: Kind)
    requires FieldFits(f) && Matches(f, k) && At(bs, at, EncodeField(f))
    ensures DecodeField(k, bs, at) == Some((f, at + |EncodeField(f)|))
  {
    match f {
      case U8(_) => ByteField(bs, at, f, k);
      case UInt(_) => NumberField(bs, at, f, k);
      case Octets(_) => OctetsField(bs, at, f, k);
    }
  }

  lemma FieldReads(bs: seq<byte>, f: Field, k: Kind)
    requires FieldFits(f) && Matches(f, k)
    ensures Reads(FieldDecoder(k, bs), bs, EncodeField(f), f)
  {
    forall p: nat | At(bs, p, EncodeField(f)) ensures FieldDecoder(k, bs)(p) == Some((f, p + |EncodeField(f)|)) {
      FieldRoundTrip(bs, p, f, k);
    }
  }

  lemma {:induction false} FieldsRoundTrip(bs: seq<byte>, at: nat, fs: seq<Field>, ks: seq<Kind>)
    requires AllFit(fs) && AllMatch(fs, ks) && At(bs, at, EncodeFields(fs))
    ensures DecodeFields(ks, bs, at) == Some((fs, at + |EncodeFields(fs)|))
  {
    var ds, es := FieldDecoders(ks, bs), FieldBytes(fs);
    forall i | 0 <= i < |fs| ensures Reads(ds[i], bs, es[i], fs[i]) {
      FieldReads(bs, fs[i], ks[i]);
    }
    DecodeAllReads(ds, bs, at, es, fs);
  }

  // ---- frames ----

  datatype Frame =
    | ConnectionClose(errorCode: byte, errorMessage: seq<byte>)
    | ConnectionNewAddress(sourceAccount: seq<byte>)
    | ConnectionMaxData(maxOffset: u64)
    | ConnectionDataBlocked(maxOffset: u64)
    | ConnectionMaxStreamId(maxStreamId: u64)
    | ConnectionStreamIdBlocked(maxStreamId: u64)
    | ConnectionAssetDetails(sourceAssetCode: seq<byte>, sourceAssetScale: byte)
    | StreamClose(streamId: u64, errorCode: byte, errorMessage: seq<byte>)
    | StreamMoney(streamId: u64, shares: u64)
    | StreamMaxMoney(streamId: u64, receiveMax: u64, totalReceived: u64)
    | StreamMoneyBlocked(streamId: u64, sendMax: u64, totalSent: u64)
    | StreamData(streamId: u64, offset: u64, data: seq<byte>)
    | StreamMaxData(streamId: u64, maxOffset: u64)
    | StreamDataBlocked(streamId: u64, maxOffset: u64)
    | StreamReceipt(streamId: u64, receipt: seq<byte>)

  function TypeOf(f: Frame): byte {
    match f
    case ConnectionClose(_, _) => 0x01
    case ConnectionNewAddress(_) => 0x02
    case ConnectionMaxData(_) => 0x03
    case ConnectionDataBlocked(_) => 0x04
    case ConnectionMaxStreamId(_) => 0x05
    case ConnectionStreamIdBlocked(_) => 0x06
    case ConnectionAssetDetails(_, _) => 0x07
    case StreamClose(_, _, _) => 0x10
    case StreamMoney(_, _) => 0x11
    case StreamMaxMoney(_, _, _) => 0x12
    case StreamMoneyBlocked(_, _, _) => 0x13
    case StreamData(_, _, _) => 0x14
    case StreamMaxData(_, _) => 0x15
    case StreamDataBlocked(_, _) => 0x16
    case StreamReceipt(_, _) => 0x17
  }

  /** The properties of a frame in the order they are written. */
  function Fields(f: Frame): seq<Field> {
    match f
    case ConnectionClose(code, message) => [U8(code), Octets(message)]
    case ConnectionNewAddress(account) => [Octets(account)]
    case ConnectionMaxData(maxOffset) => [UInt(maxOffset)]
    case ConnectionDataBlocked(maxOffset) => [UInt(maxOffset)]
    case ConnectionMaxStreamId(maxStreamId) => [UInt(maxStreamId)]
    case ConnectionStreamIdBlocked(maxStreamId) => [UInt(maxStreamId)]
    case ConnectionAssetDetails(code, scale) => [Octets(code), U8(scale)]
    case StreamClose(id, code, message) => [UInt(id), U8(code), Octets(message)]
    case StreamMoney(id, shares) => [UInt(id), UInt(shares)]
    case StreamMaxMoney(id, receiveMax, totalReceived) => [UInt(id), UInt(receiveMax), UInt(totalReceived)]
    case StreamMoneyBlocked(id, sendMax, totalSent) => [UInt(id), UInt(sendMax), UInt(totalSent)]
    case StreamData(id, offset, data) => [UInt(id), UInt(offset), Octets(data)]
    case StreamMaxData(id, maxOffset) => [UInt(id), UInt(maxOffset)]
    case StreamDataBlocked(id, maxOffset) => [UInt(id), UInt(maxOffset)]
    case StreamReceipt(id, receipt) => [UInt(id), Octets(receipt)]
  }

  /** What the reader expects in a frame of a type; nothing for types it does not know. */
  function KindsOf(t: byte): Option<seq<Kind>> {
    if t == 0x01 then Some([KindU8, KindOctets])
    else if t == 0x02 then Some([KindOctets])
    else if t == 0x03 || t == 0x04 || t == 0x05 || t == 0x06 then Some([KindUInt])
    else if t == 0x07 then Some([KindOctets, KindU8])
    else if t == 0x10 then Some([KindUInt, KindU8, KindOctets])
    else if t == 0x11 then Some([KindUInt, KindUInt])
    else if t == 0x12 || t == 0x13 then Some([KindUInt, KindSaturating, KindUInt])
    else if t == 0x14 then Some([KindUInt, KindUInt, KindOctets])
    else if t == 0x15 || t == 0x16 then Some([KindUInt, KindUInt])
    else if t == 0x17 then Some([KindUInt, KindOctets])
    else None
  }

  function Build(t: byte, fs: seq<Field>): Frame
    requires KindsOf(t).Some? && AllMatch(fs, KindsOf(t).value)
  {
    if t == 0x01 then ConnectionClose(fs[0].value, fs[1].data)
    else if t == 0x02 then ConnectionNewAddress(fs[0].data)
    else if t == 0x03 then ConnectionMaxData(fs[0].number)
    else if t == 0x04 then ConnectionDataBlocked(fs[0].number)
    else if t == 0x05 then ConnectionMaxStreamId(fs[0].number)
    else if t == 0x06 then ConnectionStreamIdBlocked(fs[0].number)
    else if t == 0x07 then ConnectionAssetDetails(fs[0].data, fs[1].value)
    else if t == 0x10 then StreamClose(fs[0].number, fs[1].value, fs[2].data)
    else if t == 0x11 then StreamMoney(fs[0].number, fs[1].number)
    else if t == 0x12 then StreamMaxMoney(fs[0].number, fs[1].number, fs[2].number)
    else if t == 0x13 then StreamMoneyBlocked(fs[0].number, fs[1].number, fs[2].number)
    else if t == 0x14 then StreamData(fs[0].number, fs[1].number, fs[2].data)
    else if t == 0x15 then StreamMaxData(fs[0].number, fs[1].number)
    else if t == 0x16 then StreamDataBlocked(fs[0].number, fs[1].number)
    else StreamReceipt(fs[0].number, fs[1].data)
  }

  /** The reader's expectation fits what the writer emits, and rebuilds the same frame. */
  lemma BuildRoundTrip(f: Frame)
    ensures KindsOf(TypeOf(f)).Some? && AllMatch(Fields(f), KindsOf(TypeOf(f)).value)
    ensures Build(TypeOf(f), Fields(f)) == f
  {
  }

  ghost predicate FrameFits(f: Frame) {
    AllFit(Fields(f)) && Fits(|EncodeFields(Fields(f))|)
  }

  function EncodeFrame(f: Frame): seq<byte>
    requires FrameFits(f)
  {
    FitsInEight(|EncodeFields(Fields(f))|);
    [TypeOf(f)] + EncodeOctets(EncodeFields(Fields(f)))
  }

  /** The type byte, the contents and where they end. */
  function DecodeTyped(bs: seq<byte>, at: nat): (r: Option<(byte, seq<byte>, nat)>)
    ensures r.Some? ==> at < r.value.2 <= |bs|
  {
    if at >= |bs| then None
    else
      match DecodeOctets(bs, at + 1)
      case None => None
      case Some((contents, next)) => Some((bs[at], contents, next))
  }

  /** A frame, or nothing in place of a frame of unknown type; bytes after the expected fields are ignored. */
  function FromContents(t: byte, contents: seq<byte>): Option<Option<Frame>> {
    match KindsOf(t)
    case None => Some(None)
    case Some(kinds) =>
      match DecodeFields(kinds, contents, 0)
      case None => None
      case Some((fields, _)) =>
        DecodedFieldsMatch(kinds, contents, 0);
        Some(Some(Build(t, fields)))
  }

  function DecodeFrame(bs: seq<byte>, at: nat): (r: Option<(Option<Frame>, nat)>)
    ensures r.Some? ==> at < r.value.1 <= |bs|
  {
    match DecodeTyped(bs, at)
    case None => None
    case Some((t, contents, next)) =>
      match FromContents(t, contents)
      case None => None
      case Some(frame) => Some((frame, next))
  }

  /** Whatever follows the fields of a frame inside its contents is ignored. */
  lemma {:induction false} ContentsRoundTrip(f: Frame, rest: seq<byte>)
    requires AllFit(Fields(f))
    ensures FromContents(TypeOf(f), EncodeFields(Fields(f)) + rest) == Some(Some(f))
  {
    BuildRoundTrip(f);
    var fields := EncodeFields(Fields(f));
    AtSlice(fields + rest, 0, fields);
    FieldsRoundTrip(fields + rest, 0, Fields(f), KindsOf(TypeOf(f)).value);
  }

  lemma {:induction false} TypedRoundTrip(bs: seq<byte>, at: nat, t: byte, contents: seq<byte>, e: seq<byte>)
    requires Fits(|contents|)
    requires |contents| < Pow256(8) && e == [t] + EncodeOctets(contents) && At(bs, at, e)
    ensures DecodeTyped(bs, at) == Some((t, contents, at + |e|))
  {
    AtHead(bs, at, t, EncodeOctets(contents));
    OctetsRoundTrip(bs, at + 1, contents);
  }

  lemma {:induction false} FrameReads(bs: seq<byte>, t: byte, contents: seq<byte>, e: seq<byte>, frame: Option<Frame>)
    requires Fits(|contents|)
    requires |contents| < Pow256(8) && e == [t] + EncodeOctets(contents)
    requires FromContents(t, contents) == Some(frame)
    ensures Reads(FrameDecoder(bs), bs, e, frame)
  {
    forall p: nat | At(bs, p, e) ensures FrameDecoder(bs)(p) == Some((frame, p + |e|)) {
      TypedRoundTrip(bs, p, t, contents, e);
    }
  }

  /** A written frame is read back, wherever it stands. */
  lemma {:induction false} FrameRoundTrip(bs: seq<byte>, f: Frame)
    requires FrameFits(f)
    ensures Reads(FrameDecoder(bs), bs, EncodeFrame(f), Some(f))
  {
    var contents := EncodeFields(Fields(f));
    FitsInEight(|contents|);
    ContentsRoundTrip(f, []);
    assert contents + [] == contents;
    FrameReads(bs, TypeOf(f), contents, EncodeFrame(f), Some(f));
  }

  // ---- packets ----

  const VERSION: byte := 1

  datatype Packet = Packet(sequence: u64, ilpPacketType: byte, prepareAmount: u64, frames: seq<Frame>)

  ghost predicate PacketFits(p: Packet) {
    Fits(|p.frames|) && AllFramesFit(p.frames)
  }

  ghost predicate AllFramesFit(fs: seq<Frame>) {
    forall f :: f in fs ==> FrameFits(f)
  }

  function FrameBytes(fs: seq<Frame>): seq<seq<byte>>
    requires AllFramesFit(fs)
  {
    seq(|fs|, i requires 0 <= i < |fs| => EncodeFrame(fs[i]))
  }

  function EncodeFrames(fs: seq<Frame>): seq<byte>
    requires AllFramesFit(fs)
  {
    Concat(FrameBytes(fs))
  }

  function EncodeHeader(p: Packet): seq<byte>
    requires Fits(|p.frames|)
  {
    WordFits(p.sequence);
    WordFits(p.prepareAmount);
    FitsInEight(|p.frames|);
    [VERSION] + [p.ilpPacketType] + EncodeUInt(p.sequence) + EncodeUInt(p.prepareAmount) + EncodeUInt(|p.frames|)
  }

  function EncodePacket(p: Packet): seq<byte>
    requires PacketFits(p)
  {
    EncodeHeader(p) + EncodeFrames(p.frames)
  }

  /** Frames of unknown type are dropped. */
  function Known(fs: seq<Option<Frame>>): seq<Frame> {
    if fs == [] then [] else (if fs[0].Some? then [fs[0].value] else []) + Known(fs[1..])
  }

  function FrameDecoder(bs: seq<byte>): Decoder<Option<Frame>> {
    p => DecodeFrame(bs, p)
  }

  function FrameDecoders(n: nat, bs: seq<byte>): seq<Decoder<Option<Frame>>> {
    seq<Decoder<Option<Frame>>>(n, _ => FrameDecoder(bs))
  }

  function DecodeFrames(bs: seq<byte>, at: nat, n: nat): Option<seq<Frame>> {
    var r := DecodeAll(FrameDecoders(n, bs), at);
    if r.None? then None else Some(Known(r.value.0))
  }

  datatype Header = Header(ilpPacketType: byte, sequence: u64, amount: u64, frames: nat, end: nat)

  function DecodeHeader(bs: seq<byte>): (r: Option<Header>)
    ensures r.Some? ==> r.value.end <= |bs|
  {
    WordFits(0);
    if |bs| < 2 || bs[0] != VERSION then None
    else
      match DecodeUInt(bs, 2)
      case None => None
      case Some((sequence, afterSequence)) =>
        match DecodeUInt(bs, afterSequence)
        case None => None
        case Some((amount, afterAmount)) =>
          match DecodeNumber(bs, afterAmount)
          case None => None
          case Some((frames, end)) => Some(Header(bs[1], sequence, amount, frames, end))
  }

  function DecodePacket(bs: seq<byte>): Option<Packet> {
    match DecodeHeader(bs)
    case None => None
    case Some(h) =>
      match DecodeFrames(bs, h.end, h.frames)
      case None => None
      case Some(frames) => Some(Packet(h.sequence, h.ilpPacketType, h.amount, frames))
  }

  function Wrapped(fs: seq<Frame>): seq<Option<Frame>> {
    seq(|fs|, i requires 0 <= i < |fs| => Some(fs[i]))
  }

  lemma {:induction false} KnownWrapped(fs: seq<Frame>)
    ensures Known(Wrapped(fs)) == fs
  {
    if fs != [] {
      KnownWrapped(fs[1..]);
      assert Wrapped(fs)[1..] == Wrapped(fs[1..]);
    }
  }

  lemma {:induction false} FramesRoundTrip(bs: seq<byte>, at: nat, fs: seq<Frame>)
    requires AllFramesFit(fs) && At(bs, at, EncodeFrames(fs))
    ensures DecodeFrames(bs, at, |fs|) == Some(fs)
  {
    var ds, es, xs := FrameDecoders(|fs|, bs), FrameBytes(fs), Wrapped(fs);
    forall i | 0 <= i < |fs| ensures Reads(ds[i], bs, es[i], xs[i]) {
      FrameRoundTrip(bs, fs[i]);
    }
    DecodeAllReads(ds, bs, at, es, xs);
    KnownWrapped(fs);
  }

  lemma {:induction false} HeaderRoundTrip(p: Packet, bs: seq<byte>)
    requires Fits(|p.frames|) && At(bs, 0, EncodeHeader(p))
    ensures DecodeHeader(bs)
            == Some(Header(p.ilpPacketType, p.sequence, p.prepareAmount, |p.frames|, |EncodeHeader(p)|))
  {
    WordFits(p.sequence);
    WordFits(p.prepareAmount);
    FitsInEight(|p.frames|);
    HeaderReads(bs, p.ilpPacketType, p.sequence, p.prepareAmount, |p.frames|, EncodeHeader(p));
  }

  lemma {:induction false} HeaderReads(bs: seq<byte>, t: byte, sequence: u64, amount: u64, frames: nat, e: seq<byte>)
    requires Fits(frames)
    requires sequence < Pow256(8) && amount < Pow256(8) && frames < Pow256(8) && At(bs, 0, e)
    requires e == [VERSION] + [t] + EncodeUInt(sequence) + EncodeUInt(amount) + EncodeUInt(frames)
    ensures DecodeHeader(bs) == Some(Header(t, sequence, amount, frames, |e|))
  {
    var s, a, n := EncodeUInt(sequence), EncodeUInt(amount), EncodeUInt(frames);
    var i, j := 2 + |s|, 2 + |s| + |a|;
    HeaderParts(bs, VERSION, t, s, a, n);
    HeaderValues(bs, sequence, i, amount, j, frames);
    HeaderFromFields(bs, sequence, i, amount, j, frames, |e|);
  }

  lemma {:induction false} HeaderValues(bs: seq<byte>, sequence: nat, i: nat, amount: nat, j: nat, frames: nat)
    requires sequence < Pow256(8) && amount < Pow256(8) && frames < Pow256(8) && Fits(frames)
    requires At(bs, 2, EncodeUInt(sequence)) && i == 2 + |EncodeUInt(sequence)|
    requires At(bs, i, EncodeUInt(amount)) && j == i + |EncodeUInt(amount)|
    requires At(bs, j, EncodeUInt(frames))
    ensures DecodeUInt(bs, 2) == Some((sequence, i)) && DecodeUInt(bs, i) == Some((amount, j))
    ensures DecodeNumber(bs, j) == Some((frames, j + |EncodeUInt(frames)|))
  {
    UIntRoundTrip(bs, 2, sequence);
    UIntRoundTrip(bs, i, amount);
    NumberRoundTrip(bs, j, frames);
  }

  lemma {:induction false} HeaderParts(bs: seq<byte>, v: byte, t: byte, s: seq<byte>, a: seq<byte>, n: seq<byte>)
    requires At(bs, 0, [v] + [t] + s + a + n)
    ensures |bs| >= 2 && bs[0] == v && bs[1] == t
    ensures At(bs, 2, s) && At(bs, 2 + |s|, a) && At(bs, 2 + |s| + |a|, n)
  {
    AtConcat(bs, 0, [v] + [t] + s + a, n);
    AtConcat(bs, 0, [v] + [t] + s, a);
    AtConcat(bs, 0, [v] + [t], s);
    AtHead(bs, 0, v, [t]);
    AtHead(bs, 1, t, []);
  }

  lemma HeaderFromFields(bs: seq<byte>, sequence: u64, i: nat, amount: u64, j: nat, frames: nat, end: nat)
    requires |bs| >= 2 && bs[0] == VERSION && DecodeUInt(bs, 2) == Some((sequence, i))
    requires DecodeUInt(bs, i) == Some((amount, j)) && DecodeNumber(bs, j) == Some((frames, end))
    ensures DecodeHeader(bs) == Some(Header(bs[1], sequence, amount, frames, end))
  {
  }

  /** A serialized packet, with any padding after it, reads back as the same packet. */
  lemma {:induction false} PacketRoundTrip(p: Packet, padding: seq<byte>)
    requires PacketFits(p)
    ensures DecodePacket(EncodePacket(p) + padding) == Some(p)
  {
    var bs := EncodePacket(p) + padding;
    Padded(EncodeHeader(p), EncodeFrames(p.frames), padding);
    HeaderRoundTrip(p, bs);
    FramesRoundTrip(bs, |EncodeHeader(p)|, p.frames);
    PacketFromParts(bs, p, |EncodeHeader(p)|);
  }

  lemma {:induction false} Padded(header: seq<byte>, frames: seq<byte>, padding: seq<byte>)
    ensures At(header + frames + padding, 0, header) && At(header + frames + padding, |header|, frames)
  {
    var bs := header + frames + padding;
    AtSlice(bs, 0, header + frames);
    AtConcat(bs, 0, header, frames);
  }

  lemma {:induction false} PacketFromParts(bs: seq<byte>, p: Packet, end: nat)
    requires DecodeHeader(bs) == Some(Header(p.ilpPacketType, p.sequence, p.prepareAmount, |p.frames|, end))
    requires DecodeFrames(bs, end, |p.frames|) == Some(p.frames)
    ensures DecodePacket(bs) == Some(p)
  {
  }
}
