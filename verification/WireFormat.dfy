/**
 * The bytes on the wire, spelled out frame by frame and apart from the tables that drive the codec
 * (packages/ilp-protocol-stream/src/packet.ts).
 */
module WireFormat {
  import Amounts
  import opened Basics
  import opened Oer
  import opened Long64
  import opened StreamPackets

  // ---- integers ----

  /** The most significant byte comes first. */
  lemma {:induction false} BytesAreBigEndian(v: nat, n: nat, i: nat)
    requires i < n
    ensures ToBytes(v, n)[i] == v / Pow256(n - 1 - i) % 256
  {
    if i < n - 1 {
      BytesAreBigEndian(v / 256, n - 1, i);
      DivideTwice(v, Pow256(n - 2 - i));
    }
  }

  lemma DivideTwice(v: nat, d: nat)
    requires d > 0
    ensures v / 256 / d == v / (256 * d)
  {
    var q, r := v / 256 / d, v / 256 % d;
    assert v / 256 == q * d + r;
    assert v == 256 * (q * d + r) + v % 256;
    assert 256 * (q * d) == q * (256 * d);
    var rest := 256 * r + v % 256;
    assert 256 * (r + 1) <= 256 * d;
    assert 0 <= rest < 256 * d && v == q * (256 * d) + rest;
    QuotientIs(v, 256 * d, q, rest);
  }

  lemma QuotientIs(v: nat, d: nat, q: nat, r: nat)
    requires r < d && v == q * d + r
    ensures v / d == q
  {
    Amounts.DivFloorAdjoint(q, v, d);
    Amounts.DivFloorAdjoint(q + 1, v, d);
    assert (q + 1) * d == q * d + d;
  }

  /** Short lengths are one byte; longer ones announce how many bytes they take. */
  lemma PrefixLayout(n: nat)
    requires n < Pow256(8)
    ensures n < 128 ==> EncodeLength(n) == [n]
    ensures 128 <= n < 256 ==> EncodeLength(n) == [0x81, n]
    ensures n >= 128 ==> 1 <= Size(n) <= 8 && EncodeLength(n) == [0x80 + Size(n)] + ToBytes(n, Size(n))
  {
    SizeIsLeast(n, 8);
    if 128 <= n < 256 { assert ToBytes(n, 1) == ToBytes(n / 256, 0) + [n % 256]; }
  }

  /** Any octet string of one to eight bytes is an integer, also with leading zeros; a longer one is too large. */
  lemma {:induction false} OctetsAsInteger(bs: seq<byte>, at: nat, data: seq<byte>)
    requires Fits(|data|)
    requires |data| < Pow256(8) && At(bs, at, EncodeOctets(data))
    ensures var next := at + |EncodeOctets(data)|;
            && DecodeUInt(bs, at) == (if 1 <= |data| <= 8 then Some((FromBytes(data), next)) else None)
            && DecodeSaturating(bs, at) == (if |data| > 8 then Some((Pow256(8) - 1, next)) else DecodeUInt(bs, at))
  {
    OctetsRoundTrip(bs, at, data);
  }

  // ---- frames ----

  function Number(v: u64): seq<byte> {
    WordFits(v);
    EncodeUInt(v)
  }

  function Text(data: seq<byte>): seq<byte>
    requires Fits(|data|)
  {
    FitsInEight(|data|);
    EncodeOctets(data)
  }

  ghost predicate TextsFit(f: Frame) {
    match f
    case ConnectionClose(_, message) => Fits(|message|)
    case ConnectionNewAddress(account) => Fits(|account|)
    case ConnectionAssetDetails(code, _) => Fits(|code|)
    case StreamClose(_, _, message) => Fits(|message|)
    case StreamData(_, _, data) => Fits(|data|)
    case StreamReceipt(_, receipt) => Fits(|receipt|)
    case _ => true
  }

  /** The type byte and the contents of each frame. */
  function Layout(f: Frame): (byte, seq<byte>)
    requires TextsFit(f)
  {
    match f
    case ConnectionClose(code, message) => (1, [code] + Text(message))
    case ConnectionNewAddress(account) => (2, Text(account))
    case ConnectionMaxData(maxOffset) => (3, Number(maxOffset))
    case ConnectionDataBlocked(maxOffset) => (4, Number(maxOffset))
    case ConnectionMaxStreamId(id) => (5, Number(id))
    case ConnectionStreamIdBlocked(id) => (6, Number(id))
    case ConnectionAssetDetails(code, scale) => (7, Text(code) + [scale])
    case StreamClose(id, code, message) => (16, Number(id) + [code] + Text(message))
    case StreamMoney(id, shares) => (17, Number(id) + Number(shares))
    case StreamMaxMoney(id, receiveMax, totalReceived) => (18, Number(id) + Number(receiveMax) + Number(totalReceived))
    case StreamMoneyBlocked(id, sendMax, totalSent) => (19, Number(id) + Number(sendMax) + Number(totalSent))
    case StreamData(id, offset, data) => (20, Number(id) + Number(offset) + Text(data))
    case StreamMaxData(id, maxOffset) => (21, Number(id) + Number(maxOffset))
    case StreamDataBlocked(id, maxOffset) => (22, Number(id) + Number(maxOffset))
    case StreamReceipt(id, receipt) => (23, Number(id) + Text(receipt))
  }

  lemma OneField(x: Field)
    requires FieldFits(x)
    ensures EncodeFields([x]) == EncodeField(x)
  {
    var es := FieldBytes([x]);
    assert es == [] + [EncodeField(x)];
    ConcatSnoc([], EncodeField(x));
  }

  lemma TwoFields(x: Field, y: Field)
    requires FieldFits(x) && FieldFits(y)
    ensures EncodeFields([x, y]) == EncodeField(x) + EncodeField(y)
  {
    var es := FieldBytes([x, y]);
    assert es == [EncodeField(x)] + [EncodeField(y)];
    ConcatSnoc([EncodeField(x)], EncodeField(y));
    ConcatSnoc([], EncodeField(x));
    assert [] + [EncodeField(x)] == [EncodeField(x)];
  }

  lemma ThreeFields(x: Field, y: Field, z: Field)
    requires FieldFits(x) && FieldFits(y) && FieldFits(z)
    ensures EncodeFields([x, y, z]) == EncodeField(x) + EncodeField(y) + EncodeField(z)
  {
    var es := FieldBytes([x, y, z]);
    assert es == FieldBytes([x, y]) + [EncodeField(z)];
    ConcatSnoc(FieldBytes([x, y]), EncodeField(z));
    TwoFields(x, y);
  }

  lemma ContentsLayout(f: Frame)
    requires TextsFit(f)
    ensures AllFit(Fields(f)) && (TypeOf(f), EncodeFields(Fields(f))) == Layout(f)
  {
    var fs := Fields(f);
    assert AllFit(fs);
    if |fs| == 1 {
      assert fs == [fs[0]];
      OneField(fs[0]);
    } else if |fs| == 2 {
      assert fs == [fs[0], fs[1]];
      TwoFields(fs[0], fs[1]);
    } else {
      assert fs == [fs[0], fs[1], fs[2]];
      ThreeFields(fs[0], fs[1], fs[2]);
    }
  }

  /** A frame on the wire: its type, the length of its contents and the contents, as laid out above. */
  lemma FrameLayout(f: Frame)
    requires TextsFit(f) && Fits(|Layout(f).1|)
    ensures FrameFits(f) && EncodeFrame(f) == [Layout(f).0] + Text(Layout(f).1)
  {
    ContentsLayout(f);
  }

  /** A header on the wire: version, packet type, sequence number, amount and number of frames. */
  lemma HeaderLayout(p: Packet)
    requires Fits(|p.frames|)
    ensures |p.frames| < TWO64
    ensures EncodeHeader(p)
            == [1, p.ilpPacketType] + Number(p.sequence) + Number(p.prepareAmount) + Number(|p.frames|)
  {
    WordFits(0);
    FitsInEight(|p.frames|);
    assert [VERSION] + [p.ilpPacketType] == [1, p.ilpPacketType];
  }

  // ---- what the reader makes of other bytes ----

  lemma {:induction false} SaturatedField(bs: seq<byte>, at: nat, e: seq<byte>, big: seq<byte>)
    requires Fits(|big|) && |big| > 8
    requires |big| < Pow256(8) && e == EncodeOctets(big) && At(bs, at, e)
    ensures DecodeField(KindSaturating, bs, at) == Some((UInt(MAX), at + |e|))
  {
    WordFits(0);
    OctetsAsInteger(bs, at, big);
  }

  lemma {:induction false} SaturatedReads(bs: seq<byte>, big: seq<byte>, e: seq<byte>)
    requires Fits(|big|) && |big| > 8
    requires |big| < Pow256(8) && e == EncodeOctets(big)
    ensures Reads(FieldDecoder(KindSaturating, bs), bs, e, UInt(MAX))
  {
    forall p: nat | At(bs, p, e) ensures FieldDecoder(KindSaturating, bs)(p) == Some((UInt(MAX), p + |e|)) {
      SaturatedField(bs, p, e, big);
    }
  }

  const LIMIT_KINDS: seq<Kind> := [KindUInt, KindSaturating, KindUInt]

  lemma {:induction false} LongLimitFields(id: u64, big: seq<byte>, total: u64)
    requires Fits(|big|) && |big| > 8
    ensures var contents := Number(id) + Text(big) + Number(total);
            DecodeFields(LIMIT_KINDS, contents, 0) == Some(([UInt(id), UInt(MAX), UInt(total)], |contents|))
  {
    var bs := Number(id) + Text(big) + Number(total);
    FieldReads(bs, UInt(id), KindUInt);
    FitsInEight(|big|);
    SaturatedReads(bs, big, Text(big));
    FieldReads(bs, UInt(total), KindUInt);
    ThreeRead(LIMIT_KINDS, bs, Number(id), Text(big), Number(total), UInt(id), UInt(MAX), UInt(total));
  }

  lemma {:induction false} ThreeRead(ks: seq<Kind>, bs: seq<byte>, e0: seq<byte>, e1: seq<byte>, e2: seq<byte>,
                                     x: Field, y: Field, z: Field)
    requires |ks| == 3 && bs == e0 + e1 + e2
    requires Reads(FieldDecoder(ks[0], bs), bs, e0, x)
    requires Reads(FieldDecoder(ks[1], bs), bs, e1, y)
    requires Reads(FieldDecoder(ks[2], bs), bs, e2, z)
    ensures DecodeFields(ks, bs, 0) == Some(([x, y, z], |bs|))
  {
    var es := [e0, e1, e2];
    ThreeParts(e0, e1, e2);
    AtSlice(bs, 0, bs);
    DecodeAllReads(FieldDecoders(ks, bs), bs, 0, es, [x, y, z]);
  }

  lemma ThreeParts(x: seq<byte>, y: seq<byte>, z: seq<byte>)
    ensures Concat([x, y, z]) == x + y + z
  {
    ConcatSnoc([x, y], z);
    ConcatSnoc([x], y);
    ConcatSnoc([], x);
    assert [x, y] + [z] == [x, y, z];
    assert [x] + [y] == [x, y];
    assert [] + [x] == [x];
  }

  /** A limit of more than 64 bits is read as the largest one, in the frames that state limits. */
  lemma {:induction false} LongLimitsSaturate(id: u64, big: seq<byte>, total: u64)
    requires Fits(|big|) && |big| > 8
    ensures var contents := Number(id) + Text(big) + Number(total);
            && FromContents(18, contents) == Some(Some(StreamMaxMoney(id, MAX, total)))
            && FromContents(19, contents) == Some(Some(StreamMoneyBlocked(id, MAX, total)))
  {
    LongLimitFields(id, big, total);
    LimitFrames(Number(id) + Text(big) + Number(total), id, MAX, total);
  }

  lemma LimitFrames(contents: seq<byte>, id: u64, limit: u64, total: u64)
    requires var r := DecodeFields(LIMIT_KINDS, contents, 0);
             r.Some? && r.value.0 == [UInt(id), UInt(limit), UInt(total)]
    ensures FromContents(18, contents) == Some(Some(StreamMaxMoney(id, limit, total)))
    ensures FromContents(19, contents) == Some(Some(StreamMoneyBlocked(id, limit, total)))
  {
  }

  /** A frame of a type that is not known leaves no trace, and does not disturb the frames around it. */
  lemma {:induction false} UnknownFrameIsSkipped(bs: seq<byte>, t: byte, contents: seq<byte>)
    requires KindsOf(t).None? && Fits(|contents|)
    ensures Reads(FrameDecoder(bs), bs, [t] + Text(contents), None)
  {
    FitsInEight(|contents|);
    FrameReads(bs, t, contents, [t] + Text(contents), None);
  }

  lemma KnownTypes(t: byte)
    ensures KindsOf(t).Some? <==> 1 <= t <= 7 || 16 <= t <= 23
  {
  }

  /** Frames, known or not, one after the other: the packet keeps the known ones in order. */
  lemma {:induction false} KnownFramesAreKept(bs: seq<byte>, at: nat, es: seq<seq<byte>>, xs: seq<Option<Frame>>)
    requires |es| == |xs| && At(bs, at, Concat(es))
    requires forall i :: 0 <= i < |es| ==> Reads(FrameDecoder(bs), bs, es[i], xs[i])
    ensures DecodeFrames(bs, at, |es|) == Some(Known(xs))
  {
    DecodeAllReads(FrameDecoders(|es|, bs), bs, at, es, xs);
  }

  /** Only packets of this version are read. */
  lemma OtherVersionsAreRefused(bs: seq<byte>)
    ensures DecodePacket(bs).Some? ==> |bs| >= 2 && bs[0] == 1 && DecodePacket(bs).value.ilpPacketType == bs[1]
  {
  }

  // ---- a packet in full ----

  lemma {:induction false} SmallNumber(v: u64)
    requires v < 256
    ensures Number(v) == [1, v]
  {
    WordFits(v);
    UIntShape(v);
    assert ToBytes(v, 1) == ToBytes(v / 256, 0) + [v % 256];
  }

  lemma {:induction false} MediumNumber(v: u64)
    requires 256 <= v < 65536
    ensures Number(v) == [2, v / 256, v % 256]
  {
    WordFits(v);
    UIntShape(v);
    assert Size(v) == 1 + Size(v / 256) && Size(v / 256) == 1;
    assert ToBytes(v, 2) == ToBytes(v / 256, 1) + [v % 256];
    assert ToBytes(v / 256, 1) == ToBytes(v / 256 / 256, 0) + [v / 256 % 256];
  }

  const FOOBAR: seq<byte> := [102, 111, 111, 98, 97, 114]

  lemma {:induction false} DataContents()
    ensures Fits(6) && Number(123) + Number(456) + Text(FOOBAR) == [1, 123, 2, 1, 200, 6, 102, 111, 111, 98, 97, 114]
  {
    SmallFits(6);
    SmallNumber(123);
    MediumNumber(456);
    PrefixLayout(6);
    assert Text(FOOBAR) == [6] + FOOBAR;
  }

  /** Six bytes of data for stream 123 at offset 456 (packages/ilp-protocol-stream/test/fixtures/packets.json:579). */
  lemma {:induction false} DataFrameBytes()
    ensures var f := StreamData(123, 456, FOOBAR);
            FrameFits(f) && EncodeFrame(f) == [20, 12, 1, 123, 2, 1, 200, 6, 102, 111, 111, 98, 97, 114]
  {
    DataContents();
    var contents := Number(123) + Number(456) + Text(FOOBAR);
    ShortFrame(StreamData(123, 456, FOOBAR), 20, contents);
  }

  lemma {:induction false} ShortFrame(f: Frame, t: byte, contents: seq<byte>)
    requires TextsFit(f) && Layout(f) == (t, contents) && |contents| < 128
    ensures FrameFits(f) && EncodeFrame(f) == [t] + ([|contents|] + contents)
  {
    ShortFits(|contents|);
    PrefixLayout(|contents|);
    FrameLayout(f);
  }

  lemma ShortFits(n: nat)
    requires n < 128
    ensures Fits(n) && n < Pow256(8)
  {
    Powers();
  }
}
