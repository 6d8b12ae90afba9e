/**
 * The canonical octet encoding of unsigned integers and octet strings, as functions on byte sequences
 * (packages/oer-utils/src/lib/writer.ts, reader.ts and util.ts).
 * Length determinants follow clause 8.6 of ITU-T Rec. X.696.
 */
module Oer {
  import opened Basics

  const MAX_SAFE_BYTES: nat := 6

  /** The bytes `e` stand in `bs` at position `at`. */
  predicate At(bs: seq<byte>, at: nat, e: seq<byte>)
    decreases e
  {
    if e == [] then at <= |bs| else at < |bs| && bs[at] == e[0] && At(bs, at + 1, e[1..])
  }

  lemma {:induction false} AtSlice(bs: seq<byte>, at: nat, e: seq<byte>)
    ensures At(bs, at, e) <==> at + |e| <= |bs| && bs[at..at + |e|] == e
    decreases e
  {
    if e != [] {
      AtSlice(bs, at + 1, e[1..]);
      if at + |e| <= |bs| {
        var slice := bs[at..at + |e|];
        assert slice == [bs[at]] + bs[at + 1..at + |e|];
        assert e == [e[0]] + e[1..];
      }
    }
  }

  lemma {:induction false} AtConcat(bs: seq<byte>, at: nat, x: seq<byte>, y: seq<byte>)
    requires At(bs, at, x + y)
    ensures At(bs, at, x) && At(bs, at + |x|, y)
    ensures at + |x| + |y| <= |bs|
    decreases x
  {
    AtSlice(bs, at, x + y);
    if x == [] {
      assert x + y == y;
    } else {
      assert (x + y)[1..] == x[1..] + y;
      AtConcat(bs, at + 1, x[1..], y);
    }
  }

  lemma AtHead(bs: seq<byte>, at: nat, head: byte, rest: seq<byte>)
    requires At(bs, at, [head] + rest)
    ensures at < |bs| && bs[at] == head && At(bs, at + 1, rest)
  {
  }

  function Pow256(n: nat): (p: nat)
    ensures p > 0
  {
    if n == 0 then 1 else 256 * Pow256(n - 1)
  }

  // ---- several things after one another ----

  /** Reads something at a position and tells where it ends. */
  type Decoder<!T> = nat -> Option<(T, nat)>

  function DecodeAll<T>(ds: seq<Decoder<T>>, at: nat): (r: Option<(seq<T>, nat)>)
    ensures r.Some? ==> |r.value.0| == |ds|
    decreases |ds|
  {
    if ds == [] then Some(([], at))
    else
      match ds[0](at)
      case None => None
      case Some((x, next)) =>
        match DecodeAll(ds[1..], next)
        case None => None
        case Some((rest, end)) => Some(([x] + rest, end))
  }

  function Concat(es: seq<seq<byte>>): seq<byte> {
    if es == [] then [] else es[0] + Concat(es[1..])
  }

  lemma {:induction false} ConcatSnoc(es: seq<seq<byte>>, e: seq<byte>)
    ensures Concat(es + [e]) == Concat(es) + e
  {
    if es == [] {
      assert [] + [e] == [e];
    } else {
      ConcatSnoc(es[1..], e);
      assert (es + [e])[1..] == es[1..] + [e];
      assert es[0] + (Concat(es[1..]) + e) == es[0] + Concat(es[1..]) + e;
    }
  }

  /** Wherever `e` stands in `bs`, the decoder reads `x` from it and stops at its end. */
  ghost predicate Reads<T(!new)>(d: Decoder<T>, bs: seq<byte>, e: seq<byte>, x: T) {
    forall p: nat :: At(bs, p, e) ==> d(p) == Some((x, p + |e|))
  }

  /** Things written one after the other are read one after the other. */
  lemma {:induction false} DecodeAllReads<T(!new)>(ds: seq<Decoder<T>>, bs: seq<byte>, at: nat,
                                                   es: seq<seq<byte>>, xs: seq<T>)
    requires |ds| == |es| == |xs| && At(bs, at, Concat(es))
    requires forall i :: 0 <= i < |ds| ==> Reads(ds[i], bs, es[i], xs[i])
    ensures DecodeAll(ds, at) == Some((xs, at + |Concat(es)|))
    decreases |ds|
  {
    if ds != [] {
      AtConcat(bs, at, es[0], Concat(es[1..]));
      assert Reads(ds[0], bs, es[0], xs[0]);
      DecodeAllReads(ds[1..], bs, at + |es[0]|, es[1..], xs[1..]);
      assert [xs[0]] + xs[1..] == xs;
    }
  }

  /** Each result comes from its own decoder. */
  lemma {:induction false} DecodeAllPointwise<T>(ds: seq<Decoder<T>>, at: nat, i: nat) returns (p: nat)
    requires DecodeAll(ds, at).Some? && i < |ds|
    ensures ds[i](p).Some? && ds[i](p).value.0 == DecodeAll(ds, at).value.0[i]
    decreases |ds|
  {
    if i == 0 {
      p := at;
    } else {
      p := DecodeAllPointwise(ds[1..], ds[0](at).value.1, i - 1);
    }
  }

  // ---- big-endian integers ----

  function ToBytes(v: nat, n: nat): (bs: seq<byte>)
    ensures |bs| == n
  {
    if n == 0 then [] else ToBytes(v / 256, n - 1) + [v % 256]
  }

  function FromBytes(bs: seq<byte>): nat {
    if bs == [] then 0 else 256 * FromBytes(bs[..|bs| - 1]) + bs[|bs| - 1]
  }

  lemma {:induction false} FromToBytes(v: nat, n: nat)
    requires v < Pow256(n)
    ensures FromBytes(ToBytes(v, n)) == v
  {
    if n > 0 {
      FromToBytes(v / 256, n - 1);
      assert ToBytes(v, n)[..n - 1] == ToBytes(v / 256, n - 1);
    }
  }

  lemma {:induction false} ToFromBytes(bs: seq<byte>)
    ensures FromBytes(bs) < Pow256(|bs|)
    ensures ToBytes(FromBytes(bs), |bs|) == bs
  {
    if bs != [] {
      var init := bs[..|bs| - 1];
      ToFromBytes(init);
      assert FromBytes(bs) / 256 == FromBytes(init);
    }
  }

  /**
   * The last `n` bytes of the eight of a 64-bit value. The code slices from `8 - n`; beyond eight that is
   * a negative index, which counts from the end.
   */
  function LongToBuffer(v: nat, n: nat): seq<byte>
    requires v < Pow256(8)
  {
    ToBytes(v, 8)[if n <= 8 then 8 - n else if n <= 16 then 16 - n else 0..]
  }

  lemma {:induction false} LastBytes(v: nat, n: nat, m: nat)
    requires m <= n
    ensures ToBytes(v, n)[n - m..] == ToBytes(v, m)
  {
    if m > 0 {
      LastBytes(v / 256, n - 1, m - 1);
      assert ToBytes(v, n)[n - m..] == ToBytes(v / 256, n - 1)[n - m..] + [v % 256];
    }
  }

  /** As many bytes as asked, and those of the value, if and only if at most eight are asked for. */
  lemma {:induction false} LongToBufferIsExactIff(v: nat, n: nat)
    requires v < Pow256(8)
    ensures LongToBuffer(v, n) == ToBytes(v, n) <==> n <= 8
  {
    if n <= 8 { LastBytes(v, 8, n); }
  }

  /** Least number of bytes that hold the value, at least one. */
  function Size(v: nat): (n: nat)
    ensures n >= 1
  {
    if v < 256 then 1 else 1 + Size(v / 256)
  }

  lemma {:induction false} SizeIsLeast(v: nat, n: nat)
    requires n >= 1
    ensures Size(v) <= n <==> v < Pow256(n)
  {
    if n == 1 {
      assert Pow256(1) == 256;
    } else {
      SizeIsLeast(v / 256, n - 1);
    }
  }

  lemma SizeBounds(v: nat)
    ensures v < Pow256(Size(v))
    ensures Size(v) > 1 ==> Pow256(Size(v) - 1) <= v
  {
  }

  lemma Powers()
    ensures Pow256(1) == 0x100 && Pow256(2) == 0x1_0000 && Pow256(3) == 0x100_0000 && Pow256(4) == 0x1_0000_0000
    ensures Pow256(5) == 0x100_0000_0000 && Pow256(6) == 0x1_0000_0000_0000
    ensures Pow256(7) == 0x100_0000_0000_0000 && Pow256(8) == 0x1_0000_0000_0000_0000
  {
  }

  // ---- length prefixes ----

  /** A byte that tells the number of length bytes, and those bytes. */
  function LongForm(digits: seq<byte>): (bs: seq<byte>)
    requires |digits| < 128
    ensures |bs| == 1 + |digits|
  {
    [128 + |digits|] + digits
  }

  function EncodeLength(n: nat): seq<byte>
    requires n < Pow256(8)
  {
    SizeIsLeast(n, 8);
    if n <= 127 then [n] else LongForm(ToBytes(n, Size(n)))
  }

  /** `1 << (8 * n)` on 32-bit integers: shift counts are taken modulo 32, so whole bytes modulo four. */
  function ShiftedOne(n: nat): nat {
    match n % 4
    case 0 => 1
    case 1 => 0x100
    case 2 => 0x1_0000
    case _ => 0x100_0000
  }

  /** The smallest length the reader takes from a prefix of `k` length bytes. */
  function MinLength(k: nat): nat
    requires k > 0
  {
    if ShiftedOne(k - 1) > 128 then ShiftedOne(k - 1) else 128
  }

  /** The length and the position after the prefix. */
  function DecodeLength(bs: seq<byte>, at: nat): (r: Option<(nat, nat)>)
    ensures r.Some? ==> at < r.value.1 <= |bs|
  {
    if at >= |bs| then None
    else if bs[at] < 128 then Some((bs[at], at + 1))
    else
      var k := bs[at] - 128;
      if k < 1 || MAX_SAFE_BYTES < k || at + 1 + k > |bs| then None
      else
        var length := FromBytes(bs[at + 1..at + 1 + k]);
        if length < MinLength(k) then None else Some((length, at + 1 + k))
  }

  lemma MinLengths()
    ensures MinLength(1) == 128 && MinLength(2) == 0x100 && MinLength(3) == 0x1_0000 && MinLength(4) == 0x100_0000
    ensures MinLength(5) == 128 && MinLength(6) == 0x100
  {
  }

  /** The largest length a prefix may state: six length bytes. */
  ghost predicate Fits(n: nat) {
    n < Pow256(6)
  }

  lemma EncodeLengthSize(n: nat)
    requires Fits(n)
    ensures n < Pow256(8)
    ensures n > 127 ==> 1 <= Size(n) <= 6 && MinLength(Size(n)) <= n
  {
    Powers();
    MinLengths();
    SizeIsLeast(n, 6);
    SizeBounds(n);
  }

  lemma {:induction false} LongFormDecodes(bs: seq<byte>, at: nat, digits: seq<byte>)
    requires 1 <= |digits| <= 6 && At(bs, at, LongForm(digits)) && FromBytes(digits) >= MinLength(|digits|)
    ensures DecodeLength(bs, at) == Some((FromBytes(digits), at + 1 + |digits|))
  {
    AtHead(bs, at, 128 + |digits|, digits);
    AtSlice(bs, at + 1, digits);
  }

  /** Reading a written prefix gives back the length, wherever it stands. */
  lemma {:induction false} LengthRoundTrip(bs: seq<byte>, at: nat, n: nat)
    requires Fits(n)
    requires n < Pow256(8) && At(bs, at, EncodeLength(n))
    ensures DecodeLength(bs, at) == Some((n, at + |EncodeLength(n)|))
  {
    EncodeLengthSize(n);
    if n > 127 {
      SizeBounds(n);
      FromToBytes(n, Size(n));
      LongFormDecodes(bs, at, ToBytes(n, Size(n)));
    } else {
      AtHead(bs, at, n, []);
    }
  }

  /** An accepted prefix is the writer's unless it has five or six length bytes and a length too small for them. */
  lemma {:induction false} AcceptedPrefixCanonicalIff(bs: seq<byte>, at: nat)
    requires DecodeLength(bs, at).Some?
    ensures var (n, next) := DecodeLength(bs, at).value;
            && n < Pow256(8)
            && (bs[at..next] == EncodeLength(n) <==> bs[at] <= 128 + 4 || n >= Pow256(bs[at] - 128 - 1))
  {
    var (n, next) := DecodeLength(bs, at).value;
    if bs[at] < 128 {
      ShortFormIsCanonical(n);
      assert bs[at..next] == [bs[at]];
    } else {
      var digits := bs[at + 1..next];
      assert bs[at..next] == LongForm(digits);
      AcceptedLongForm(digits, n);
    }
  }

  lemma ShortFormIsCanonical(n: nat)
    requires n < 128
    ensures n < Pow256(8) && EncodeLength(n) == [n]
  {
    Powers();
  }

  lemma {:induction false} AcceptedLongForm(digits: seq<byte>, n: nat)
    requires 1 <= |digits| <= 6 && n == FromBytes(digits) && n >= MinLength(|digits|)
    ensures n < Pow256(8)
    ensures LongForm(digits) == EncodeLength(n) <==> |digits| <= 4 || n >= Pow256(|digits| - 1)
  {
    ToFromBytes(digits);
    MinLengthIsCanonical(n, |digits|);
    LongFormCanonicalIff(digits, n);
  }

  lemma SizeIsExactly(n: nat, k: nat)
    requires 1 <= k && n < Pow256(k)
    ensures Size(n) == k <==> k == 1 || n >= Pow256(k - 1)
  {
    SizeIsLeast(n, k);
    if k > 1 { SizeIsLeast(n, k - 1); }
  }

  lemma MinLengthIsCanonical(n: nat, k: nat)
    requires 1 <= k <= 6 && n >= MinLength(k) && n < Pow256(k)
    ensures 128 <= n < Pow256(8)
    ensures k <= 4 ==> k == 1 || n >= Pow256(k - 1)
  {
  }

  lemma LongFormsEqualIff(xs: seq<byte>, ys: seq<byte>)
    requires |xs| < 128 && |ys| < 128
    ensures LongForm(xs) == LongForm(ys) <==> xs == ys
  {
    if LongForm(xs) == LongForm(ys) {
      assert |xs| == |ys|;
      assert LongForm(xs)[1..] == xs && LongForm(ys)[1..] == ys;
    }
  }

  lemma {:induction false} LongFormCanonicalIff(digits: seq<byte>, n: nat)
    requires 1 <= |digits| <= 6 && n == FromBytes(digits) && 128 <= n < Pow256(8) && n < Pow256(|digits|)
    requires |digits| <= 4 ==> |digits| == 1 || n >= Pow256(|digits| - 1)
    ensures LongForm(digits) == EncodeLength(n) <==> |digits| <= 4 || n >= Pow256(|digits| - 1)
  {
    SizeIsExactly(n, |digits|);
    SizeIsLeast(n, 8);
    ToFromBytes(digits);
    LongFormsEqualIff(digits, ToBytes(n, Size(n)));
  }

  /** With at most four length bytes, equal lengths have equal prefixes. */
  lemma ShortPrefixesAreUnique(xs: seq<byte>, i: nat, ys: seq<byte>, j: nat)
    requires DecodeLength(xs, i).Some? && DecodeLength(ys, j).Some?
    requires xs[i] <= 128 + 4 && ys[j] <= 128 + 4
    requires DecodeLength(xs, i).value.0 == DecodeLength(ys, j).value.0
    ensures xs[i..DecodeLength(xs, i).value.1] == ys[j..DecodeLength(ys, j).value.1]
  {
    AcceptedPrefixCanonicalIff(xs, i);
    AcceptedPrefixCanonicalIff(ys, j);
  }

  /** Five length bytes for a length of 128: the shift wraps around and the prefix is accepted. */
  lemma LongPrefixIsNotCanonical()
    ensures DecodeLength([133, 0, 0, 0, 0, 128], 0) == Some((128, 6))
    ensures EncodeLength(128) == [129, 128]
  {
    var bs: seq<byte> := [133, 0, 0, 0, 0, 128];
    MinLengths();
    Powers();
    assert ToBytes(128, 5) == [0, 0, 0, 0, 128] == bs[1..6];
    FromToBytes(128, 5);
    assert ToBytes(128, 1) == [128];
  }

  // ---- octet strings and integers ----

  function EncodeOctets(data: seq<byte>): seq<byte>
    requires |data| < Pow256(8)
  {
    EncodeLength(|data|) + data
  }

  function DecodeOctets(bs: seq<byte>, at: nat): (r: Option<(seq<byte>, nat)>)
    ensures r.Some? ==> at < r.value.1 <= |bs|
  {
    match DecodeLength(bs, at)
    case None => None
    case Some((length, from)) => if from + length > |bs| then None else Some((bs[from..from + length], from + length))
  }

  lemma {:induction false} OctetsRoundTrip(bs: seq<byte>, at: nat, data: seq<byte>)
    requires Fits(|data|)
    requires |data| < Pow256(8) && At(bs, at, EncodeOctets(data))
    ensures DecodeOctets(bs, at) == Some((data, at + |EncodeOctets(data)|))
  {
    AtConcat(bs, at, EncodeLength(|data|), data);
    LengthRoundTrip(bs, at, |data|);
    OctetsAfterLength(bs, at, at + |EncodeLength(|data|)|, data);
  }

  lemma OctetsAfterLength(bs: seq<byte>, at: nat, from: nat, data: seq<byte>)
    requires DecodeLength(bs, at) == Some((|data|, from)) && At(bs, from, data)
    ensures DecodeOctets(bs, at) == Some((data, from + |data|))
  {
    AtSlice(bs, from, data);
  }

  function EncodeUInt(v: nat): seq<byte>
    requires v < Pow256(8)
  {
    SizeIsLeast(v, 8);
    Powers();
    EncodeOctets(ToBytes(v, Size(v)))
  }

  /** As a 64-bit value: one to eight bytes. */
  function DecodeUInt(bs: seq<byte>, at: nat): (r: Option<(nat, nat)>)
    ensures r.Some? ==> at < r.value.1 <= |bs| && r.value.0 < Pow256(8)
  {
    match DecodeOctets(bs, at)
    case None => None
    case Some((data, next)) =>
      if |data| == 0 || |data| > 8 then None
      else
        FromBytesFits(data);
        Some((FromBytes(data), next))
  }

  lemma {:induction false} FromBytesFits(bs: seq<byte>)
    requires |bs| <= 8
    ensures FromBytes(bs) < Pow256(8)
  {
    ToFromBytes(bs);
    Powers();
  }

  /** As a number: the length byte is taken as it is, from one to six. */
  function DecodeNumber(bs: seq<byte>, at: nat): (r: Option<(nat, nat)>)
    ensures r.Some? ==> at < r.value.1 <= |bs|
  {
    if at >= |bs| || bs[at] < 1 || MAX_SAFE_BYTES < bs[at] || at + 1 + bs[at] > |bs| then None
    else Some((FromBytes(bs[at + 1..at + 1 + bs[at]]), at + 1 + bs[at]))
  }

  /** As a 64-bit value, with the maximum for anything longer than eight bytes. */
  function DecodeSaturating(bs: seq<byte>, at: nat): (r: Option<(nat, nat)>)
    ensures r.Some? ==> at < r.value.1 <= |bs| && r.value.0 < Pow256(8)
  {
    match DecodeOctets(bs, at)
    case None => None
    case Some((data, next)) => if |data| > 8 then Some((Pow256(8) - 1, next)) else DecodeUInt(bs, at)
  }

  lemma UIntShape(v: nat)
    requires v < Pow256(8)
    ensures 1 <= Size(v) <= 8 && FromBytes(ToBytes(v, Size(v))) == v
    ensures EncodeUInt(v) == [Size(v)] + ToBytes(v, Size(v))
  {
    SizeIsLeast(v, 8);
    SizeBounds(v);
    FromToBytes(v, Size(v));
    Powers();
  }

  lemma {:induction false} UIntRoundTrip(bs: seq<byte>, at: nat, v: nat)
    requires v < Pow256(8) && At(bs, at, EncodeUInt(v))
    ensures DecodeUInt(bs, at) == Some((v, at + |EncodeUInt(v)|))
    ensures DecodeSaturating(bs, at) == Some((v, at + |EncodeUInt(v)|))
  {
    UIntShape(v);
    var digits := ToBytes(v, Size(v));
    SmallFits(|digits|);
    OctetsRoundTrip(bs, at, digits);
    DecodeUIntOf(bs, at, digits, at + |EncodeUInt(v)|);
  }

  lemma SmallFits(n: nat)
    requires n <= 8
    ensures Fits(n) && n < Pow256(8)
  {
  }

  lemma DecodeUIntOf(bs: seq<byte>, at: nat, digits: seq<byte>, next: nat)
    requires DecodeOctets(bs, at) == Some((digits, next)) && 1 <= |digits| <= 8
    ensures DecodeUInt(bs, at) == Some((FromBytes(digits), next)) == DecodeSaturating(bs, at)
  {
  }

  lemma {:induction false} NumberRoundTrip(bs: seq<byte>, at: nat, v: nat)
    requires Fits(v)
    requires v < Pow256(8) && At(bs, at, EncodeUInt(v))
    ensures DecodeNumber(bs, at) == Some((v, at + |EncodeUInt(v)|))
  {
    UIntShape(v);
    SizeIsLeast(v, 6);
    var digits := ToBytes(v, Size(v));
    AtHead(bs, at, |digits|, digits);
    NumberAfterLength(bs, at, digits);
  }

  lemma NumberAfterLength(bs: seq<byte>, at: nat, digits: seq<byte>)
    requires at < |bs| && bs[at] == |digits| && 1 <= |digits| <= 6 && At(bs, at + 1, digits)
    ensures DecodeNumber(bs, at) == Some((FromBytes(digits), at + 1 + |digits|))
  {
    AtSlice(bs, at + 1, digits);
  }

  /** Predicted size of an octet string (packages/oer-utils/src/lib/predictor.ts:145-157). */
  function MeasureOctets(length: nat): nat {
    1 + (if length > 127 then Size(length) else 0) + length
  }

  lemma MeasuresOctets(data: seq<byte>)
    requires |data| < Pow256(8)
    ensures |EncodeOctets(data)| == MeasureOctets(|data|)
  {
  }
}
