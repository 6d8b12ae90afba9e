/** Ratios of two unsigned 64-bit integers (packages/ilp-protocol-stream/src/util/rational.ts). */
module Rational64 {
  import opened Long64

  datatype Rational = Rational(a: u64, b: divisor)

  type PositiveRational = r: Rational | 0 < r.a witness Rational(1, 1)

  function MultiplyByLong(r: Rational, value: u64): u64 {
    MultiplyDivideFloor(value, r.a, r.b)
  }

  function MultiplyByLongCeil(r: Rational, value: u64): u64 {
    MultiplyDivideCeil(value, r.a, r.b)
  }

  predicate GreaterThanOne(r: Rational) {
    r.a > r.b
  }

  /** `1 - r`, which exists for ratios of at most one. */
  function Complement(r: Rational): Rational
    requires !GreaterThanOne(r)
  {
    Rational(r.b - r.a, r.b)
  }

  function Reciprocal(r: PositiveRational): PositiveRational {
    Rational(r.b, r.a)
  }

  /** The most a packet may carry (packages/ilp-protocol-stream/src/connection.ts:1273-1281). */
  function PacketCap(rate: PositiveRational, congestionLimit: u64): u64 {
    if GreaterThanOne(rate) then MinLong(congestionLimit, MultiplyByLong(Reciprocal(rate), MAX))
    else congestionLimit
  }

  /** The minimum destination amount of a packet (packages/ilp-protocol-stream/src/connection.ts:1412-1415). */
  function PrepareAmount(rate: Rational, slippage: Rational, amount: u64): u64
    requires !GreaterThanOne(slippage)
  {
    MultiplyByLong(Complement(slippage), MultiplyByLong(rate, amount))
  }

  lemma MulOrder(x: nat, y: nat, u: nat, v: nat)
    requires x <= y && u <= v
    ensures x * u <= y * v
  {
  }

  /** Dividing by a ratio of more than one gives at most the exact quotient, for any terms. */
  lemma ReciprocalAtMost(rate: PositiveRational, value: u64)
    requires GreaterThanOne(rate)
    ensures MultiplyByLong(Reciprocal(rate), value) * rate.a <= value * rate.b
  {
    MulOrder(value, MAX, rate.b, rate.a);
    FloorAtMost(value, rate.b, rate.a);
  }

  lemma FloorAtMost(a: u64, b: u64, c: divisor)
    requires a * b <= MAX * c
    ensures MultiplyDivideFloor(a, b, c) * c <= a * b
  {
    ProductBelow(c);
    TimesIsProduct(a, b);
    TimesIsProduct(TWO64, c);
    MultiplyDivideAtMost(a, b, c);
    TimesIsProduct(MultiplyDivideFloor(a, b, c), c);
  }

  lemma ProductBelow(c: divisor)
    ensures MAX * c < TWO64 * c
  {
  }

  /** Capping the packet keeps the converted amount within 64 bits, whatever the terms of the rate. */
  lemma CapPreventsOverflow(rate: PositiveRational, limit: u64, amount: u64)
    requires amount <= PacketCap(rate, limit)
    ensures amount * rate.a <= MAX * rate.b
  {
    if GreaterThanOne(rate) {
      ReciprocalAtMost(rate, MAX);
      MulOrder(amount, MultiplyByLong(Reciprocal(rate), MAX), rate.a, rate.a);
    } else {
      MulOrder(amount, MAX, rate.a, rate.b);
    }
  }

  /** With a numerator within 2^63 the cap is the largest amount within the limit that converts to 64 bits. */
  lemma CapIsLargest(rate: PositiveRational, limit: u64, amount: u64)
    requires rate.a <= TWO63
    ensures amount <= PacketCap(rate, limit) <==> amount <= limit && amount * rate.a <= MAX * rate.b
  {
    if amount <= PacketCap(rate, limit) {
      CapPreventsOverflow(rate, limit, amount);
    } else if amount <= limit && amount * rate.a <= MAX * rate.b {
      AmountWithinCap(rate, amount);
    }
  }

  lemma AmountWithinCap(rate: PositiveRational, amount: u64)
    requires rate.a <= TWO63 && amount * rate.a <= MAX * rate.b && GreaterThanOne(rate)
    ensures amount <= MultiplyByLong(Reciprocal(rate), MAX)
  {
    MulOrder(MAX, MAX, rate.b, rate.a);
    ProductBelow(rate.a);
    MultiplyDivideExact(MAX, rate.b, rate.a);
    QuotientCovers(MultiplyDivide(MAX, rate.b, rate.a), amount, MAX * rate.b, rate.a);
  }

  lemma QuotientCovers(r: QuoRem, amount: nat, product: nat, c: divisor)
    requires r.quo * c + r.rem == product && r.rem < c && amount * c <= product
    ensures amount <= r.quo
  {
    if amount > r.quo { MulOrder(r.quo + 1, amount, c, c); }
  }

  /** The converted amount never exceeds the rate, nor the minimum the converted amount, whatever the terms. */
  lemma PrepareAmountAtMost(rate: PositiveRational, slippage: Rational, limit: u64, amount: u64)
    requires amount <= PacketCap(rate, limit) && !GreaterThanOne(slippage)
    ensures MultiplyByLong(rate, amount) * rate.b <= amount * rate.a
    ensures PrepareAmount(rate, slippage, amount) <= MultiplyByLong(rate, amount)
  {
    CapPreventsOverflow(rate, limit, amount);
    FloorAtMost(amount, rate.a, rate.b);
    var converted, kept := MultiplyByLong(rate, amount), slippage.b - slippage.a;
    MulOrder(converted, MAX, kept, slippage.b);
    FloorAtMost(converted, kept, slippage.b);
    MulOrder(converted, converted, kept, slippage.b);
    QuotientAtMost(PrepareAmount(rate, slippage, amount), converted, slippage.b);
  }

  /**
   * With denominators within 2^63 the capped amount converts exactly and without overflow, whatever the
   * numerator, and taking off the slippage is exact too.
   */
  lemma PrepareAmountIsExact(rate: PositiveRational, slippage: Rational, limit: u64, amount: u64)
    requires rate.b <= TWO63 && amount <= PacketCap(rate, limit)
    requires !GreaterThanOne(slippage) && slippage.b <= TWO63
    ensures IsQuotient(MultiplyByLong(rate, amount), amount, rate.a, rate.b)
    ensures IsQuotient(PrepareAmount(rate, slippage, amount),
                       MultiplyByLong(rate, amount), slippage.b - slippage.a, slippage.b)
  {
    CapPreventsOverflow(rate, limit, amount);
    ProductBelow(rate.b);
    MultiplyDivideExact(amount, rate.a, rate.b);
    var converted := MultiplyByLong(rate, amount);
    MulOrder(converted, MAX, slippage.b - slippage.a, slippage.b);
    ProductBelow(slippage.b);
    MultiplyDivideExact(converted, slippage.b - slippage.a, slippage.b);
  }

  /** Every capped amount converts exactly at every rate with this denominator. */
  ghost predicate ConvertsExactly(b: divisor) {
    forall rate: PositiveRational, limit: u64, amount: u64 :: rate.b == b && amount <= PacketCap(rate, limit)
      ==> IsQuotient(MultiplyByLong(rate, amount), amount, rate.a, rate.b)
  }

  /** Conversion is exact for all rates with a denominator if and only if it is at most 2^63. */
  lemma ConvertsExactlyIff(b: divisor)
    ensures ConvertsExactly(b) <==> b <= TWO63
  {
    if b <= TWO63 {
      forall rate: PositiveRational, limit: u64, amount: u64 | rate.b == b && amount <= PacketCap(rate, limit)
        ensures IsQuotient(MultiplyByLong(rate, amount), amount, rate.a, rate.b)
      {
        PrepareAmountIsExact(rate, Rational(0, 1), limit, amount);
      }
    } else {
      var rate: PositiveRational := Rational(b - 1, b);
      MultiplyDivideByTwo(b - 1, b);
      assert MultiplyByLong(rate, 2) == 0;
      assert !IsQuotient(0, 2, rate.a, rate.b) && 2 <= PacketCap(rate, 2);
    }
  }

  lemma QuotientAtMost(q: nat, x: nat, c: divisor)
    requires q * c <= x * c
    ensures q <= x
  {
  }
}
