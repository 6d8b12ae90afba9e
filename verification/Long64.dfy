/** Unsigned 64-bit arithmetic that wraps (packages/ilp-protocol-stream/src/util/long.ts). */
module Long64 {
  import opened Basics

  const TWO63: nat := 0x8000_0000_0000_0000
  const TWO64: nat := 0x1_0000_0000_0000_0000

  type u64 = n: nat | n < 0x1_0000_0000_0000_0000

  const MAX: u64 := 0xFFFF_FFFF_FFFF_FFFF

  type divisor = n: u64 | 0 < n witness 1

  /** Reduction modulo 2^64, with the cases that one addition or subtraction reaches written out. */
  function Wrap(n: int): u64 {
    if 0 <= n < TWO64 then n
    else if TWO64 <= n < 2 * TWO64 then n - TWO64
    else if 0 <= n + TWO64 < TWO64 then n + TWO64
    else n % TWO64
  }

  lemma WrapIsModulo(n: int)
    ensures Wrap(n) == n % TWO64
  {
  }

  function MinLong(a: u64, b: u64): u64 {
    if a < b then a else b
  }

  /** The value, or the largest u64 if it does not fit. */
  function Saturate(n: nat): u64 {
    if n < TWO64 then n else MAX
  }

  // ---- checked addition and subtraction ----

  datatype Checked = Checked(value: u64, flag: bool)

  function CheckedAdd(a: u64, b: u64): Checked {
    var sum := Wrap(a + b);
    var overflow := sum < a || sum < b;
    Checked(if overflow then MAX else sum, overflow)
  }

  function CheckedSubtract(a: u64, b: u64): Checked {
    var difference := Wrap(a - b);
    var underflow := difference > a && difference > b;
    Checked(if underflow then 0 else difference, underflow)
  }

  lemma CheckedAddSaturates(a: u64, b: u64)
    ensures CheckedAdd(a, b) == Checked(Saturate(a + b), a + b >= TWO64)
  {
  }

  function Monus(a: nat, b: nat): nat {
    if a < b then 0 else a - b
  }

  /** Underflow is detected unless the subtrahend is at least halfway from the minuend to the wrap. */
  lemma CheckedSubtractIsMonusIff(a: u64, b: u64)
    ensures CheckedSubtract(a, b) == Checked(Monus(a, b), a < b) <==> 2 * b < a + TWO64
  {
  }

  // ---- multiplication followed by division ----

  datatype QuoRem = QuoRem(quo: u64, rem: u64)

  /** Add a partial product: quotient and remainder, with the carry from the remainders. */
  function Accumulate(x: QuoRem, n: QuoRem, c: divisor): QuoRem {
    var quo, rem := Wrap(x.quo + n.quo), Wrap(x.rem + n.rem);
    if rem >= c then QuoRem(Wrap(quo + 1), Wrap(rem - c)) else QuoRem(quo, rem)
  }

  function Double(n: QuoRem, c: divisor): QuoRem {
    var quo, rem := Wrap(2 * n.quo), Wrap(2 * n.rem);
    if rem >= c then QuoRem(Wrap(quo + 1), Wrap(rem - c)) else QuoRem(quo, rem)
  }

  /** The remaining iterations: `x` is the result so far, `n` the current partial product. */
  function Iterate(a: u64, x: QuoRem, n: QuoRem, c: divisor): QuoRem {
    if a == 0 then x
    else
      var x' := if a % 2 == 1 then Accumulate(x, n, c) else x;
      if x'.quo < x.quo then QuoRem(MAX, 0)
      else Iterate(a / 2, x', Double(n, c), c)
  }

  function Divide(b: u64, c: divisor): QuoRem {
    QuoRem(b / c, b % c)
  }

  function MultiplyDivide(a: u64, b: u64, c: divisor): QuoRem {
    Iterate(a, QuoRem(0, 0), Divide(b, c), c)
  }

  /** The loop of the source, on updated variables. */
  method MultiplyDivideLoop(a0: u64, b: u64, c: divisor) returns (r: QuoRem)
    ensures r == MultiplyDivide(a0, b, c)
  {
    var a := a0;
    var quo: u64, rem: u64 := 0, 0;
    var qn: u64, rn: u64 := Divide(b, c).quo, Divide(b, c).rem;
    while a != 0
      invariant Iterate(a, QuoRem(quo, rem), QuoRem(qn, rn), c) == MultiplyDivide(a0, b, c)
    {
      var oldQuo := quo;
      ghost var x, n := QuoRem(quo, rem), QuoRem(qn, rn);
      if a % 2 != 0 {
        quo := Wrap(quo + qn);
        rem := Wrap(rem + rn);
        if rem >= c {
          quo := Wrap(quo + 1);
          rem := Wrap(rem - c);
        }
      }
      assert QuoRem(quo, rem) == if a % 2 == 1 then Accumulate(x, n, c) else x;
      if quo < oldQuo {
        return QuoRem(MAX, 0);
      }
      a := a / 2;
      qn := Wrap(2 * qn);
      rn := Wrap(2 * rn);
      if rn >= c {
        qn := Wrap(qn + 1);
        rn := Wrap(rn - c);
      }
      assert QuoRem(qn, rn) == Double(n, c);
    }
    return QuoRem(quo, rem);
  }

  // ---- products, by a recursive definition that keeps the proofs below linear ----

  function Times(x: nat, y: nat): nat {
    if x == 0 then 0 else Times(x - 1, y) + y
  }

  lemma {:induction false} TimesIsProduct(x: nat, y: nat)
    ensures Times(x, y) == x * y
  {
    if x > 0 {
      TimesIsProduct(x - 1, y);
      assert (x - 1) * y + y == x * y;
    }
  }

  lemma {:induction false} TimesAdd(x: nat, y: nat, c: nat)
    ensures Times(x + y, c) == Times(x, c) + Times(y, c)
  {
    if x > 0 { TimesAdd(x - 1, y, c); }
  }

  lemma TimesOrder(x: nat, y: nat, c: nat)
    requires x <= y
    ensures Times(x, c) <= Times(y, c)
  {
  }

  lemma {:induction false} TimesOrderRight(x: nat, u: nat, v: nat)
    requires u <= v
    ensures Times(x, u) <= Times(x, v)
  {
    if x > 0 { TimesOrderRight(x - 1, u, v); }
  }

  lemma {:induction false} TimesDouble(x: nat, v: nat)
    ensures Times(x, 2 * v) == 2 * Times(x, v) == Times(2 * x, v)
  {
    if x > 0 { TimesDouble(x - 1, v); }
  }

  lemma TimesHalf(a: nat, v: nat)
    ensures Times(a, v) == Times(a / 2, 2 * v) + (if a % 2 == 1 then v else 0)
    ensures a / 2 > 0 ==> Times(a / 2, 2 * v) >= 2 * v
  {
    var h := a / 2;
    TimesDouble(h, v);
    TimesAdd(2 * h, a % 2, v);
    assert Times(1, v) == v;
    if h > 0 { TimesOrder(1, h, 2 * v); }
  }

  lemma DivisionTimes(x: nat, c: divisor)
    ensures x == Times(x / c, c) + x % c
  {
    TimesIsProduct(x / c, c);
  }

  /** A value lies below a multiple of the divisor exactly when its quotient does. */
  lemma QuotientFits(q: nat, r: nat, c: divisor, bound: nat)
    requires r < c
    ensures Times(q, c) + r < Times(bound, c) <==> q < bound
  {
  }

  lemma DivisionUnique(q: nat, r: nat, q': nat, r': nat, c: divisor)
    requires Times(q, c) + r == Times(q', c) + r' && r < c && r' < c
    ensures q == q' && r == r'
  {
  }

  /** What a quotient and remainder stand for. */
  function Value(x: QuoRem, c: divisor): nat {
    Times(x.quo, c) + x.rem
  }

  lemma DivideValue(b: u64, c: divisor)
    ensures Value(Divide(b, c), c) == b && Divide(b, c).rem < c
  {
    DivisionTimes(b, c);
  }

  // ---- one step of the loop ----

  function Carry(x: QuoRem, n: QuoRem, c: divisor): nat {
    if x.rem + n.rem >= c then 1 else 0
  }

  lemma AccumulateLinear(x: QuoRem, n: QuoRem, c: divisor)
    requires c <= TWO63 && x.rem < c && n.rem < c
    ensures var r, q := Accumulate(x, n, c), x.quo + n.quo + Carry(x, n, c);
            && r.quo == (if q < TWO64 then q else q - TWO64)
            && r.rem == x.rem + n.rem - (if Carry(x, n, c) == 1 then c else 0)
            && r.rem < c
  {
  }

  lemma SumValue(x: QuoRem, n: QuoRem, c: divisor)
    ensures Times(x.quo + n.quo + Carry(x, n, c), c) + (x.rem + n.rem - (if Carry(x, n, c) == 1 then c else 0))
            == Value(x, c) + Value(n, c)
  {
    TimesAdd(x.quo + n.quo, Carry(x, n, c), c);
    TimesAdd(x.quo, n.quo, c);
    assert Times(1, c) == c && Times(0, c) == 0;
  }

  /** Adding partial products is exact when the sum's quotient fits, and wraps once otherwise. */
  lemma AccumulateExact(x: QuoRem, n: QuoRem, c: divisor)
    requires c <= TWO63 && x.rem < c && n.rem < c
    ensures var r, q := Accumulate(x, n, c), x.quo + n.quo + Carry(x, n, c);
            && r.rem < c
            && (Value(x, c) + Value(n, c) < Times(TWO64, c) <==> q < TWO64)
            && (q < TWO64 ==> Value(r, c) == Value(x, c) + Value(n, c) && x.quo <= r.quo)
            && (q >= TWO64 ==> r.quo == q - TWO64)
  {
    AccumulateLinear(x, n, c);
    SumValue(x, n, c);
    QuotientFits(x.quo + n.quo + Carry(x, n, c), Accumulate(x, n, c).rem, c, TWO64);
  }

  lemma DoubleIsAccumulate(n: QuoRem, c: divisor)
    ensures Double(n, c) == Accumulate(n, n, c)
  {
  }

  // ---- exactness ----

  lemma {:induction false} IterateExact(a: u64, x: QuoRem, n: QuoRem, c: divisor, v: nat)
    requires c <= TWO63 && x.rem < c && (a > 0 ==> n.rem < c && v == Value(n, c))
    requires Value(x, c) + Times(a, v) < Times(TWO64, c)
    ensures Iterate(a, x, n, c).rem < c && Value(Iterate(a, x, n, c), c) == Value(x, c) + Times(a, v)
    decreases a
  {
    if a > 0 {
      TimesHalf(a, v);
      AccumulateExact(x, n, c);
      DoubleIsAccumulate(n, c);
      AccumulateExact(n, n, c);
      IterateExact(a / 2, if a % 2 == 1 then Accumulate(x, n, c) else x, Double(n, c), c, 2 * v);
    }
  }

  /** Quotient and remainder are those of the exact product. */
  ghost predicate Exact(a: u64, b: u64, c: divisor) {
    var r := MultiplyDivide(a, b, c);
    r.rem < c && r.quo * c + r.rem == a * b
  }

  lemma MultiplyDivideValue(a: u64, b: u64, c: divisor)
    requires c <= TWO63 && Times(a, b) < Times(TWO64, c)
    ensures MultiplyDivide(a, b, c).rem < c && Value(MultiplyDivide(a, b, c), c) == Times(a, b)
  {
    DivideValue(b, c);
    IterateExact(a, QuoRem(0, 0), Divide(b, c), c, b);
  }

  lemma MultiplyDivideExact(a: u64, b: u64, c: divisor)
    requires c <= TWO63 && a * b < TWO64 * c
    ensures Exact(a, b, c)
  {
    TimesIsProduct(a, b);
    TimesIsProduct(TWO64, c);
    MultiplyDivideValue(a, b, c);
    TimesIsProduct(MultiplyDivide(a, b, c).quo, c);
  }

  /** A divisor gives exact results for all factors whose quotient fits if and only if it is at most 2^63. */
  lemma ExactForAllFactorsIff(c: divisor)
    ensures (forall a: u64, b: u64 :: a * b < TWO64 * c ==> Exact(a, b, c)) <==> c <= TWO63
  {
    if c <= TWO63 {
      forall a: u64, b: u64 | a * b < TWO64 * c ensures Exact(a, b, c) {
        MultiplyDivideExact(a, b, c);
      }
    } else {
      LargeDivisorFails(c);
    }
  }

  /** Twice the largest remainder wraps, so the carry is lost. */
  lemma LargeDivisorFails(c: divisor)
    requires c > TWO63
    ensures 2 * (c - 1) < TWO64 * c && !Exact(2, c - 1, c)
  {
    MultiplyDivideByTwo(c - 1, c);
    assert Double(QuoRem(0, c - 1), c) == QuoRem(0, 2 * (c - 1) - TWO64);
  }

  lemma MultiplyDivideByTwo(b: u64, c: divisor)
    requires b < c
    ensures MultiplyDivide(2, b, c) == Double(QuoRem(0, b), c)
  {
    DivideValue(b, c);
    DivisionUnique(Divide(b, c).quo, Divide(b, c).rem, 0, b, c);
    var d := Double(QuoRem(0, b), c);
    assert Accumulate(QuoRem(0, 0), d, c) == d;
    assert Iterate(1, QuoRem(0, 0), d, c) == d;
  }

  // ---- for every divisor the result is at most the exact one: a wrapped remainder only loses carries ----

  lemma AccumulateWraps(x: QuoRem, n: QuoRem, c: divisor)
    requires x.rem < c && n.rem < c && x.quo + n.quo + Carry(x, n, c) < TWO64
    ensures var r, q := Accumulate(x, n, c), x.quo + n.quo + Carry(x, n, c);
            var rem := x.rem + n.rem - (if Carry(x, n, c) == 1 then c else 0);
            && r.rem < c && x.quo <= r.quo
            && (if x.rem + n.rem < TWO64 then r == QuoRem(q, rem) else q > 0 && r == QuoRem(q - 1, rem + c - TWO64))
  {
  }

  lemma AccumulateAtMost(x: QuoRem, n: QuoRem, c: divisor)
    requires x.rem < c && n.rem < c && Value(x, c) + Value(n, c) < Times(TWO64, c)
    ensures var r := Accumulate(x, n, c);
            r.rem < c && x.quo <= r.quo && Value(r, c) <= Value(x, c) + Value(n, c)
  {
    var q := x.quo + n.quo + Carry(x, n, c);
    SumValue(x, n, c);
    QuotientFits(q, x.rem + n.rem - (if Carry(x, n, c) == 1 then c else 0), c, TWO64);
    AccumulateWraps(x, n, c);
  }

  lemma {:induction false} IterateAtMost(a: u64, x: QuoRem, n: QuoRem, c: divisor, v: nat)
    requires x.rem < c && (a > 0 ==> n.rem < c && Value(n, c) <= v)
    requires Value(x, c) + Times(a, v) < Times(TWO64, c)
    ensures Iterate(a, x, n, c).rem < c && Value(Iterate(a, x, n, c), c) <= Value(x, c) + Times(a, v)
    decreases a
  {
    if a > 0 {
      TimesHalf(a, v);
      if a % 2 == 1 { AccumulateAtMost(x, n, c); }
      if a / 2 > 0 {
        DoubleIsAccumulate(n, c);
        AccumulateAtMost(n, n, c);
      }
      IterateAtMost(a / 2, if a % 2 == 1 then Accumulate(x, n, c) else x, Double(n, c), c, 2 * v);
    }
  }

  /** Whatever the divisor, a quotient that fits is never exceeded. */
  lemma MultiplyDivideAtMost(a: u64, b: u64, c: divisor)
    requires Times(a, b) < Times(TWO64, c)
    ensures MultiplyDivide(a, b, c).rem < c && Value(MultiplyDivide(a, b, c), c) <= Times(a, b)
  {
    DivideValue(b, c);
    IterateAtMost(a, QuoRem(0, 0), Divide(b, c), c, b);
  }

  // ---- saturation ----

  lemma Pow63()
    ensures Pow2(63) == TWO63 && Pow2(62) == TWO63 / 2
  {
    assert Pow2(8) == 256;
    assert Pow2(16) == 0x1_0000;
    assert Pow2(24) == 0x100_0000;
    assert Pow2(32) == 0x1_0000_0000;
    assert Pow2(40) == 0x100_0000_0000;
    assert Pow2(48) == 0x1_0000_0000_0000;
    assert Pow2(56) == 0x100_0000_0000_0000;
  }

  lemma {:induction false} Pow2Monotone(i: nat, j: nat)
    requires i <= j
    ensures Pow2(i) <= Pow2(j)
  {
    if i < j {
      Pow2Monotone(i, j - 1);
    }
  }

  lemma IndexBelow64(i: nat, a: nat)
    requires a > 0 && Times(a, Pow2(i)) < TWO64
    ensures i <= 63
  {
    TimesOrder(1, a, Pow2(i));
    Pow63();
    if i > 63 {
      Pow2Monotone(64, i);
      assert false;
    }
  }

  /** For a ratio below two, the partial product of bit `i` stays below 2^64 divisors. */
  lemma PartialProductFits(i: nat, b: u64, c: divisor)
    requires i <= 63 && b < 2 * c
    ensures i < 63 ==> Times(Pow2(i), b) <= Times(TWO63, c)
    ensures i == 63 ==> Times(Pow2(i), b) + TWO63 <= Times(TWO64, c)
  {
    Pow63();
    if i < 63 {
      Pow2Monotone(i, 62);
      TimesOrder(Pow2(i), TWO63 / 2, b);
      TimesOrderRight(TWO63 / 2, b, 2 * c);
      TimesDouble(TWO63 / 2, c);
    } else {
      TimesOrderRight(TWO63, b + 1, 2 * c);
      TimesStep(TWO63, b);
      TimesDouble(TWO63, c);
    }
  }

  lemma {:induction false} TimesStep(x: nat, b: nat)
    ensures Times(x, b + 1) == Times(x, b) + x
  {
    if x > 0 { TimesStep(x - 1, b); }
  }

  /** ... with room for a carry from the remainders. */
  lemma CarryFits(i: nat, b: u64, c: divisor, x: QuoRem, n: QuoRem)
    requires i <= 63 && c <= TWO63 && b < 2 * c && x.rem < c && n.rem < c
    requires Value(n, c) == Times(Pow2(i), b)
    ensures n.quo + Carry(x, n, c) < TWO64
  {
    PartialProductFits(i, b, c);
    if n.quo == MAX {
      TimesAdd(MAX, 1, c);
      assert Times(1, c) == c;
      TimesOrder(TWO63 + 1, MAX, c);
      TimesAdd(TWO63, 1, c);
      assert n.rem == 0;
    }
  }

  /** The state of the loop at bit `i`, while nothing overflowed; `v` is the partial product of that bit. */
  ghost predicate AtBit(i: nat, a: u64, n: QuoRem, b: u64, c: divisor, v: nat) {
    && Times(a, Pow2(i)) < TWO64
    && v == Times(Pow2(i), b)
    && (a > 0 ==> n.rem < c && Value(n, c) == v)
  }

  lemma OverflowIsDetected(i: nat, a: u64, x: QuoRem, n: QuoRem, b: u64, c: divisor, v: nat)
    requires a > 0 && c <= TWO63 && b < 2 * c && x.rem < c && AtBit(i, a, n, b, c, v)
    ensures var x' := Accumulate(x, n, c);
            if Value(x, c) + v < Times(TWO64, c)
            then x.quo <= x'.quo && x'.rem < c && Value(x', c) == Value(x, c) + v
            else x'.quo < x.quo
  {
    IndexBelow64(i, a);
    AccumulateExact(x, n, c);
    CarryFits(i, b, c, x, n);
  }

  lemma NextBit(i: nat, a: u64, n: QuoRem, b: u64, c: divisor, v: nat)
    requires a > 0 && c <= TWO63 && b < 2 * c && AtBit(i, a, n, b, c, v)
    ensures AtBit(i + 1, a / 2, Double(n, c), b, c, 2 * v)
  {
    TimesHalf(a, Pow2(i));
    TimesDouble(Pow2(i), b);
    if a / 2 > 0 {
      IndexBelow64(i + 1, a / 2);
      DoubledFits(i, b, c, n);
    }
  }

  lemma {:induction false} IterateSaturates(i: nat, a: u64, x: QuoRem, n: QuoRem, b: u64, c: divisor,
                                            v: nat, q: nat, r: nat)
    requires c <= TWO63 && b < 2 * c && x.rem < c && AtBit(i, a, n, b, c, v)
    requires Value(x, c) + Times(a, v) == Times(q, c) + r && r < c
    ensures Iterate(a, x, n, c).quo == Saturate(q)
    decreases a
  {
    if a == 0 {
      DivisionUnique(x.quo, x.rem, q, r, c);
    } else {
      TimesHalf(a, v);
      OverflowIsDetected(i, a, x, n, b, c, v);
      QuotientFits(q, r, c, TWO64);
      var x' := if a % 2 == 1 then Accumulate(x, n, c) else x;
      if x'.quo >= x.quo {
        NextBit(i, a, n, b, c, v);
        IterateSaturates(i + 1, a / 2, x', Double(n, c), b, c, 2 * v, q, r);
        assert Iterate(a, x, n, c) == Iterate(a / 2, x', Double(n, c), c);
      } else {
        assert Iterate(a, x, n, c) == QuoRem(MAX, 0);
      }
    }
  }

  lemma DoubledFits(i: nat, b: u64, c: divisor, n: QuoRem)
    requires i + 1 <= 63 && b < 2 * c && c <= TWO63 && n.rem < c && Value(n, c) == Times(Pow2(i), b)
    ensures Double(n, c).rem < c && Value(Double(n, c), c) == Times(Pow2(i + 1), b)
  {
    PartialProductFits(i + 1, b, c);
    TimesDouble(Pow2(i), b);
    DoubleIsAccumulate(n, c);
    AccumulateExact(n, n, c);
    TimesOrder(TWO63 + 1, TWO64, c);
  }

  /** The quotient of the exact product, or the maximum if that does not fit. */
  ghost predicate Saturates(a: u64, b: u64, c: divisor) {
    exists q: nat :: IsQuotient(q, a, b, c) && MultiplyDivide(a, b, c).quo == Saturate(q)
  }

  ghost predicate IsQuotient(q: nat, a: u64, b: u64, c: divisor) {
    q * c <= a * b < q * c + c
  }

  lemma QuotientOf(a: u64, b: u64, c: divisor) returns (q: nat, r: nat)
    ensures IsQuotient(q, a, b, c) && Times(a, b) == Times(q, c) + r && r < c
    ensures forall k: nat :: IsQuotient(k, a, b, c) ==> k == q
  {
    TimesIsProduct(a, b);
    var x := Times(a, b);
    q, r := x / c, x % c;
    DivisionTimes(x, c);
    TimesIsProduct(q, c);
    forall k: nat | IsQuotient(k, a, b, c) ensures k == q {
      TimesIsProduct(k, c);
      DivisionUnique(k, x - Times(k, c), q, r, c);
    }
  }

  lemma MultiplyDivideSaturates(a: u64, b: u64, c: divisor)
    requires c <= TWO63 && b < 2 * c
    ensures Saturates(a, b, c)
  {
    var q, r := QuotientOf(a, b, c);
    DivideValue(b, c);
    assert Pow2(0) == 1 && Times(1, b) == b;
    TimesIsProduct(a, 1);
    IterateSaturates(0, a, QuoRem(0, 0), Divide(b, c), b, c, b, q, r);
  }

  // ---- undetected overflow ----

  /** A quotient of which the loop only sees the lower 64 bits. */
  function Unwrapped(quo: u64, k: nat): nat {
    quo + TWO64 * k
  }

  /** `n` is what the doubling loop holds for `v`: the remainder is exact and the quotient wrapped. */
  ghost predicate Holds(n: QuoRem, v: nat, c: divisor) {
    n.rem < c && exists k: nat :: v == Times(Unwrapped(n.quo, k), c) + n.rem
  }

  lemma DoubleHolds(n: QuoRem, v: nat, c: divisor)
    requires c <= TWO63 && Holds(n, v, c)
    ensures Holds(Double(n, c), 2 * v, c)
  {
    var k: nat :| v == Times(Unwrapped(n.quo, k), c) + n.rem;
    var d, carry := Double(n, c), Carry(n, n, c);
    DoubleIsAccumulate(n, c);
    AccumulateLinear(n, n, c);
    var k' := if 2 * n.quo + carry < TWO64 then 2 * k else 2 * k + 1;
    var w := Unwrapped(n.quo, k);
    assert Unwrapped(d.quo, k') == 2 * w + carry;
    TimesDouble(w, c);
    TimesAdd(2 * w, carry, c);
    assert Times(1, c) == c && Times(0, c) == 0;
    assert 2 * v == Times(Unwrapped(d.quo, k'), c) + d.rem;
  }

  /** With a single bit set the loop only doubles, and the quotient silently wraps. */
  lemma {:induction false} SingleBitHolds(i: nat, n: QuoRem, v: nat, c: divisor)
    requires c <= TWO63 && Pow2(i) < TWO64 && Holds(n, v, c)
    ensures Holds(Iterate(Pow2(i), QuoRem(0, 0), n, c), Times(Pow2(i), v), c)
    decreases i
  {
    if i == 0 {
      AccumulateLinear(QuoRem(0, 0), n, c);
      assert Iterate(0, n, Double(n, c), c) == n;
      assert Times(1, v) == v;
    } else {
      DoubleHolds(n, v, c);
      SingleBitHolds(i - 1, Double(n, c), 2 * v, c);
      TimesDouble(Pow2(i - 1), v);
    }
  }

  /** No multiple of 2^63 by a ratio of two or more has a quotient of 2^64 - 1 modulo 2^64. */
  lemma NotAllOnes(b: u64, c: divisor, n: QuoRem)
    requires c <= TWO63 && b >= 2 * c && Holds(n, Times(TWO63, b), c)
    ensures n.quo != MAX
  {
    var k: nat :| Times(TWO63, b) == Times(Unwrapped(n.quo, k), c) + n.rem;
    if n.quo == MAX {
      // 2^63 * b + (c - rem) == 2^64 * (k + 1) * c, so 2^63 divides c - rem, which makes c == 2^63
      var t := Times(k + 1, c);
      AllOnesPlusOne(k, c);
      TimesDouble(TWO63, t);
      if 2 * t <= b {
        TimesOrderRight(TWO63, 2 * t, b);
      } else {
        TimesOrderRight(TWO63, b + 1, 2 * t);
        TimesStep(TWO63, b);
      }
      assert false;
    }
  }

  lemma AllOnesPlusOne(k: nat, c: divisor)
    ensures Times(Unwrapped(MAX, k), c) + c == Times(TWO64, Times(k + 1, c))
  {
    var w := Unwrapped(MAX, k);
    TimesIsProduct(k + 1, TWO64);
    assert w + 1 == Times(k + 1, TWO64);
    TimesAdd(w, 1, c);
    assert Times(1, c) == c;
    Reassociate(k + 1, TWO64, c);
  }

  lemma {:induction false} Reassociate(x: nat, y: nat, c: nat)
    ensures Times(Times(x, y), c) == Times(y, Times(x, c))
  {
    TimesIsProduct(x, y);
    TimesIsProduct(x, c);
    TimesIsProduct(Times(x, y), c);
    TimesIsProduct(y, Times(x, c));
    assert x * y * c == y * (x * c);
  }

  /** From a ratio of two on, the multiplier 2^63 overflows undetected. */
  lemma OverflowGoesUndetected(b: u64, c: divisor)
    requires c <= TWO63 && b >= 2 * c
    ensures !Saturates(TWO63, b, c)
  {
    SingleBitOf(b, c);
    NotAllOnes(b, c, MultiplyDivide(TWO63, b, c));
    var q, r := QuotientOf(TWO63, b, c);
    QuotientFits(q, r, c, TWO64);
    TimesOrderRight(TWO63, 2 * c, b);
    TimesDouble(TWO63, c);
  }

  /** For a fixed ratio b/c, results saturate for every multiplier if and only if the ratio is below two. */
  lemma SaturatesForAllMultipliersIff(b: u64, c: divisor)
    requires c <= TWO63
    ensures (forall a: u64 :: Saturates(a, b, c)) <==> b < 2 * c
  {
    if b < 2 * c {
      forall a: u64 ensures Saturates(a, b, c) {
        MultiplyDivideSaturates(a, b, c);
      }
    } else {
      OverflowGoesUndetected(b, c);
    }
  }

  // ---- the rounded forms ----

  function MultiplyDivideFloor(a: u64, b: u64, c: divisor): u64 {
    MultiplyDivide(a, b, c).quo
  }

  function RoundUp(r: QuoRem): u64 {
    if r.quo == MAX then MAX else Wrap(r.quo + if r.rem == 0 then 0 else 1)
  }

  function RoundNear(r: QuoRem, c: divisor): u64 {
    if r.quo == MAX then MAX
    else
      var roundUp := r.rem != 0 && if c % 2 == 1 then r.rem > c / 2 else r.rem >= c / 2;
      if roundUp then Wrap(r.quo + 1) else r.quo
  }

  function MultiplyDivideCeil(a: u64, b: u64, c: divisor): u64 {
    RoundUp(MultiplyDivide(a, b, c))
  }

  function MultiplyDivideRound(a: u64, b: u64, c: divisor): u64 {
    RoundNear(MultiplyDivide(a, b, c), c)
  }

  lemma RoundingSaturates(r: QuoRem, c: divisor)
    requires r.rem < c
    ensures RoundUp(r) == Saturate(r.quo + if r.rem == 0 then 0 else 1)
    ensures RoundNear(r, c) == Saturate(r.quo + if 2 * r.rem >= c then 1 else 0)
  {
  }

  /** `k` is the least integer with k * c >= product. */
  ghost predicate IsCeiling(k: nat, product: nat, c: divisor) {
    product <= k * c < product + c
  }

  /** `k` is product / c rounded half up: `k - 1/2 <= product / c < k + 1/2`. */
  ghost predicate RoundsHalfUp(k: nat, product: nat, c: divisor) {
    2 * (k * c) <= 2 * product + c < 2 * (k * c) + 2 * c
  }

  /** When the quotient fits, the rounded forms are the exact floor, ceiling and round-half-up, saturated. */
  lemma RoundedFormsExact(a: u64, b: u64, c: divisor) returns (up: nat, near: nat)
    requires c <= TWO63 && a * b < TWO64 * c
    ensures IsQuotient(MultiplyDivideFloor(a, b, c), a, b, c)
    ensures IsCeiling(up, a * b, c) && MultiplyDivideCeil(a, b, c) == Saturate(up)
    ensures RoundsHalfUp(near, a * b, c) && MultiplyDivideRound(a, b, c) == Saturate(near)
  {
    MultiplyDivideExact(a, b, c);
    var r := MultiplyDivide(a, b, c);
    up := r.quo + if r.rem == 0 then 0 else 1;
    near := r.quo + if 2 * r.rem >= c then 1 else 0;
    RoundingSaturates(r, c);
    RoundProduct(a * b, r.quo, r.rem, c);
  }

  lemma RoundProduct(product: nat, q: nat, r: nat, c: divisor)
    requires product == q * c + r && r < c
    ensures IsCeiling(q + if r == 0 then 0 else 1, product, c)
    ensures RoundsHalfUp(q + if 2 * r >= c then 1 else 0, product, c)
  {
  }

  // ---- the ceiling of any product ----

  /** The rounded-up form never exceeds the ceiling of the true quotient, whatever the divisor. */
  lemma CeilAtMost(a: u64, b: u64, c: divisor)
    ensures var r := MultiplyDivideCeil(a, b, c); r > 0 ==> Times(r - 1, c) < Times(a, b)
  {
    var r := MultiplyDivideCeil(a, b, c);
    if Times(a, b) < Times(TWO64, c) {
      MultiplyDivideAtMost(a, b, c);
    } else if r > 0 {
      TimesOrder(r, TWO64, c);
    }
  }

  /** It covers the true quotient, or is the maximum, when that fits or its overflow is noticed. */
  lemma CeilCovers(a: u64, b: u64, c: divisor)
    requires c <= TWO63 && (b < 2 * c || Times(a, b) < Times(TWO64, c))
    ensures var r := MultiplyDivideCeil(a, b, c); r == MAX || Times(r, c) >= Times(a, b)
  {
    if Times(a, b) < Times(TWO64, c) {
      MultiplyDivideValue(a, b, c);
    } else {
      MultiplyDivideSaturates(a, b, c);
      var q, r := QuotientOf(a, b, c);
      QuotientFits(q, r, c, TWO64);
    }
  }

  /** From a ratio of two on, the multiplier 2^63 gives neither. */
  lemma CeilFallsShort(b: u64, c: divisor)
    requires c <= TWO63 && b >= 2 * c
    ensures var r := MultiplyDivideCeil(TWO63, b, c); r != MAX && Times(r, c) < Times(TWO63, b)
  {
    var n := MultiplyDivide(TWO63, b, c);
    SingleBitOf(b, c);
    NotAllOnes(b, c, n);
    NotAlmostAllOnes(b, c, n);
    TimesOrder(MultiplyDivideCeil(TWO63, b, c) + 1, TWO64, c);
    TimesOrderRight(TWO63, 2 * c, b);
    TimesDouble(TWO63, c);
  }

  lemma SingleBitOf(b: u64, c: divisor)
    requires c <= TWO63
    ensures Holds(MultiplyDivide(TWO63, b, c), Times(TWO63, b), c)
  {
    Pow63();
    DivideValue(b, c);
    assert Unwrapped(Divide(b, c).quo, 0) == Divide(b, c).quo;
    SingleBitHolds(63, Divide(b, c), b, c);
  }

  lemma NotAlmostAllOnes(b: u64, c: divisor, n: QuoRem)
    requires c <= TWO63 && b >= 2 * c && Holds(n, Times(TWO63, b), c)
    ensures n.quo == MAX - 1 ==> n.rem == 0
  {
    var k: nat :| Times(TWO63, b) == Times(Unwrapped(n.quo, k), c) + n.rem;
    if n.quo == MAX - 1 && n.rem > 0 {
      // 2^63 * b + (2c - rem) == 2^64 * t for t == (k + 1) * c, so 2t == b + 1 and 2c - rem == 2^63
      var t := Times(k + 1, c);
      AllOnesPlusOne(k, c);
      assert Unwrapped(MAX, k) == Unwrapped(MAX - 1, k) + 1;
      TimesDouble(TWO63, t);
      if k > 0 { TimesOrder(2, k + 1, c); }
      NextMultiple(b, 2 * t, 2 * c - n.rem);
    }
  }

  lemma NextMultiple(b: nat, m: nat, d: nat)
    requires Times(TWO63, b) + d == Times(TWO63, m) && 0 < d < TWO64
    ensures m == b + 1 && d == TWO63
  {
    TimesStep(TWO63, b);
    TimesStep(TWO63, b + 1);
    if m <= b { TimesOrderRight(TWO63, m, b); }
    if m >= b + 2 { TimesOrderRight(TWO63, b + 2, m); }
  }
}
