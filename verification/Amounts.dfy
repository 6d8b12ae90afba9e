/** Exact non-negative integers and ratios (packages/pay/src/utils.ts). */
module Amounts {
  import opened Basics

  const MAX_U64: nat := 18446744073709551615

  type pos = n: nat | 0 < n witness 1

  /** Quotient of two integers; the denominator is never zero. */
  datatype Ratio = Ratio(a: nat, b: pos)

  type PositiveRatio = r: Ratio | 0 < r.a witness Ratio(1, 1)

  function SatSub(x: nat, y: nat): nat {
    if x >= y then x - y else 0
  }

  function Min(x: nat, y: nat): nat {
    if x <= y then x else y
  }

  function Max(x: nat, y: nat): nat {
    if x >= y then x else y
  }

  function OrLesser(x: nat, y: Option<nat>): nat {
    if y.None? then x else Min(x, y.value)
  }

  function OrGreater(x: nat, y: Option<nat>): nat {
    if y.None? then x else Max(x, y.value)
  }

  function DivideCeil(x: nat, d: pos): nat {
    (x + d - 1) / d
  }

  function MulFloor(n: nat, r: Ratio): nat {
    n * r.a / r.b
  }

  function MulCeil(n: nat, r: Ratio): nat {
    DivideCeil(n * r.a, r.b)
  }

  function Reciprocal(r: Ratio): Option<Ratio> {
    if r.a > 0 then Some(Ratio(r.b, r.a)) else None
  }

  predicate Le(p: Ratio, q: Ratio) {
    p.a * q.b <= p.b * q.a
  }

  predicate Lt(p: Ratio, q: Ratio) {
    p.a * q.b < p.b * q.a
  }

  /** Floor and ceiling are the two adjoints of multiplication by the divisor. */
  lemma DivFloorAdjoint(k: nat, x: nat, d: pos)
    ensures k <= x / d <==> k * d <= x
  {
    var q, r := x / d, x % d;
    assert x == q * d + r;
    if k <= q {
      assert k * d <= q * d;
    } else {
      assert (q + 1) * d <= k * d;
    }
  }

  lemma DivCeilAdjoint(k: nat, x: nat, d: pos)
    ensures DivideCeil(x, d) <= k <==> x <= k * d
  {
    DivFloorAdjoint(k + 1, x + d - 1, d);
    assert (k + 1) * d == k * d + d;
  }

  lemma MulFloorAdjoint(k: nat, n: nat, r: Ratio)
    ensures k <= MulFloor(n, r) <==> k * r.b <= n * r.a
  {
    DivFloorAdjoint(k, n * r.a, r.b);
  }

  lemma MulCeilAdjoint(k: nat, n: nat, r: Ratio)
    ensures MulCeil(n, r) <= k <==> n * r.a <= k * r.b
  {
    DivCeilAdjoint(k, n * r.a, r.b);
  }

  lemma MulCeilMonotone(m: nat, n: nat, r: Ratio)
    requires m <= n
    ensures MulCeil(m, r) <= MulCeil(n, r)
  {
    MulMonotone(m, n, r.a);
    MulCeilAdjoint(MulCeil(n, r), n, r);
    MulCeilAdjoint(MulCeil(n, r), m, r);
  }

  lemma MulMonotone(x: nat, y: nat, d: nat)
    requires x <= y
    ensures x * d <= y * d
    ensures d * x <= d * y
  {
  }

  lemma LeLtTrans(p: Ratio, q: Ratio, r: Ratio)
    requires Le(p, q) && Lt(q, r)
    ensures Lt(p, r)
  {
  }

  lemma LtLeTrans(p: Ratio, q: Ratio, r: Ratio)
    requires Lt(p, q) && Le(q, r)
    ensures Lt(p, r)
  {
  }

  lemma LeTrans(p: Ratio, q: Ratio, r: Ratio)
    requires Le(p, q) && Le(q, r)
    ensures Le(p, r)
  {
  }

  /** Scaling the same amount by a larger ratio never gives less. */
  lemma MulFloorMonotone(n: nat, p: Ratio, q: Ratio)
    requires Le(p, q)
    ensures MulFloor(n, p) <= MulFloor(n, q)
  {
    var k := MulFloor(n, p);
    MulFloorAdjoint(k, n, p);
    ScaleLe(k, n, p, q);
    MulFloorAdjoint(k, n, q);
  }

  /** `k/n <= p` and `p <= q` give `k/n <= q`, also for `n == 0`. */
  lemma ScaleLe(k: nat, n: nat, p: Ratio, q: Ratio)
    requires k * p.b <= n * p.a && Le(p, q)
    ensures k * q.b <= n * q.a
  {
  }
}
