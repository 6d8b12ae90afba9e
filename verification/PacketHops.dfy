/**
 * F08 rejects that state the maximum of the hop that sent them
 * (packages/pay/src/controllers/max-packet.ts:113-162).
 */
module PacketHops {
  import opened Basics
  import opened Amounts
  import opened MaxPacket

  // ---- what an F08 implies ----

  /** With metadata: the greatest amount that stays within the stated maximum, in proportion to what was received. */
  lemma ImpliedMaxInProportion(m: Metadata, source: nat, k: nat)
    requires m.maximum < m.received
    ensures k <= ImpliedMax(Some(m), source).value <==> k * m.received <= m.maximum * source
  {
    MulFloorAdjoint(k, m.maximum, Ratio(source, m.received));
  }

  /** An F08 is heeded unless it states a maximum that was not exceeded; it ends the payment if nothing is left. */
  lemma FailsIff(s: State, metadata: Option<Metadata>, source: nat)
    ensures Reduce(s, metadata, source).1
            <==> match metadata
                 case None => source <= 1
                 case Some(m) => m.maximum < m.received && m.maximum * source < m.received
  {
    if metadata.Some? && metadata.value.maximum < metadata.value.received {
      ImpliedMaxInProportion(metadata.value, source, 1);
    }
  }

  /** An F08 that is heeded sets the limit to what it implies, if that is lower; the figures of a hop are final. */
  lemma ReducesToImplied(s: State, metadata: Option<Metadata>, source: nat)
    requires Valid(s) && source <= MAX_U64 && !Reduce(s, metadata, source).1
    requires metadata.Some? ==> metadata.value.maximum < metadata.value.received
    ensures var s', implied := Reduce(s, metadata, source).0, ImpliedMax(metadata, source).value;
            && LimitOf(s') == Min(LimitOf(s), implied)
            && s'.capacity == Min(s.capacity, LimitOf(s'))
            && (implied < LimitOf(s) && metadata.Some? ==> s'.limit == Precise(implied))
            && (implied < LimitOf(s) && metadata.None? ==> s'.limit.Precise? == (s'.capacity == implied))
  {
    ImpliedMaxAtMostSource(metadata, source);
  }

  lemma ContradictionIsIgnored(s: State, m: Metadata, source: nat)
    requires m.received <= m.maximum
    ensures Reduce(s, Some(m), source) == (s, false)
  {
  }

  // ---- a path that converts at one rate to a hop with one maximum ----

  datatype Hop = Hop(rate: PositiveRatio, maximum: nat)

  function Received(h: Hop, source: nat): nat {
    MulFloor(source, h.rate)
  }

  predicate Carries(h: Hop, source: nat) {
    Received(h, source) <= h.maximum
  }

  function HopReply(h: Hop, source: nat): Reply {
    Reply(source, if Carries(h, source) then Authentic else TooLarge(Some(Metadata(Received(h, source), h.maximum))))
  }

  /** The greatest amount the hop carries. */
  function Threshold(h: Hop): nat {
    SatSub(MulCeil(h.maximum + 1, Ratio(h.rate.b, h.rate.a)), 1)
  }

  lemma CarriesIff(h: Hop, source: nat)
    ensures Carries(h, source) <==> source * h.rate.a < (h.maximum + 1) * h.rate.b
    ensures Carries(h, source) <==> source <= Threshold(h)
  {
    var inverse := Ratio(h.rate.b, h.rate.a);
    MulFloorAdjoint(h.maximum + 1, source, h.rate);
    MulCeilAdjoint(source, h.maximum + 1, inverse);
    MulCeilAdjoint(0, h.maximum + 1, inverse);
  }

  /** What an F08 of the hop implies. */
  function Implied(h: Hop, source: nat): nat
    requires !Carries(h, source)
  {
    ImpliedMax(Some(Metadata(Received(h, source), h.maximum)), source).value
  }

  lemma MulCancel(x: nat, y: nat, d: pos)
    ensures x * d <= y * d <==> x <= y
    ensures x * d < y * d <==> x < y
  {
    if x < y { MulMonotone(x + 1, y, d); }
    if y < x { MulMonotone(y + 1, x, d); }
  }

  lemma ReceivedBounds(h: Hop, source: nat)
    ensures Received(h, source) * h.rate.b <= source * h.rate.a < (Received(h, source) + 1) * h.rate.b
  {
    MulFloorAdjoint(Received(h, source), source, h.rate);
    MulFloorAdjoint(Received(h, source) + 1, source, h.rate);
  }

  lemma ImpliedBounds(h: Hop, source: nat)
    requires !Carries(h, source)
    ensures Implied(h, source) * Received(h, source) <= h.maximum * source
    ensures h.maximum * source < (Implied(h, source) + 1) * Received(h, source)
  {
    var m, n := Metadata(Received(h, source), h.maximum), Implied(h, source);
    ImpliedMaxInProportion(m, source, n);
    ImpliedMaxInProportion(m, source, n + 1);
  }

  /** Rounding never makes the implied amount too large for the hop. */
  lemma ImpliedIsCarried(h: Hop, source: nat)
    requires !Carries(h, source)
    ensures Implied(h, source) <= Threshold(h)
  {
    ImpliedBounds(h, source);
    ReceivedBounds(h, source);
    CarriesIff(h, Implied(h, source));
    NotTooLarge(Implied(h, source), Received(h, source), h.maximum, source, h.rate.a, h.rate.b);
  }

  lemma Regroup(x: nat, y: nat, z: nat)
    ensures x * y * z == x * (y * z) && x * y * z == x * z * y
  {
  }

  /** From n * r <= m * s and s * a < (r + 1) * b, for m < r. */
  lemma NotTooLarge(n: nat, r: pos, m: nat, s: nat, a: pos, b: pos)
    requires m < r && n * r <= m * s && s * a < (r + 1) * b
    ensures n * a < (m + 1) * b
  {
    Regroup(n, a, r);
    MulMonotone(n * r, m * s, a);
    Regroup(m, s, a);
    MulMonotone(s * a, (r + 1) * b, m);
    assert n * a * r <= m * ((r + 1) * b);
    Regroup(m, r + 1, b);
    SmallerProduct(m, r);
    MulCancel(m * (r + 1), (m + 1) * r, b);
    Regroup(m + 1, r, b);
    assert n * a * r < (m + 1) * b * r;
    MulCancel(n * a, (m + 1) * b, r);
  }

  lemma SmallerProduct(m: nat, r: nat)
    requires m < r
    ensures m * (r + 1) < (m + 1) * r
  {
    assert m * (r + 1) == m * r + m && (m + 1) * r == m * r + r;
  }

  /** And it falls short by less than what one unit at the hop costs, and one unit more. */
  lemma ImpliedIsClose(h: Hop, source: nat)
    requires !Carries(h, source)
    ensures h.maximum * h.rate.b < (Implied(h, source) + 1) * h.rate.a
    ensures (Threshold(h) - Implied(h, source) - 1) * h.rate.a < h.rate.b
  {
    var n, t := Implied(h, source), Threshold(h);
    ImpliedBounds(h, source);
    ReceivedBounds(h, source);
    NotTooSmall(n, Received(h, source), h.maximum, source, h.rate.a, h.rate.b);
    CarriesIff(h, t);
    Difference(t, n + 1, h.maximum, h.rate.a, h.rate.b);
  }

  lemma Difference(t: nat, n: nat, m: nat, a: pos, b: pos)
    requires t * a < (m + 1) * b && m * b < n * a
    ensures (t - n) * a < b
  {
    assert (t - n) * a == t * a - n * a;
    assert (m + 1) * b == m * b + b;
  }

  lemma NotTooSmall(n: nat, r: pos, m: nat, s: nat, a: pos, b: pos)
    requires m * s < (n + 1) * r && r * b <= s * a
    ensures m * b < (n + 1) * a
  {
    Regroup(m, b, r);
    Regroup(m, r, b);
    MulMonotone(r * b, s * a, m);
    Regroup(m, s, a);
    MulCancel(m * s, (n + 1) * r, a);
    Regroup(n + 1, r, a);
    assert m * b * r < (n + 1) * a * r;
    MulCancel(m * b, (n + 1) * a, r);
  }

  // ---- when the implied amount is the threshold ----

  /** An amount that converts without rounding and is too large for the hop. */
  function ExactlyConverted(h: Hop): nat {
    h.rate.b * (h.maximum + 1)
  }

  lemma ExactConversion(h: Hop)
    ensures !Carries(h, ExactlyConverted(h))
    ensures Implied(h, ExactlyConverted(h)) * h.rate.a <= h.maximum * h.rate.b
  {
    var source, a, b, k := ExactlyConverted(h), h.rate.a, h.rate.b, h.maximum + 1;
    Regroup(b, k, a);
    Regroup(a, k, b);
    assert source * a == a * k * b;
    MulFloorAdjoint(a * k, source, h.rate);
    MulFloorAdjoint(a * k + 1, source, h.rate);
    assert (a * k + 1) * b == a * k * b + b;
    assert Received(h, source) == a * k;
    MulMonotone(1, a, k);
    ImpliedBounds(h, source);
    var n := Implied(h, source);
    Regroup(n, a, k);
    Regroup(h.maximum, b, k);
    MulCancel(n * a, h.maximum * b, k);
  }

  /** Every F08 of the hop implies its threshold if and only if the threshold loses nothing to rounding. */
  lemma ImpliesThresholdIff(h: Hop)
    ensures (forall source: nat :: !Carries(h, source) ==> Implied(h, source) == Threshold(h))
            <==> Threshold(h) * h.rate.a <= h.maximum * h.rate.b
  {
    if Threshold(h) * h.rate.a <= h.maximum * h.rate.b {
      forall source: nat | !Carries(h, source) ensures Implied(h, source) == Threshold(h) {
        ImpliedIsCarried(h, source);
        ImpliedIsClose(h, source);
        MulCancel(Threshold(h), Implied(h, source) + 1, h.rate.a);
      }
    } else {
      ExactConversion(h);
    }
  }

  /** No F08 of the hop ends the payment if and only if one source unit is worth at most its maximum. */
  lemma NeverAbandonsIff(h: Hop)
    ensures (forall source: nat :: !Carries(h, source) ==> Implied(h, source) > 0)
            <==> h.rate.a <= h.maximum * h.rate.b
  {
    if h.rate.a <= h.maximum * h.rate.b {
      forall source: nat | !Carries(h, source) ensures Implied(h, source) > 0 {
        ImpliedIsClose(h, source);
        MulCancel(1, Implied(h, source) + 1, h.rate.a);
      }
    } else {
      ExactConversion(h);
      MulCancel(Implied(h, ExactlyConverted(h)), 1, h.rate.a);
    }
  }

  /** A hop that carries one unit, and an F08 that ends the payment all the same. */
  lemma UsableHopIsAbandoned()
    ensures var h := Hop(Ratio(3, 2), 1);
            Carries(h, 1) && Apply(State(Unknown, 0), HopReply(h, 2)).1
  {
  }

  // ---- the controller on such a path ----

  /** After an F08 the limit is an amount the hop carries, or the payment ends. */
  lemma HopLimitIsCarried(s: State, h: Hop, source: nat)
    requires Valid(s) && source <= MAX_U64 && !Carries(h, source)
    ensures var (s', failed) := Apply(s, HopReply(h, source)); failed || Carries(h, LimitOf(s'))
  {
    var m := Metadata(Received(h, source), h.maximum);
    ImpliedIsCarried(h, source);
    if !Reduce(s, Some(m), source).1 {
      ReducesToImplied(s, Some(m), source);
      CarriesIff(h, LimitOf(Reduce(s, Some(m), source).0));
    }
  }

  /** Where nothing is lost to rounding, replies keep the threshold enclosed, and one F08 makes the limit precise. */
  lemma HopReplyFindsThreshold(s: State, h: Hop, source: nat)
    requires Encloses(s, Threshold(h)) && 1 <= Threshold(h) && source <= MAX_U64
    requires Threshold(h) * h.rate.a <= h.maximum * h.rate.b
    ensures var (s', failed) := Apply(s, HopReply(h, source));
            && !failed && Encloses(s', Threshold(h)) && Gap(s') <= Gap(s)
            && (!Carries(h, source) ==> LimitOf(s') == Threshold(h))
            && (!Carries(h, source) && Threshold(h) < LimitOf(s) ==> s'.limit == Precise(Threshold(h)))
  {
    CarriesIff(h, source);
    if !Carries(h, source) {
      ImpliesThresholdIff(h);
      assert Implied(h, source) == Threshold(h);
    }
  }
}
