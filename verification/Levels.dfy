/**
 Brightness levels: the percentage the user sees and the raw value a device
 takes, each rounded from the other. Which of them survive the trip there and
 back depends on the number of levels alone.
 */
module Levels {

  const INT_MAX: nat := 0x7fff_ffff

  /** The cast of a 64-bit quotient to a 32-bit `int`. */
  function ToInt(n: nat): (r: int) {
    var low := n % 0x1_0000_0000;
    if low <= INT_MAX then low else low - 0x1_0000_0000
  }

  /** `sb_percent`. */
  function Percent(value: nat, maximum: nat): (r: int) {
    if maximum != 0 then ToInt((value * 100 + maximum / 2) / maximum) else 0
  }

  /** `sb_raw`; the products of 32-bit operands fit 64 bits. */
  function Raw(percent: int, maximum: nat): (r: nat) {
    var p: nat := if percent < 1 then 1 else if percent > 100 then 100 else percent;
    var raw := (p * maximum + 50) / 100;
    if raw != 0 then raw else 1
  }

  lemma DivIs(n: nat, d: nat, q: nat)
    requires d > 0 && q * d <= n < q * d + d
    ensures n / d == q
  {
    var t := n / d;
    assert t * d <= n < t * d + d;
    assert (t + 1) * d == t * d + d && (q + 1) * d == q * d + d;
    if t < q {
      ProductMonotone(t + 1, q, d);
    } else if q < t {
      ProductMonotone(q + 1, t, d);
    }
  }

  lemma RawMonotone(p: int, q: int, maximum: nat)
    requires p <= q
    ensures Raw(p, maximum) <= Raw(q, maximum)
  {
    var a: nat := if p < 1 then 1 else if p > 100 then 100 else p;
    var b: nat := if q < 1 then 1 else if q > 100 then 100 else q;
    ProductMonotone(a, b, maximum);
  }

  lemma ProductMonotone(a: nat, b: nat, m: nat)
    requires a <= b
    ensures a * m <= b * m
  {
  }

  /** The raw value is a level of the device, unless the device has none. */
  lemma RawInRange(p: int, maximum: nat)
    ensures 1 <= Raw(p, maximum) <= maximum <==> maximum >= 1
  {
    var a: nat := if p < 1 then 1 else if p > 100 then 100 else p;
    ProductMonotone(a, 100, maximum);
  }

  /** No wrap-around happens for levels of the device. */
  lemma PercentOfLevel(value: nat, maximum: nat)
    requires 1 <= maximum && value <= maximum
    ensures Percent(value, maximum) == (value * 100 + maximum / 2) / maximum
    ensures 0 <= Percent(value, maximum) <= 100
  {
    hide ToInt;
    var n := value * 100 + maximum / 2;
    var q := n / maximum;
    QuotientAtMost(n, maximum, 100);
    SmallFits(q);
  }

  lemma SmallFits(q: nat)
    requires q <= 100
    ensures ToInt(q) == q
  {
  }

  lemma QuotientAtMost(n: nat, d: nat, k: nat)
    requires d > 0 && n < k * d + d
    ensures n / d <= k
  {
    var q := n / d;
    assert q * d <= n;
    assert (k + 1) * d == k * d + d;
    if q > k {
      ProductMonotone(k + 1, q, d);
    }
  }

  lemma QuotientMonotone(a: nat, b: nat, d: nat)
    requires a <= b && d > 0
    ensures a / d <= b / d
  {
    var p, q := a / d, b / d;
    assert p * d <= a && b < q * d + d;
    assert (q + 1) * d == q * d + d;
    if q + 1 <= p {
      ProductMonotone(q + 1, p, d);
    }
  }

  lemma PercentMonotone(a: nat, b: nat, maximum: nat)
    requires 1 <= maximum && a <= b <= maximum
    ensures Percent(a, maximum) <= Percent(b, maximum)
  {
    PercentOfLevel(a, maximum);
    PercentOfLevel(b, maximum);
    QuotientMonotone(a * 100 + maximum / 2, b * 100 + maximum / 2, maximum);
  }

  /** The rounded percentage before the cast. */
  function Quotient(value: nat, maximum: nat): (r: nat)
    requires maximum >= 1
  {
    (value * 100 + maximum / 2) / maximum
  }

  lemma QuotientStep(value: nat, maximum: nat)
    requires maximum >= 1
    ensures Quotient(value, maximum) <= Quotient(value + 1, maximum) <= Quotient(value, maximum) + 100
  {
    var n := value * 100 + maximum / 2;
    QuotientMonotone(n, n + 100, maximum);
    var q := n / maximum;
    assert n < q * maximum + maximum;
    assert (q + 100) * maximum == q * maximum + 100 * maximum;
    QuotientAtMost(n + 100, maximum, q + 100);
  }

  ghost predicate MonotoneUpTo(n: nat, maximum: nat) {
    forall a: nat, b: nat :: a <= b <= n ==> Percent(a, maximum) <= Percent(b, maximum)
  }

  /** The last value whose percentage survives the cast is followed by one that does not. */
  lemma {:induction false} WhereItWraps(n: nat, maximum: nat) returns (v: nat)
    requires maximum >= 1 && Quotient(n, maximum) > INT_MAX
    ensures v < n && Quotient(v, maximum) <= INT_MAX < Quotient(v + 1, maximum)
    decreases n
  {
    hide Quotient;
    if n == 0 {
      NothingIsZero(maximum);
    } else if Quotient(n - 1, maximum) > INT_MAX {
      v := WhereItWraps(n - 1, maximum);
    } else {
      v := n - 1;
    }
  }

  lemma NothingIsZero(maximum: nat)
    requires maximum >= 1
    ensures Quotient(0, maximum) == 0
  {
  }

  /**
   The percentage rises with the value up to `n` if and only if the percentage of `n` fits an `int`. The callers
   pass no value above the maximum, whose percentage is 100.
   */
  lemma PercentMonotoneIff(n: nat, maximum: nat)
    requires maximum >= 1
    ensures MonotoneUpTo(n, maximum) <==> Quotient(n, maximum) <= INT_MAX
  {
    hide Quotient;
    if Quotient(n, maximum) <= INT_MAX {
      forall a: nat, b: nat | a <= b <= n ensures Percent(a, maximum) <= Percent(b, maximum) {
        PercentFits(a, n, maximum);
        PercentFits(b, n, maximum);
        QuotientRises(a, b, maximum);
      }
    } else {
      var v := WhereItWraps(n, maximum);
      QuotientStep(v, maximum);
      PercentFits(v, v, maximum);
      PercentIsCast(v + 1, maximum);
      assert Percent(v + 1, maximum) < 0 <= Percent(v, maximum);
    }
  }

  lemma QuotientRises(a: nat, b: nat, maximum: nat)
    requires maximum >= 1 && a <= b
    ensures Quotient(a, maximum) <= Quotient(b, maximum)
  {
    QuotientMonotone(a * 100 + maximum / 2, b * 100 + maximum / 2, maximum);
  }

  lemma PercentIsCast(value: nat, maximum: nat)
    requires maximum >= 1
    ensures Percent(value, maximum) == ToInt(Quotient(value, maximum))
  {
  }

  lemma PercentFits(value: nat, n: nat, maximum: nat)
    requires maximum >= 1 && value <= n && Quotient(n, maximum) <= INT_MAX
    ensures Percent(value, maximum) == Quotient(value, maximum)
  {
    hide Quotient;
    QuotientRises(value, n, maximum);
    PercentIsCast(value, maximum);
  }

  lemma PercentOfRaw(p: nat, maximum: nat)
    requires 1 <= p <= 100 && maximum >= 100
    ensures Percent(Raw(p, maximum), maximum) == p
  {
    var raw := Raw(p, maximum);
    RawInRange(p, maximum);
    ProductMonotone(1, p, maximum);
    PercentOfLevel(raw, maximum);
    var n := raw * 100 + maximum / 2;
    if maximum == 100 {
      assert raw == p;
    } else {
      assert p * maximum <= n < p * maximum + maximum;
    }
    DivIs(n, maximum, p);
  }

  lemma RawOfPercent(r: nat, maximum: nat)
    requires 1 <= r <= maximum <= 100
    ensures Raw(Percent(r, maximum), maximum) == r
  {
    PercentOfLevel(r, maximum);
    var n := r * 100 + maximum / 2;
    if maximum == 100 {
      DivIs(n, 100, r);
    } else {
      var p := n / maximum;
      assert p * maximum <= n < p * maximum + maximum;
      assert p >= 1;
      DivIs(p * maximum + 50, 100, r);
    }
  }

  // ----- exactly when the round trips hold for every level -----

  ghost predicate PercentsSurvive(maximum: nat) {
    forall p: nat :: 1 <= p <= 100 ==> Percent(Raw(p, maximum), maximum) == p
  }

  ghost predicate LevelsSurvive(maximum: nat) {
    forall r: nat :: 1 <= r <= maximum ==> Raw(Percent(r, maximum), maximum) == r
  }

  /** Distinct percentages need distinct raw values. */
  lemma {:induction false} RawClimbs(p: nat, maximum: nat)
    requires PercentsSurvive(maximum) && 1 <= p <= 100
    ensures Raw(p, maximum) >= p
    decreases p
  {
    if p > 1 {
      RawClimbs(p - 1, maximum);
      RawMonotone(p - 1, p, maximum);
      assert Percent(Raw(p - 1, maximum), maximum) == p - 1;
    }
  }

  /** Every percentage survives the trip through the device exactly when it has at least 100 levels. */
  lemma PercentsSurviveIff(maximum: nat)
    ensures PercentsSurvive(maximum) <==> maximum >= 100
  {
    if maximum >= 100 {
      forall p: nat | 1 <= p <= 100 ensures Percent(Raw(p, maximum), maximum) == p {
        PercentOfRaw(p, maximum);
      }
    } else if PercentsSurvive(maximum) {
      RawClimbs(100, maximum);
      RawInRange(100, maximum);
    }
  }

  /** The lowest level is also what 1 per cent gives, so the percentages in use start at 1. */
  lemma {:induction false} PercentClimbsFrom(r: nat, maximum: nat)
    requires LevelsSurvive(maximum) && 2 <= r <= maximum
    ensures Percent(r, maximum) >= r
    decreases r
  {
    PercentOfLevel(r, maximum);
    PercentOfLevel(r - 1, maximum);
    PercentMonotone(r - 1, r, maximum);
    assert Raw(Percent(r, maximum), maximum) == r && Raw(Percent(r - 1, maximum), maximum) == r - 1;
    if r > 2 {
      PercentClimbsFrom(r - 1, maximum);
    } else if Percent(2, maximum) <= 1 {
      RawMonotone(Percent(2, maximum), 1, maximum);
      RawMonotone(1, Percent(1, maximum), maximum);
    }
  }

  /** Every level survives the trip through the percentage exactly when the device has at most 100. */
  lemma LevelsSurviveIff(maximum: nat)
    ensures LevelsSurvive(maximum) <==> maximum <= 100
  {
    if maximum <= 100 {
      forall r: nat | 1 <= r <= maximum ensures Raw(Percent(r, maximum), maximum) == r {
        RawOfPercent(r, maximum);
      }
    } else if LevelsSurvive(maximum) {
      PercentClimbsFrom(maximum, maximum);
      PercentOfLevel(maximum, maximum);
    }
  }

  /** A percentage from 1 to 100 becomes the nearest level, but at least 1; others count as 1 or as 100. */
  lemma RawIsNearest(percent: int, maximum: nat)
    ensures percent < 1 ==> Raw(percent, maximum) == Raw(1, maximum)
    ensures percent > 100 ==> Raw(percent, maximum) == Raw(100, maximum)
    ensures 1 <= percent <= 100 ==>
              var r, exact := Raw(percent, maximum), percent * maximum;
              r >= 1 && exact < 100 * r + 50 && (r > 1 ==> 100 * r <= exact + 50)
  {
  }

  /** A level becomes the nearest percentage. */
  lemma PercentIsNearest(value: nat, maximum: nat)
    requires 1 <= maximum && value <= maximum
    ensures var r := Percent(value, maximum);
            0 <= r && 2 * r * maximum <= 200 * value + maximum && 200 * value < 2 * r * maximum + maximum + 1
  {
    PercentOfLevel(value, maximum);
    var q := (value * 100 + maximum / 2) / maximum;
    assert q * maximum <= value * 100 + maximum / 2 < (q + 1) * maximum;
    assert (q + 1) * maximum == q * maximum + maximum;
  }

  lemma NoLevels(value: nat)
    ensures Percent(value, 0) == 0
  {
  }
}
