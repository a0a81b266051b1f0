/** The static configuration (constants.ts): the points rate of each activity type
    and the reward catalog, and the points formula applied when an activity is
    logged (App.tsx). Rates are exact rationals `rateNum / rateDen`. */
module Constants {
  import opened Types

  /** The unit an activity's value is measured in. */
  datatype Unit = StepCount | Minutes

  /** Points per unit of value, as the fraction `rateNum / rateDen`, and the unit. */
  datatype PointsRule = PointsRule(rateNum: nat, rateDen: nat, unit: Unit)

  /** The rate table: exactly one entry per activity type. */
  function PointsConfig(t: ActivityType): (c: PointsRule)
    ensures c.rateNum > 0 && c.rateDen > 0
    ensures c.unit == StepCount <==> t == Steps
  {
    match t
    case Steps => PointsRule(1, 100, StepCount)
    case Running => PointsRule(1, 1, Minutes)
    case Cycling => PointsRule(4, 5, Minutes)
    case Gym => PointsRule(6, 5, Minutes)
    case Meditation => PointsRule(1, 2, Minutes)
    case Swimming => PointsRule(3, 2, Minutes)
  }

  /** The rate of `t` as a real number. */
  function Rate(t: ActivityType): real
  {
    PointsConfig(t).rateNum as real / PointsConfig(t).rateDen as real
  }

  /** The fractions agree with the decimal rates of the configuration. */
  lemma RatesAsConfigured()
    ensures Rate(Steps) == 0.01 && Rate(Running) == 1.0 && Rate(Cycling) == 0.8
    ensures Rate(Gym) == 1.2 && Rate(Meditation) == 0.5 && Rate(Swimming) == 1.5
  {
  }

  /** `r - 1/2 <= n/d < r + 1/2`, multiplied out by `2d`: `r` is `n/d` rounded to the
      nearest integer, halves rounded up (towards +infinity). */
  predicate RoundsHalfUp(n: int, d: int, r: int)
  {
    2 * d * r - d <= 2 * n < 2 * d * r + d
  }

  /** `Math.round(n / d)`. */
  function RoundHalfUp(n: int, d: int): (r: int)
    requires d > 0
    ensures RoundsHalfUp(n, d, r)
  {
    var q := (2 * n + d) / (2 * d);
    assert 2 * d * q <= 2 * n + d < 2 * d * q + 2 * d by {
      DivBounds(2 * n + d, 2 * d);
    }
    q
  }

  /** The Euclidean quotient brackets the dividend. */
  lemma DivBounds(a: int, b: int)
    requires b > 0
    ensures b * (a / b) <= a < b * (a / b) + b
  {
    assert a == b * (a / b) + a % b;
  }

  /** Only one integer satisfies the rounding bounds, so they define `RoundHalfUp`. */
  lemma RoundHalfUpUnique(n: int, d: int, r: int)
    requires d > 0
    requires RoundsHalfUp(n, d, r)
    ensures r == RoundHalfUp(n, d)
  {
    var q := RoundHalfUp(n, d);
    assert 2 * d * r < 2 * d * (q + 1) && 2 * d * q < 2 * d * (r + 1);
    MulCancel(2 * d, r, q);
    MulCancel(2 * d, q, r);
  }

  /** Rounding is monotone in the dividend. */
  lemma RoundMonotone(n1: int, n2: int, d: int, r1: int, r2: int)
    requires d > 0 && n1 <= n2
    requires RoundsHalfUp(n1, d, r1) && RoundsHalfUp(n2, d, r2)
    ensures r1 <= r2
  {
    assert 2 * d * r1 < 2 * d * (r2 + 1);
    MulCancel(2 * d, r1, r2);
  }

  lemma MulMonotone(c: int, a: int, b: int)
    requires c > 0 && a <= b
    ensures c * a <= c * b
  {
  }

  /** A positive factor can be cancelled from `c * a < c * (b + 1)`. */
  lemma MulCancel(c: int, a: int, b: int)
    requires c > 0 && c * a < c * (b + 1)
    ensures a <= b
  {
    if a > b {
      MulMonotone(c, b + 1, a);
    }
  }

  /** Points earned for logging `value` units of `t` (App.tsx): the value times the
      rate, rounded half up. */
  function Points(t: ActivityType, value: int): (p: int)
    ensures RoundsHalfUp(value * PointsConfig(t).rateNum, PointsConfig(t).rateDen, p)
    ensures value >= 0 ==> p >= 0
  {
    var c := PointsConfig(t);
    var n := value * c.rateNum;
    var p := RoundHalfUp(n, c.rateDen);
    assert value >= 0 ==> p >= 0 by {
      if value >= 0 {
        MulMonotone(c.rateNum, 0, value);
        RoundMonotone(0, n, c.rateDen, RoundHalfUp(0, c.rateDen), p);
        RoundHalfUpUnique(0, c.rateDen, 0);
      }
    }
    p
  }

  /** In terms of the decimal rate: the points are `value * rate` rounded to the
      nearest integer, halves upwards, as `Math.round` does. */
  lemma PointsRoundValueTimesRate(t: ActivityType, value: int)
    ensures var x := (value as real) * Rate(t);
      (Points(t, value) as real) - 0.5 <= x < (Points(t, value) as real) + 0.5
  {
    var num, den := PointsConfig(t).rateNum, PointsConfig(t).rateDen;
    ScaleFraction(value, num, den);
    RoundBoundsReal(value * num, den, Points(t, value));
  }

  /** `v * (a / b)` and `(v * a) / b` agree on the reals. */
  lemma ScaleFraction(v: int, a: int, b: int)
    requires b > 0
    ensures (v as real) * ((a as real) / (b as real)) == ((v * a) as real) / (b as real)
  {
    assert ((v * a) as real) == (v as real) * (a as real);
  }

  /** The integer rounding bounds, read as bounds on the real quotient `n / d`. */
  lemma RoundBoundsReal(n: int, d: int, p: int)
    requires d > 0
    requires RoundsHalfUp(n, d, p)
    ensures (p as real) - 0.5 <= (n as real) / (d as real) < (p as real) + 0.5
  {
    var dr, pr, nr := d as real, p as real, n as real;
    assert (d * p) as real == dr * pr;
    assert (pr - 0.5) * dr <= nr < (pr + 0.5) * dr;
    RealDivBounds(nr, pr - 0.5, pr + 0.5, dr);
  }

  /** Dividing by a positive number keeps bounds that hold after multiplying by it. */
  lemma RealDivBounds(a: real, lo: real, hi: real, c: real)
    requires c > 0.0
    requires lo * c <= a < hi * c
    ensures lo <= a / c < hi
  {
    var q := a / c;
    assert q * c == a;
    if q < lo {
      RealMulMonotone(q, lo, c);
    }
    if q >= hi {
      RealMulMonotone(hi, q, c);
    }
  }

  lemma RealMulMonotone(a: real, b: real, c: real)
    requires c > 0.0 && a <= b
    ensures a * c <= b * c
    ensures a < b ==> a * c < b * c
  {
  }

  /** Logging more never earns fewer points. */
  lemma PointsMonotone(t: ActivityType, v1: int, v2: int)
    requires v1 <= v2
    ensures Points(t, v1) <= Points(t, v2)
  {
    var num, den := PointsConfig(t).rateNum, PointsConfig(t).rateDen;
    MulMonotone(num, v1, v2);
    assert v1 * num <= v2 * num;
    RoundMonotone(v1 * num, v2 * num, den, Points(t, v1), Points(t, v2));
  }

  /** The worked examples: 30 minutes of running give 30 points, 5000 steps give 50,
      15 minutes of meditation give 7.5 rounded up to 8. */
  lemma PointsExamples()
    ensures Points(Running, 30) == 30
    ensures Points(Steps, 5000) == 50
    ensures Points(Meditation, 15) == 8
  {
    RoundHalfUpUnique(30, 1, 30);
    RoundHalfUpUnique(5000, 100, 50);
    RoundHalfUpUnique(15, 2, 8);
  }

  /** The reward catalog. */
  const InitialRewards: seq<Reward> := [
    Reward("r1", "Amazon Gift Card", Amazon, 500, "$5.00", "https://picsum.photos/seed/amazon/400/250"),
    Reward("r2", "Swiggy Food Voucher", Swiggy, 300, "₹200", "https://picsum.photos/seed/food/400/250"),
    Reward("r3", "Uber Ride Pass", Uber, 450, "$5.00", "https://picsum.photos/seed/car/400/250"),
    Reward("r4", "Nike Store Credit", Nike, 2000, "$25.00", "https://picsum.photos/seed/shoe/400/250"),
    Reward("r5", "Flipkart Voucher", Flipkart, 1000, "₹500", "https://picsum.photos/seed/shop/400/250"),
    Reward("r6", "Zomato Gold", Zomato, 800, "3 Months", "https://picsum.photos/seed/eat/400/250")
  ]

  /** The catalog has six entries with distinct ids `r1`..`r6`, each with a positive cost. */
  lemma CatalogWellFormed()
    ensures |InitialRewards| == 6
    ensures forall i :: 0 <= i < 6 ==> InitialRewards[i].id == ["r1", "r2", "r3", "r4", "r5", "r6"][i]
    ensures forall i, j :: 0 <= i < j < |InitialRewards| ==> InitialRewards[i].id != InitialRewards[j].id
    ensures forall i :: 0 <= i < |InitialRewards| ==> InitialRewards[i].pointsRequired > 0
  {
  }
}
