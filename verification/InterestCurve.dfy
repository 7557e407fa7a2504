/** Properties of the truncated borrow-rate curve and of compounding. */
module InterestCurve {
  import opened Wrappers
  import opened FixedPoint
  import opened Arithmetic
  import opened InterestRate

  /** The rise of the interpolated line, with both of its truncations. */
  function Rise(dx: nat, dy: nat, width: nat): nat
    requires width > 0
  {
    DivNat(dx * dy, ONE);
    DivNat(dx * dy / ONE * ONE, width);
    dx * dy / ONE * ONE / width
  }

  lemma RiseBounds(dx: nat, dy: nat, width: nat)
    requires dx <= width && 0 < width
    ensures Rise(dx, dy, width) <= dy
  {
    DivBounds(dx * dy, ONE);
    MulMono(dx, width, dy);
    DivMono(dx * dy / ONE * ONE, dy * width, width);
    DivOfMultiple(dy, width);
  }

  lemma RiseMonotone(dx: nat, dx': nat, dy: nat, width: nat)
    requires dx <= dx' && 0 < width
    ensures Rise(dx, dy, width) <= Rise(dx', dy, width)
  {
    MulMono(dx, dx', dy);
    DivMono(dx * dy, dx' * dy, ONE);
    DivMono(dx * dy / ONE * ONE, dx' * dy / ONE * ONE, width);
  }

  /** Over a whole number of basis points both ways, the full width rises exactly. */
  lemma FullRise(dyBps: nat, widthBps: nat)
    requires 0 < widthBps
    ensures Rise(widthBps * BPS, dyBps * BPS, widthBps * BPS) == dyBps * BPS
  {
    var dy, width := dyBps * BPS, widthBps * BPS;
    assert width * dy == (widthBps * dyBps * 10_000_000) * ONE;
    DivOfMultiple(widthBps * dyBps * 10_000_000, ONE);
    assert width * dy / ONE * ONE == dy * width;
    DivOfMultiple(dy, width);
  }

  lemma InterpolateInClosedForm(x: Number, x0: Number, x1: Number, y0: Number, y1: Number)
    requires x0 <= x <= x1 < 8 * ONE && y0 <= y1 < 8 * ONE && x0 < x1
    ensures Interpolate(x, x0, x1, y0, y1) == Some(y0 + Rise(x - x0, y1 - y0, x1 - x0))
    ensures y0 <= y0 + Rise(x - x0, y1 - y0, x1 - x0) <= y1
  {
    RiseBounds(x - x0, y1 - y0, x1 - x0);
    SmallProduct(x - x0, y1 - y0);
  }

  lemma SmallProduct(dx: nat, dy: nat)
    requires dx < 8 * ONE && dy < 8 * ONE
    ensures 0 <= dx * dy < U192_LIMIT / ONE && 0 <= dx * dy / ONE * ONE <= dx * dy
  {
    MulMono(dx, 8 * ONE, dy);
    MulMono(dy, 8 * ONE, 8 * ONE);
    DivNat(dx * dy, ONE);
    DivBounds(dx * dy, ONE);
  }

  /** The knots of the curve in order, below full utilisation, and rates that do not fall. */
  predicate Proper(c: Config) {
    && 0 < c.utilizationRate1 < c.utilizationRate2 < FULL_BPS
    && c.borrowRate0 <= c.borrowRate1 <= c.borrowRate2 <= c.borrowRate3
  }

  /** The curve in closed form, one line per regime. */
  function Curve(c: Config, u: nat): nat
    requires Proper(c)
  {
    var u1, u2 := c.utilizationRate1 * BPS, c.utilizationRate2 * BPS;
    if u <= u1 then c.borrowRate0 * BPS + Rise(u, (c.borrowRate1 - c.borrowRate0) * BPS, u1)
    else if u <= u2 then c.borrowRate1 * BPS + Rise(u - u1, (c.borrowRate2 - c.borrowRate1) * BPS, u2 - u1)
    else if u < ONE then c.borrowRate2 * BPS + Rise(u - u2, (c.borrowRate3 - c.borrowRate2) * BPS, ONE - u2)
    else c.borrowRate3 * BPS
  }

  lemma RateIsCurve(c: Config, u: Number)
    requires Proper(c)
    ensures RateAt(c, u) == Some(Curve(c, u))
    ensures c.borrowRate0 * BPS <= Curve(c, u) <= c.borrowRate3 * BPS
  {
    var u1, u2 := FromBps(c.utilizationRate1), FromBps(c.utilizationRate2);
    if u <= u1 {
      InterpolateInClosedForm(u, 0, u1, FromBps(c.borrowRate0), FromBps(c.borrowRate1));
    } else if u <= u2 {
      InterpolateInClosedForm(u, u1, u2, FromBps(c.borrowRate1), FromBps(c.borrowRate2));
    } else if u < ONE {
      InterpolateInClosedForm(u, u2, ONE, FromBps(c.borrowRate2), FromBps(c.borrowRate3));
    }
  }

  /** The curve meets its configured rates exactly at the knots. */
  lemma CurveMeetsKnots(c: Config)
    requires Proper(c)
    ensures RateAt(c, 0) == Some(c.borrowRate0 * BPS)
    ensures RateAt(c, FromBps(c.utilizationRate1)) == Some(c.borrowRate1 * BPS)
    ensures RateAt(c, FromBps(c.utilizationRate2)) == Some(c.borrowRate2 * BPS)
    ensures RateAt(c, ONE) == Some(c.borrowRate3 * BPS)
  {
    CurveAtZero(c);
    CurveAtFirst(c);
    CurveAtSecond(c);
  }

  lemma CurveAtZero(c: Config)
    requires Proper(c)
    ensures RateAt(c, 0) == Some(c.borrowRate0 * BPS)
  {
    RateIsCurve(c, 0);
    NoRise((c.borrowRate1 - c.borrowRate0) * BPS, c.utilizationRate1 * BPS);
  }

  lemma CurveAtFirst(c: Config)
    requires Proper(c)
    ensures RateAt(c, FromBps(c.utilizationRate1)) == Some(c.borrowRate1 * BPS)
  {
    EndOfLine(0, c.utilizationRate1, c.borrowRate0, c.borrowRate1);
  }

  lemma CurveAtSecond(c: Config)
    requires Proper(c)
    ensures RateAt(c, FromBps(c.utilizationRate2)) == Some(c.borrowRate2 * BPS)
  {
    EndOfLine(c.utilizationRate1, c.utilizationRate2, c.borrowRate1, c.borrowRate2);
  }

  /** Between whole basis points interpolation ends exactly at the upper one. */
  lemma EndOfLine(x0: u16, x1: u16, y0: u16, y1: u16)
    requires x0 < x1 && y0 <= y1
    ensures Interpolate(FromBps(x1), FromBps(x0), FromBps(x1), FromBps(y0), FromBps(y1)) == Some(y1 * BPS)
  {
    InterpolateInClosedForm(FromBps(x1), FromBps(x0), FromBps(x1), FromBps(y0), FromBps(y1));
    RiseBetween(x0, x1, y0, y1);
  }

  lemma RiseBetween(x0: nat, x1: nat, y0: nat, y1: nat)
    requires x0 < x1 && y0 <= y1
    ensures Rise(x1 * BPS - x0 * BPS, y1 * BPS - y0 * BPS, x1 * BPS - x0 * BPS) == y1 * BPS - y0 * BPS
  {
    assert x1 * BPS - x0 * BPS == (x1 - x0) * BPS && y1 * BPS - y0 * BPS == (y1 - y0) * BPS;
    FullRise(y1 - y0, x1 - x0);
  }

  lemma NoRise(dy: nat, width: nat)
    requires 0 < width
    ensures Rise(0, dy, width) == 0
  {
    DivUnique(0, ONE, 0);
    DivUnique(0, width, 0);
  }

  /** A higher utilisation never means a lower rate, across all regimes. */
  lemma CurveIsMonotone(c: Config, u: Number, v: Number)
    requires Proper(c) && u <= v
    ensures RateAt(c, u).Some? && RateAt(c, v).Some?
    ensures FromBps(c.borrowRate0) <= RateAt(c, u).value <= RateAt(c, v).value <= FromBps(c.borrowRate3)
  {
    RateIsCurve(c, u);
    RateIsCurve(c, v);
    CurveRises(c, u, v);
  }

  lemma CurveRises(c: Config, u: nat, v: nat)
    requires Proper(c) && u <= v
    ensures Curve(c, u) <= Curve(c, v)
  {
    var u1, u2 := c.utilizationRate1 * BPS, c.utilizationRate2 * BPS;
    var b0, b1, b2, b3 := c.borrowRate0, c.borrowRate1, c.borrowRate2, c.borrowRate3;
    if v <= u1 {
      RiseMonotone(u, v, (b1 - b0) * BPS, u1);
    } else if u <= u1 {
      RiseBounds(u, (b1 - b0) * BPS, u1);
    } else if v <= u2 {
      RiseMonotone(u - u1, v - u1, (b2 - b1) * BPS, u2 - u1);
    } else if u <= u2 {
      RiseBounds(u - u1, (b2 - b1) * BPS, u2 - u1);
    } else if v < ONE {
      RiseMonotone(u - u2, v - u2, (b3 - b2) * BPS, ONE - u2);
    } else if u < ONE {
      RiseBounds(u - u2, (b3 - b2) * BPS, ONE - u2);
    }
  }

  /** No regime falls that a utilisation of at most one can enter. */
  predicate NoEnteredRegimeFalls(c: Config) {
    && 0 < c.utilizationRate1
    && c.borrowRate0 <= c.borrowRate1
    && (c.utilizationRate1 < c.utilizationRate2 && c.utilizationRate1 < FULL_BPS ==> c.borrowRate1 <= c.borrowRate2)
    && (Max(c.utilizationRate1, c.utilizationRate2) < FULL_BPS ==> c.borrowRate2 <= c.borrowRate3)
  }

  /** The regime that a utilisation enters falls, or has no width. */
  predicate Falls(c: Config, u: nat) {
    var u1, u2 := c.utilizationRate1 * BPS, c.utilizationRate2 * BPS;
    || (u <= u1 && (u1 == 0 || c.borrowRate0 > c.borrowRate1))
    || (u1 < u <= u2 && c.borrowRate1 > c.borrowRate2)
    || (u1 < u < ONE && u2 < u && c.borrowRate2 > c.borrowRate3)
  }

  /** A utilisation in a regime that falls, given in half basis points. */
  lemma FallingRegime(c: Config) returns (half: nat)
    requires !NoEnteredRegimeFalls(c)
    ensures half <= 20_000 && Falls(c, half * 50_000_000_000)
  {
    if c.utilizationRate1 == 0 || c.borrowRate0 > c.borrowRate1 {
      half := 0;
    } else if c.utilizationRate1 < Min(FULL_BPS, c.utilizationRate2) && c.borrowRate1 > c.borrowRate2 {
      half := 2 * Min(FULL_BPS, c.utilizationRate2);
    } else {
      half := 2 * Max(c.utilizationRate1, c.utilizationRate2) + 1;
    }
  }

  lemma FallingAborts(c: Config, u: Number)
    requires Falls(c, u)
    ensures RateAt(c, u).None?
  {
    var u1, u2 := FromBps(c.utilizationRate1), FromBps(c.utilizationRate2);
    InterpolationNeedsOrder(u, 0, u1, FromBps(c.borrowRate0), FromBps(c.borrowRate1));
    InterpolationNeedsOrder(u, u1, u2, FromBps(c.borrowRate1), FromBps(c.borrowRate2));
    InterpolationNeedsOrder(u, u2, ONE, FromBps(c.borrowRate2), FromBps(c.borrowRate3));
  }

  lemma InterpolationNeedsOrder(x: Number, x0: Number, x1: Number, y0: Number, y1: Number)
    ensures Interpolate(x, x0, x1, y0, y1).Some? ==> x0 < x1 && y0 <= y1
  {
  }

  lemma RegimesAreDefined(c: Config, u: Number)
    requires NoEnteredRegimeFalls(c) && u <= ONE
    ensures RateAt(c, u).Some?
  {
    var u1, u2 := FromBps(c.utilizationRate1), FromBps(c.utilizationRate2);
    if u <= u1 {
      InterpolateInClosedForm(u, 0, u1, FromBps(c.borrowRate0), FromBps(c.borrowRate1));
    } else if u <= u2 {
      InterpolateInClosedForm(u, u1, u2, FromBps(c.borrowRate1), FromBps(c.borrowRate2));
    } else if u < ONE {
      InterpolateInClosedForm(u, u2, ONE, FromBps(c.borrowRate2), FromBps(c.borrowRate3));
    }
  }

  // ---------------------------------------------------------------- compounding

  /** The factorial accumulator does not depend on the argument. */
  lemma {:induction false} ExpansionIsMonotone(x: Number, y: Number, k: nat)
    requires x <= y && Expand(x, k).Some? && Expand(y, k).Some?
    ensures Expand(x, k).value.power <= Expand(y, k).value.power
    ensures Expand(x, k).value.factorial == Expand(y, k).value.factorial
    ensures Expand(x, k).value.sum <= Expand(y, k).value.sum
  {
    if k > 1 {
      ExpansionIsMonotone(x, y, k - 1);
      var a, b := Expand(x, k - 1).value, Expand(y, k - 1).value;
      MulMono(a.power, b.power, x);
      MulMono(x, y, b.power);
      DivMono(a.power * x, b.power * y, ONE);
      DivMono(Expand(x, k).value.power, Expand(y, k).value.power, Expand(x, k).value.factorial);
    }
  }

  lemma {:induction false} MoreTermsAddMore(x: Number, k: nat, l: nat)
    requires k <= l && Expand(x, l).Some?
    ensures Expand(x, k).Some? && x <= Expand(x, k).value.sum <= Expand(x, l).value.sum
    decreases l
  {
    if k < l {
      if l > 1 {
        MoreTermsAddMore(x, k, l - 1);
        DivNat(Expand(x, l).value.power, Expand(x, l).value.factorial);
      }
    } else if l > 1 {
      MoreTermsAddMore(x, l - 1, l - 1);
      DivNat(Expand(x, l).value.power, Expand(x, l).value.factorial);
    }
  }

  /**
   The interest factor grows with the rate and with the length of the period,
   also where a longer period switches to more terms, and is at least the
   simple interest of the period.
   */
  lemma CompoundingIsMonotone(rate: Number, rate': Number, seconds: nat, seconds': nat)
    requires rate <= rate' && seconds <= seconds'
    requires CompoundInterest(rate, seconds).Some? && CompoundInterest(rate', seconds').Some?
    ensures CompoundInterest(rate, seconds).value <= CompoundInterest(rate', seconds').value
    ensures rate * seconds / SECONDS_PER_YEAR <= CompoundInterest(rate, seconds).value
  {
    MulMono(rate, rate', seconds);
    MulMono(seconds, seconds', rate');
    DivMono(rate * seconds, rate' * seconds', SECONDS_PER_YEAR);
    var x, y := rate * seconds / SECONDS_PER_YEAR, rate' * seconds' / SECONDS_PER_YEAR;
    var k, l := Terms(seconds).value, Terms(seconds').value;
    MoreTermsAddMore(x, k, k);
    MoreTermsAddMore(y, k, l);
    ExpansionIsMonotone(x, y, k);
  }
}
