/** The interest factor against the exact Taylor polynomial that its truncated expansion stands for. */
module InterestFactor {
  import opened Wrappers
  import opened FixedPoint
  import opened Arithmetic
  import opened InterestRate

  // --------------------------------------------------- the exact polynomial

  function Factorial(k: nat): nat
    ensures Factorial(k) > 0
  {
    if k == 0 then 1 else Factorial(k - 1) * k
  }

  function Power(x: real, k: nat): real {
    if k == 0 then 1.0 else Power(x, k - 1) * x
  }

  /** The sum of x^i / i! for i from 1 to n. */
  function Taylor(x: real, n: nat): real {
    if n == 0 then 0.0 else Taylor(x, n - 1) + Power(x, n) / Factorial(n) as real
  }

  /** The number that a fixed-point number stands for. */
  function Exact(x: nat): real { x as real / ONE as real }

  lemma ScaledDown(a: real, x: real)
    requires 0.0 <= a && 0.0 <= x <= 1.0
    ensures 0.0 <= a * x <= a
  {
  }

  lemma {:induction false} FactorialGrows(k: nat, l: nat)
    requires k <= l
    ensures Factorial(k) <= Factorial(l)
  {
    if k < l {
      FactorialGrows(k, l - 1);
      MulMono(1, l, Factorial(l - 1));
    }
  }

  lemma FactorialsFit(k: nat)
    requires k <= 10
    ensures Factorial(k) < U64_LIMIT
  {
    FactorialGrows(k, 10);
    assert Factorial(5) == 120;
    assert Factorial(10) == 3_628_800;
  }

  lemma {:induction false} FactorialIsAtLeast(k: nat)
    ensures k <= Factorial(k)
  {
    if k > 0 { MulMono(1, Factorial(k - 1), k); }
  }

  // ------------------------------------------------- what truncation cuts off

  /** A truncated quotient is short of the exact one by less than one. */
  lemma Truncated(a: nat, b: nat)
    requires b > 0
    ensures 0 <= a / b
    ensures a as real / b as real - 1.0 < (a / b) as real <= a as real / b as real
  {
    DivNat(a, b);
    DivBounds(a, b);
    RealQuotient(a, b, a / b);
  }

  lemma RealQuotient(a: nat, b: nat, q: nat)
    requires b > 0 && q * b <= a < q * b + b
    ensures a as real / b as real - 1.0 < q as real <= a as real / b as real
  {
    assert (q * b) as real == q as real * b as real;
    RealQuotientWithin(a as real, b as real, q as real);
  }

  lemma RealQuotientWithin(x: real, y: real, z: real)
    requires y > 0.0 && z * y <= x < z * y + y
    ensures x / y - 1.0 < z <= x / y
  {
    MultipliedBack(x / y, x, y, z, z * y);
  }

  // Products of reals are named, so that the solver compares them as they stand.

  lemma MultipliedBack(exact: real, x: real, y: real, z: real, zy: real)
    requires y > 0.0 && exact * y == x && zy == z * y && zy <= x < zy + y
    ensures exact - 1.0 < z <= exact
  {
    Ordered(z, exact, y, zy, x);
    LessOne(exact, y, x);
    Ordered(exact - 1.0, z, y, x - y, zy);
  }

  lemma Ordered(p: real, q: real, f: real, pf: real, qf: real)
    requires pf == p * f && qf == q * f && 0.0 < f && pf <= qf
    ensures p <= q && (pf < qf ==> p < q)
  {
    if p > q {
      Positive(p - q, f);
      Difference(p, q, f, pf, qf);
    }
  }

  lemma Positive(a: real, b: real)
    requires 0.0 < a && 0.0 < b
    ensures 0.0 < a * b
  {
  }

  lemma Difference(p: real, q: real, f: real, pf: real, qf: real)
    requires pf == p * f && qf == q * f
    ensures (p - q) * f == pf - qf
  {
  }

  lemma LessOne(q: real, f: real, qf: real)
    requires qf == q * f
    ensures (q - 1.0) * f == qf - f
  {
  }

  lemma Associates(a: real, b: real, c: real, bc: real)
    requires b * c == bc
    ensures (a * b) * c == a * bc
  {
  }

  predicate PowerClose(x: nat, k: nat, power: nat) {
    ONE as real * Power(Exact(x), k) - k as real <= power as real <= ONE as real * Power(Exact(x), k)
  }

  predicate SumClose(x: nat, k: nat, sum: nat) {
    ONE as real * Taylor(Exact(x), k) - (2 * k) as real <= sum as real <= ONE as real * Taylor(Exact(x), k)
  }

  /** The accumulators after k terms are the exact ones, cut off by at most k and 2k raw units. */
  predicate Close(x: nat, k: nat, e: Expansion) {
    && e.factorial == Factorial(k)
    && PowerClose(x, k, e.power) && e.power <= x
    && SumClose(x, k, e.sum) && e.sum <= k * x
  }

  lemma NextPower(x: nat, k: nat, power: nat)
    requires x <= ONE && k >= 1 && power <= x
    requires PowerClose(x, k - 1, power)
    ensures 0 <= power * x / ONE <= x && PowerClose(x, k, power * x / ONE)
  {
    NextIsSmall(power, x);
    Truncated(power * x, ONE);
    ExactRatio(power, x);
    NextPowerClose(x, k, power, power * x / ONE);
  }

  lemma NextPowerClose(x: nat, k: nat, power: nat, next: nat)
    requires x <= ONE && k >= 1 && PowerClose(x, k - 1, power)
    requires power as real * Exact(x) - 1.0 < next as real <= power as real * Exact(x)
    ensures PowerClose(x, k, next)
  {
    var y, before, scale := Exact(x), Power(Exact(x), k - 1), ONE as real;
    UnitInterval(x);
    Associates(scale, before, y, before * y);
    PowerWithin(scale * before, y, power as real, (k - 1) as real, scale * (before * y), power as real * y);
    LessByOne(scale * (before * y), power as real * y, (k - 1) as real, next as real);
    OneMore(x, k);
  }

  lemma OneMore(x: nat, k: nat)
    requires k >= 1
    ensures Power(Exact(x), k) == Power(Exact(x), k - 1) * Exact(x) && (k - 1) as real + 1.0 == k as real
  {
  }

  lemma LessByOne(exact: real, a: real, off: real, next: real)
    requires exact - off <= a <= exact && a - 1.0 < next <= a
    ensures exact - (off + 1.0) <= next <= exact
  {
  }

  lemma NextIsSmall(power: nat, x: nat)
    requires power <= ONE && x <= ONE
    ensures 0 <= power * x / ONE <= x
  {
    DivNat(power * x, ONE);
    MulMono(power, ONE, x);
    DivMono(power * x, x * ONE, ONE);
    DivOfMultiple(x, ONE);
  }

  lemma UnitInterval(x: nat)
    requires x <= ONE
    ensures 0.0 <= Exact(x) <= 1.0
  {
  }

  lemma ExactRatio(power: nat, x: nat)
    ensures (power * x) as real / ONE as real == power as real * Exact(x)
  {
    assert (power * x) as real == power as real * x as real;
    RatioOfProduct(power as real, x as real, ONE as real);
  }

  lemma RatioOfProduct(a: real, b: real, c: real)
    requires c > 0.0
    ensures a * b / c == a * (b / c)
  {
  }

  lemma PowerWithin(b: real, y: real, a: real, off: real, bigger: real, ay: real)
    requires bigger == b * y && ay == a * y && b - off <= a <= b && 0.0 <= y <= 1.0
    ensures bigger - off <= ay <= bigger
  {
    ScaledDown(b - a, y);
    Difference(b, a, y, bigger, ay);
  }

  lemma NextTerm(x: nat, k: nat, power: nat)
    requires k >= 1 && PowerClose(x, k, power)
    ensures 0 <= power / Factorial(k) <= power
    ensures var exact := ONE as real * (Power(Exact(x), k) / Factorial(k) as real);
            exact - 2.0 <= (power / Factorial(k)) as real <= exact
  {
    var f := Factorial(k);
    DivNat(power, f);
    Truncated(power, f);
    FactorialIsAtLeast(k);
    Quotients(power as real, Power(Exact(x), k), ONE as real, k as real, f as real);
  }

  lemma Quotients(a: real, b: real, scale: real, off: real, f: real)
    requires scale * b - off <= a <= scale * b && 0.0 <= off <= f && 0.0 < f
    ensures scale * (b / f) - 1.0 <= a / f <= scale * (b / f)
  {
    Multiplied(a / f, b / f, a, b, scale, off, f);
  }

  lemma Multiplied(p: real, q: real, a: real, b: real, scale: real, off: real, f: real)
    requires p * f == a && q * f == b && scale * b - off <= a <= scale * b && 0.0 <= off <= f && 0.0 < f
    ensures scale * q - 1.0 <= p <= scale * q
  {
    Associates(scale, q, f, b);
    QuotientWithin(p, scale * q, f, off, a, scale * b);
  }

  lemma QuotientWithin(p: real, q: real, f: real, off: real, pf: real, qf: real)
    requires pf == p * f && qf == q * f && 0.0 <= off <= f && 0.0 < f && qf - off <= pf <= qf
    ensures q - 1.0 <= p <= q
  {
    Ordered(p, q, f, pf, qf);
    LessOne(q, f, qf);
    Ordered(q - 1.0, p, f, qf - f, pf);
  }

  /** No step of the expansion aborts for arguments up to one, and each is close to the exact one. */
  lemma {:induction false} ExpansionIsClose(x: Number, k: nat)
    requires x <= ONE && 1 <= k <= 10
    ensures Expand(x, k).Some? && Close(x, k, Expand(x, k).value)
  {
    if k == 1 {
      FirstIsExact(x);
    } else {
      ExpansionIsClose(x, k - 1);
      NextIsClose(x, k, Expand(x, k - 1).value);
    }
  }

  lemma FirstIsExact(x: Number)
    requires x <= ONE
    ensures Close(x, 1, Expansion(x, x, 1))
  {
    assert Power(Exact(x), 0) == 1.0 && Taylor(Exact(x), 0) == 0.0 && Factorial(0) == 1;
    assert ONE as real * Exact(x) == x as real;
    assert Power(Exact(x), 1) == Exact(x) && Taylor(Exact(x), 1) == Exact(x);
  }

  lemma NextIsClose(x: Number, k: nat, before: Expansion)
    requires x <= ONE && 1 < k <= 10 && Expand(x, k - 1) == Some(before) && Close(x, k - 1, before)
    ensures Expand(x, k).Some? && Close(x, k, Expand(x, k).value)
  {
    var power := before.power * x / ONE;
    var term := power / Factorial(k);
    NextPower(x, k, before.power);
    NextTerm(x, k, power);
    NextSum(x, k, before.sum, term);
    SmallProduct(before.power, x);
    FactorialsFit(k);
    OneMoreTime(x, k);
    ExpandsTo(x, k, before, power, Factorial(k), term);
  }

  lemma OneMoreTime(x: nat, k: nat)
    requires x <= ONE && 1 < k <= 10
    ensures (k - 1) * x + x == k * x && k * x <= 10 * ONE
  {
    MulMono(k, 10, x);
  }

  lemma NextSum(x: nat, k: nat, sum: nat, term: nat)
    requires k >= 1 && SumClose(x, k - 1, sum)
    requires var exact := ONE as real * (Power(Exact(x), k) / Factorial(k) as real);
             exact - 2.0 <= term as real <= exact
    ensures SumClose(x, k, sum + term)
  {
    var t, q := Taylor(Exact(x), k - 1), Power(Exact(x), k) / Factorial(k) as real;
    assert Taylor(Exact(x), k) == t + q;
    assert ONE as real * (t + q) == ONE as real * t + ONE as real * q;
  }

  lemma ExpandsTo(x: Number, k: nat, before: Expansion, power: Number, factorial: u64, term: Number)
    requires 1 < k && Expand(x, k - 1) == Some(before) && Mul(before.power, x) == Some(power)
    requires before.factorial * k == factorial && 0 < factorial && power / factorial == term
    requires before.sum + term < U192_LIMIT
    ensures Expand(x, k) == Some(Expansion(power, before.sum + term, factorial))
  {
    NoWrap(before.factorial * k);
    assert Over(power, factorial) == Some(term) && Add(before.sum, term) == Some(before.sum + term);
  }

  lemma NoWrap(n: nat)
    requires n < U64_LIMIT
    ensures n % U64_LIMIT == n
  {
  }

  lemma SmallProduct(power: Number, x: Number)
    requires power <= ONE && x <= ONE
    ensures Mul(power, x) == Some(power * x / ONE)
  {
    NextIsSmall(power, x);
    MulMono(power, ONE, x);
    MulMono(x, ONE, ONE);
  }

  // -------------------------------------------------------- the interest factor

  /** How many terms are summed: more for longer periods. */
  function TermsFor(seconds: nat): nat {
    if seconds <= 7_200 then 5 else if seconds <= 43_200 then 6 else if seconds <= 86_400 then 7 else 10
  }

  /** The interest of a period at a yearly rate, without compounding. */
  function SimpleInterest(rate: nat, seconds: nat): nat {
    DivNat(rate * seconds, 31_536_000);
    rate * seconds / 31_536_000
  }

  /**
   The factor exists exactly for rates up to two and periods up to a week. It
   is the Taylor polynomial of exp(x) - 1, at the simple interest of the period
   and with terms by its length, but for at most two raw units a term.
   */
  lemma FactorIsTaylor(rate: Number, seconds: nat)
    ensures CompoundInterest(rate, seconds).Some? <==> rate <= 2 * ONE && seconds <= 604_800
    ensures CompoundInterest(rate, seconds).Some? ==>
              var factor, n := CompoundInterest(rate, seconds).value, TermsFor(seconds);
              var exact := ONE as real * Taylor(Exact(SimpleInterest(rate, seconds)), n);
              exact - (2 * n) as real <= factor as real <= exact && factor <= ONE
  {
    if rate <= 2 * ONE && seconds <= 604_800 {
      ShortPeriod(rate, seconds);
      var x, n := SimpleInterest(rate, seconds), TermsFor(seconds);
      ExpansionIsClose(x, n);
      MulMono(n, 10, x);
    }
  }

  lemma ShortPeriod(rate: nat, seconds: nat)
    requires rate <= 2 * ONE && seconds <= 604_800
    ensures rate * seconds < U192_LIMIT && SimpleInterest(rate, seconds) <= ONE / 26
  {
    MulMono(rate, 2 * ONE, seconds);
    MulMono(seconds, 604_800, 2 * ONE);
    DivMono(rate * seconds, 2 * ONE * 604_800, 31_536_000);
  }
}
