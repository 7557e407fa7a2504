/** The borrow-rate curve and the compounding of interest (margin-pool util.rs and state.rs). */
module InterestRate {
  import opened Wrappers
  import opened FixedPoint

  const SECONDS_PER_HOUR: nat := 3_600
  const SECONDS_PER_2H: nat := 2 * SECONDS_PER_HOUR
  const SECONDS_PER_12H: nat := 12 * SECONDS_PER_HOUR
  const SECONDS_PER_DAY: nat := 24 * SECONDS_PER_HOUR
  const SECONDS_PER_WEEK: nat := 7 * SECONDS_PER_DAY
  const SECONDS_PER_YEAR: nat := 31_536_000
  const MAX_ACCRUAL_SECONDS: nat := SECONDS_PER_WEEK

  datatype Config = Config(
    flags: u64,
    utilizationRate1: u16,
    utilizationRate2: u16,
    borrowRate0: u16,
    borrowRate1: u16,
    borrowRate2: u16,
    borrowRate3: u16,
    managementFeeRate: u16)

  /** Linear interpolation between (x0, y0) and (x1, y1), every step truncated. */
  function Interpolate(x: Number, x0: Number, x1: Number, y0: Number, y1: Number): Option<Number> {
    if !(x0 <= x <= x1) then None
    else
      var dx :- Sub(x, x0);
      var dy :- Sub(y1, y0);
      var product :- Mul(dx, dy);
      var width :- Sub(x1, x0);
      var rise :- Div(product, width);
      Add(y0, rise)
  }

  /** The rate charged at a given utilisation of a pool that has depositors. */
  function RateAt(c: Config, utilization: Number): Option<Number> {
    var util1 := FromBps(c.utilizationRate1);
    var util2 := FromBps(c.utilizationRate2);
    var borrow1 := FromBps(c.borrowRate1);
    var borrow2 := FromBps(c.borrowRate2);
    var borrow3 := FromBps(c.borrowRate3);
    if utilization <= util1 then
      Interpolate(utilization, 0, util1, FromBps(c.borrowRate0), borrow1)
    else if utilization <= util2 then
      Interpolate(utilization, util1, util2, borrow1, borrow2)
    else if utilization < ONE then
      Interpolate(utilization, util2, ONE, borrow2, borrow3)
    else
      Some(borrow3)
  }

  /** The accumulators of the truncated Taylor expansion of exp(x) - 1. */
  datatype Expansion = Expansion(power: Number, sum: Number, factorial: u64)

  /** The accumulators after the terms up to and including the k-th. */
  function Expand(x: Number, k: nat): Option<Expansion> {
    if k <= 1 then Some(Expansion(x, x, 1))
    else
      var before :- Expand(x, k - 1);
      var power :- Mul(before.power, x);
      var factorial := (before.factorial * k) % U64_LIMIT;
      var term :- Over(power, factorial);
      var sum :- Add(before.sum, term);
      Some(Expansion(power, sum, factorial))
  }

  function Expm1(x: Number, terms: nat): Option<Number> {
    if terms == 0 then Some(0)
    else
      var e :- Expand(x, terms);
      Some(e.sum)
  }

  /** The loop that evaluates the expansion. */
  method Expm1Approx(x: Number, terms: nat) returns (r: Option<Number>)
    ensures r == Expm1(x, terms)
  {
    if terms == 0 { return Some(0); }
    if terms == 1 { return Some(x); }
    var power, sum, factorial := x, x, 1;
    var k := 2;
    while k < terms + 1
      invariant 2 <= k <= terms + 1
      invariant 0 <= power < U192_LIMIT && 0 <= sum < U192_LIMIT && 0 <= factorial < U64_LIMIT
      invariant Expand(x, k - 1) == Some(Expansion(power, sum, factorial))
    {
      var product := Mul(power, x);
      if product.None? {
        AbortPersists(x, k, terms);
        return None;
      }
      power := product.value;
      factorial := (factorial * k) % U64_LIMIT;
      var term := Over(power, factorial);
      var total := if term.Some? then Add(sum, term.value) else None;
      if total.None? {
        AbortPersists(x, k, terms);
        return None;
      }
      sum := total.value;
      k := k + 1;
    }
    r := Some(sum);
  }

  lemma {:induction false} AbortPersists(x: Number, k: nat, terms: nat)
    requires k <= terms && Expand(x, k).None?
    ensures Expand(x, terms).None?
  {
    if k < terms { AbortPersists(x, k, terms - 1); }
  }

  /** How many terms are summed for a period of the given length. */
  function Terms(seconds: int): Option<nat> {
    if seconds <= SECONDS_PER_2H then Some(5)
    else if seconds <= SECONDS_PER_12H then Some(6)
    else if seconds <= SECONDS_PER_DAY then Some(7)
    else if seconds <= SECONDS_PER_WEEK then Some(10)
    else None
  }

  function CompoundInterest(rate: Number, seconds: nat): Option<Number> {
    if rate > 2 * ONE then None
    else
      var terms :- Terms(seconds);
      var yearly :- Times(rate, seconds);
      var x :- Over(yearly, SECONDS_PER_YEAR);
      Expm1(x, terms)
  }
}
