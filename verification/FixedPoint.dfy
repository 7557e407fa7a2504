/**
 Fixed-point numbers: a 192-bit unsigned integer counting units of 10^-15.
 Every operation of the underlying integer aborts on overflow, on a negative
 difference and on division by zero; None stands for that abort.
 */
module FixedPoint {
  import opened Wrappers

  const U16_LIMIT: nat := 0x1_0000
  const U64_LIMIT: nat := 0x1_0000_0000_0000_0000
  const I64_LIMIT: int := 0x8000_0000_0000_0000
  const U192_LIMIT: nat := 0x1_0000_0000_0000_0000_0000_0000_0000_0000_0000_0000_0000_0000

  type u16 = n: nat | n < U16_LIMIT
  type u64 = n: nat | n < U64_LIMIT
  type i64 = n: int | -I64_LIMIT <= n < I64_LIMIT
  type Number = raw: nat | raw < U192_LIMIT

  /** The raw value of 1. */
  const ONE: nat := 1_000_000_000_000_000

  /** The raw value of one basis point. */
  const BPS: nat := 100_000_000_000

  /** All of a quantity, in basis points. */
  const FULL_BPS: nat := 10_000

  function Fit(raw: int): Option<Number> {
    if 0 <= raw < U192_LIMIT then Some(raw) else None
  }

  function Fit64(n: int): Option<u64> {
    if 0 <= n < U64_LIMIT then Some(n) else None
  }

  function Add(a: Number, b: Number): Option<Number> { Fit(a + b) }

  function Sub(a: Number, b: Number): Option<Number> { Fit(a - b) }

  function SaturatingSub(a: Number, b: Number): Number { if a < b then 0 else a - b }

  function Mul(a: Number, b: Number): Option<Number> {
    var product :- Fit(a * b);
    Fit(product / ONE)
  }

  function Div(a: Number, b: Number): Option<Number> {
    var scaled :- Fit(a * ONE);
    if b == 0 then None else Fit(scaled / b)
  }

  /** Multiplication by a plain integer. */
  function Times(a: Number, k: nat): Option<Number> { Fit(a * k) }

  /** Division by a plain integer. */
  function Over(a: Number, k: nat): Option<Number> {
    if k == 0 then None else Fit(a / k)
  }

  function FromU64(n: u64): Number { n * ONE }

  function FromBps(bps: u16): Number { bps * BPS }

  /** Truncation to a multiple of the given unit, which must fit 64 bits. */
  function AsU64(a: Number, theUnit: nat): Option<u64>
    requires theUnit > 0
  {
    Fit64(a / theUnit)
  }

  function AsU64Ceil(a: Number, theUnit: nat): Option<u64>
    requires theUnit > 0
  {
    var raised :- Fit(theUnit - 1 + a);
    Fit64(raised / theUnit)
  }
}
