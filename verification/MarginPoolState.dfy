/**
 The accounting of a margin pool as functions of its state: what each operation
 of the pool makes of the state, or the error with which it aborts.
 */
module MarginPoolState {
  import opened Wrappers
  import opened FixedPoint
  import opened Arithmetic
  import opened InterestRate

  datatype Pool = Pool(
    config: Config,
    borrowedTokens: Number,
    uncollectedFees: Number,
    depositTokens: u64,
    depositNotes: u64,
    loanNotes: u64,
    accruedUntil: i64)

  datatype FullAmount = FullAmount(tokens: u64, notes: u64)

  datatype AmountKind = Tokens | Notes
  datatype Amount = Amount(kind: AmountKind, value: u64)
  datatype Action = Borrow | Deposit | Repay | Withdraw
  datatype Rounding = Down | Up
  datatype ChangeKind = SetTo | ShiftBy
  datatype TokenChange = TokenChange(kind: ChangeKind, tokens: u64)

  datatype Error =
    | Panic
    | InsufficientLiquidity
    | DepositsOnly
    | ExceedsMaxBorrowUtilRatio
    | RepaymentExceedsTotalOutstanding
    | InvalidAmount
    | InvalidSetTo

  const MAX_POOL_UTIL_RATIO_AFTER_BORROW_BPS: nat := 9_500

  // ---------------------------------------------------------------- rates

  function TotalValue(p: Pool): Option<Number> {
    Add(p.borrowedTokens, FromU64(p.depositTokens))
  }

  function DepositNoteRate(p: Pool): Option<Number> {
    var value :- TotalValue(p);
    var equity :- Sub(Max(ONE, value), p.uncollectedFees);
    Div(equity, FromU64(Max(1, p.depositNotes)))
  }

  function LoanNoteRate(p: Pool): Option<Number> {
    Div(Max(ONE, p.borrowedTokens), FromU64(Max(1, p.loanNotes)))
  }

  function UtilizationRate(p: Pool): Option<Number> {
    var value :- TotalValue(p);
    Div(p.borrowedTokens, value)
  }

  function CurrentInterestRate(p: Pool): Option<Number> {
    if p.depositNotes == 0 then Some(FromBps(p.config.borrowRate1))
    else
      var utilization :- UtilizationRate(p);
      RateAt(p.config, utilization)
  }

  // ---------------------------------------------------------- conversions

  /** The rounding that favours the pool. */
  function Direction(action: Action, kind: AmountKind): Rounding {
    match (action, kind)
    case (Borrow, Tokens) => Up
    case (Deposit, Notes) => Up
    case (Repay, Notes) => Up
    case (Withdraw, Tokens) => Up
    case (Borrow, Notes) => Down
    case (Deposit, Tokens) => Down
    case (Repay, Tokens) => Down
    case (Withdraw, Notes) => Down
  }

  function Round(x: Number, rounding: Rounding): Option<u64> {
    match rounding
    case Down => AsU64(x, ONE)
    case Up => AsU64Ceil(x, ONE)
  }

  function ConvertAtRate(amount: Amount, rounding: Rounding, rate: Number): Option<FullAmount> {
    match amount.kind
    case Tokens =>
      var quotient :- Div(FromU64(amount.value), rate);
      var notes :- Round(quotient, rounding);
      Some(FullAmount(amount.value, notes))
    case Notes =>
      var product :- Mul(FromU64(amount.value), rate);
      var tokens :- Round(product, rounding);
      Some(FullAmount(tokens, amount.value))
  }

  function RateFor(p: Pool, action: Action): Option<Number> {
    match action
    case Deposit => DepositNoteRate(p)
    case Withdraw => DepositNoteRate(p)
    case Repay => LoanNoteRate(p)
    case Borrow => LoanNoteRate(p)
  }

  function ConvertAmount(p: Pool, amount: Amount, action: Action): Result<FullAmount, Error> {
    var rate :- OkOr(RateFor(p, action), Panic);
    var full :- OkOr(ConvertAtRate(amount, Direction(action, amount.kind), rate), Panic);
    if (full.notes == 0 && full.tokens > 0) || (full.tokens == 0 && full.notes > 0)
    then Err(InvalidAmount)
    else Ok(full)
  }

  function CalculateSetAmount(p: Pool, currentNotes: u64, target: Amount, action: Action): Result<FullAmount, Error> {
    var full :- ConvertAmount(p, target, action);
    var delta :- OkOr(
      match action
      case Borrow => Fit64(full.notes - currentNotes)
      case Deposit => Fit64(full.notes - currentNotes)
      case Withdraw => Fit64(currentNotes - full.notes)
      case Repay => Fit64(currentNotes - full.notes),
      InvalidSetTo);
    ConvertAmount(p, Amount(Notes, delta), action)
  }

  function CalculateFullAmount(p: Pool, currentNotes: u64, change: TokenChange, action: Action)
    : Result<FullAmount, Error>
  {
    match change.kind
    case ShiftBy => ConvertAmount(p, Amount(Tokens, change.tokens), action)
    case SetTo => CalculateSetAmount(p, currentNotes, Amount(Tokens, change.tokens), action)
  }

  // ------------------------------------------------------------ transitions

  function AfterDeposit(p: Pool, a: FullAmount): Option<Pool> {
    var tokens :- Fit64(p.depositTokens + a.tokens);
    var notes :- Fit64(p.depositNotes + a.notes);
    Some(p.(depositTokens := tokens, depositNotes := notes))
  }

  function AfterWithdraw(p: Pool, a: FullAmount): Result<Pool, Error> {
    var tokens :- OkOr(Fit64(p.depositTokens - a.tokens), InsufficientLiquidity);
    var notes :- OkOr(Fit64(p.depositNotes - a.notes), InsufficientLiquidity);
    Ok(p.(depositTokens := tokens, depositNotes := notes))
  }

  predicate AllowsLending(c: Config) { (c.flags / 2) % 2 == 1 }

  function AfterBorrow(p: Pool, a: FullAmount): Result<Pool, Error> {
    if !AllowsLending(p.config) then Err(DepositsOnly)
    else
      var tokens :- OkOr(Fit64(p.depositTokens - a.tokens), InsufficientLiquidity);
      var notes :- OkOr(Fit64(p.loanNotes + a.notes), Panic);
      var borrowed :- OkOr(Add(p.borrowedTokens, FromU64(a.tokens)), Panic);
      var p' := p.(depositTokens := tokens, loanNotes := notes, borrowedTokens := borrowed);
      var utilization :- OkOr(UtilizationRate(p'), Panic);
      var utilizationBps :- OkOr(AsU64(utilization, BPS), Panic);
      if utilizationBps > MAX_POOL_UTIL_RATIO_AFTER_BORROW_BPS then Err(ExceedsMaxBorrowUtilRatio)
      else Ok(p')
  }

  /** The part shared by the two kinds of repayment: burn loan notes and reduce the debt. */
  function AfterDebtReduction(p: Pool, a: FullAmount): Result<Pool, Error> {
    var notes :- OkOr(Fit64(p.loanNotes - a.notes), InsufficientLiquidity);
    var outstanding :- OkOr(AsU64Ceil(p.borrowedTokens, ONE), Panic);
    if outstanding < a.tokens then Err(RepaymentExceedsTotalOutstanding)
    else Ok(p.(loanNotes := notes, borrowedTokens := SaturatingSub(p.borrowedTokens, FromU64(a.tokens))))
  }

  function AfterRepay(p: Pool, a: FullAmount): Result<Pool, Error> {
    var tokens :- OkOr(Fit64(p.depositTokens + a.tokens), Panic);
    AfterDebtReduction(p.(depositTokens := tokens), a)
  }

  function AfterMarginRepay(p: Pool, repay: FullAmount, withdraw: FullAmount): Result<Pool, Error> {
    var notes :- OkOr(Fit64(p.depositNotes - withdraw.notes), InsufficientLiquidity);
    AfterDebtReduction(p.(depositNotes := notes), repay)
  }

  /** A difference of two timestamps, kept to 64 bits as release builds compute it. */
  function WrapI64(n: int): i64 {
    (n + I64_LIMIT) % (2 * I64_LIMIT) - I64_LIMIT
  }

  /** The state after accruing interest over a period of some seconds. */
  function AccrueFor(p: Pool, period: nat): Option<Pool> {
    var rate :- CurrentInterestRate(p);
    var factor :- CompoundInterest(rate, period);
    var interest :- Mul(p.borrowedTokens, factor);
    var fee :- Mul(interest, FromBps(p.config.managementFeeRate));
    var borrowed :- Add(p.borrowedTokens, interest);
    var fees :- Add(p.uncollectedFees, fee);
    var until := p.accruedUntil + period;
    if until >= I64_LIMIT then None
    else Some(p.(borrowedTokens := borrowed, uncollectedFees := fees, accruedUntil := until))
  }

  /** The state after accruing interest up to a time, and whether interest is now up to date. */
  function AfterAccrual(p: Pool, time: i64): Option<(Pool, bool)> {
    var behind := WrapI64(time - p.accruedUntil);
    var period := Min(behind, MAX_ACCRUAL_SECONDS);
    if period < 0 then None
    else if period == 0 then Some((p, true))
    else
      var p' :- AccrueFor(p, period);
      Some((p', behind == period))
  }

  /** How many deposit notes the fees set aside are worth, rounded down. */
  function FeeNotes(p: Pool, rate: Number): Option<u64> {
    var quotient :- Div(p.uncollectedFees, rate);
    AsU64(quotient, ONE)
  }

  /** The state after collecting fees, and the deposit notes minted for them. */
  function AfterCollection(p: Pool): Option<(Pool, u64)> {
    var rate :- DepositNoteRate(p);
    CollectAt(p, rate)
  }

  function CollectAt(p: Pool, rate: Number): Option<(Pool, u64)> {
    var feeNotes :- FeeNotes(p, rate);
    if feeNotes == 0 then Some((p, 0))
    else
      var collected :- Mul(FromU64(feeNotes), rate);
      var remainder :- Sub(p.uncollectedFees, collected);
      var notes :- Fit64(p.depositNotes + feeNotes);
      Some((p.(uncollectedFees := remainder, depositNotes := notes), feeNotes))
  }
}
