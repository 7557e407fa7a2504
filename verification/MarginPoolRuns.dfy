/** Interest accrual over time, and the deposit-note rate over whole runs of a margin pool. */
module MarginPoolRuns {
  import opened Wrappers
  import opened FixedPoint
  import opened Arithmetic
  import opened InterestRate
  import opened InterestCurve
  import opened MarginPoolState
  import opened MarginPoolConversions
  import opened MarginPoolRates

  // ------------------------------------------------------------------ accrual

  /** The interest of one accrual, and the part of it set aside as fees. */
  lemma AccruedInterest(p: Pool, period: nat)
    requires AccrueFor(p, period).Some? && p.config.managementFeeRate <= FULL_BPS
    ensures var p' := AccrueFor(p, period).value;
            var interest := p'.borrowedTokens - p.borrowedTokens;
            var fee := p'.uncollectedFees - p.uncollectedFees;
            0 <= fee <= interest && fee == interest * (p.config.managementFeeRate * BPS) / ONE &&
            p' == p.(borrowedTokens := p'.borrowedTokens, uncollectedFees := p'.uncollectedFees,
                     accruedUntil := p.accruedUntil + period)
  {
    var p' := AccrueFor(p, period).value;
    FeeShare(p'.borrowedTokens - p.borrowedTokens, p.config.managementFeeRate);
  }

  lemma FeeShare(interest: int, bps: nat)
    requires bps <= FULL_BPS
    ensures interest >= 0 ==> 0 <= interest * (bps * BPS) / ONE <= interest
    ensures interest == 0 ==> interest * (bps * BPS) / ONE == 0
  {
    if interest >= 0 {
      MulMono(bps * BPS, ONE, interest);
      DivMono(interest * (bps * BPS), interest * ONE, ONE);
      DivOfMultiple(interest, ONE);
      DivNat(interest * (bps * BPS), ONE);
    }
  }

  /** Accruing interest lowers neither the debt nor the deposit-note rate. */
  lemma AccrualKeepsRate(p: Pool, time: i64)
    requires AfterAccrual(p, time).Some? && p.config.managementFeeRate <= FULL_BPS
    requires FeesCovered(p) && Value(p) >= ONE
    ensures var p' := AfterAccrual(p, time).value.0;
            p.borrowedTokens <= p'.borrowedTokens && FeesCovered(p') && Rate(p) <= Rate(p') && Value(p') >= ONE
  {
    var p' := AfterAccrual(p, time).value.0;
    var period := p'.accruedUntil - p.accruedUntil;
    PeriodAccrued(p, time);
    if p' != p { AccruedInterest(p, period); }
    DivMono(Equity(p), Equity(p'), NoteBase(p));
  }

  lemma PeriodAccrued(p: Pool, time: i64)
    requires AfterAccrual(p, time).Some?
    ensures var (p', done) := AfterAccrual(p, time).value;
            var behind := WrapI64(time - p.accruedUntil);
            var period := Min(behind, MAX_ACCRUAL_SECONDS);
            0 <= period && p'.accruedUntil == p.accruedUntil + period && (done <==> behind == period) &&
            (p' == p || AccrueFor(p, period) == Some(p'))
  {
  }

  lemma WrapAround(n: int)
    requires -2 * I64_LIMIT < n < 2 * I64_LIMIT
    ensures -I64_LIMIT <= n < I64_LIMIT ==> WrapI64(n) == n
    ensures n < -I64_LIMIT ==> WrapI64(n) == n + 2 * I64_LIMIT
    ensures I64_LIMIT <= n ==> WrapI64(n) == n - 2 * I64_LIMIT
  {
  }

  /**
   One call accrues at most a week and reports completion exactly when it is up
   to date. It stops at the given time exactly when the gap fits 64 bits; a gap
   so far below zero that it wraps around is accrued as if it were positive.
   */
  lemma AccrualClock(p: Pool, time: i64)
    requires AfterAccrual(p, time).Some?
    ensures var (p', done) := AfterAccrual(p, time).value;
            p.accruedUntil <= p'.accruedUntil <= p.accruedUntil + 604_800 &&
            (p'.accruedUntil <= time <==> -I64_LIMIT <= time - p.accruedUntil) &&
            (-I64_LIMIT <= time - p.accruedUntil ==>
              p'.accruedUntil == Min(time, p.accruedUntil + 604_800) &&
              (done <==> p'.accruedUntil == time))
  {
    PeriodAccrued(p, time);
    WrapAround(time - p.accruedUntil);
  }

  /** The outcome of the k-th of successive calls for the same time. */
  function Accruals(p: Pool, time: i64, k: nat): Option<(Pool, bool)>
    requires k >= 1
  {
    if k == 1 then AfterAccrual(p, time)
    else
      var before :- Accruals(p, time, k - 1);
      AfterAccrual(before.0, time)
  }

  /** Catching up takes exactly one call per started week. */
  lemma {:induction false} CatchingUp(p: Pool, time: i64, k: nat)
    requires 0 < time - p.accruedUntil < I64_LIMIT
    requires 1 <= k <= CeilDiv(time - p.accruedUntil, MAX_ACCRUAL_SECONDS)
    requires Accruals(p, time, k).Some?
    ensures Accruals(p, time, k).value.0.accruedUntil == Min(time, p.accruedUntil + k * MAX_ACCRUAL_SECONDS)
    ensures Accruals(p, time, k).value.1 <==> k == CeilDiv(time - p.accruedUntil, MAX_ACCRUAL_SECONDS)
  {
    CeilGalois(time - p.accruedUntil, MAX_ACCRUAL_SECONDS, k - 1);
    CeilGalois(time - p.accruedUntil, MAX_ACCRUAL_SECONDS, k);
    if k == 1 {
      AccrualClock(p, time);
    } else {
      CatchingUp(p, time, k - 1);
      AccrualClock(Accruals(p, time, k - 1).value.0, time);
    }
  }

  /** With a proper curve the interest rate exists exactly for a pool without notes or with some value. */
  lemma InterestRateDefinedExactly(p: Pool)
    requires Proper(p.config) && Value(p) * ONE < U192_LIMIT
    ensures CurrentInterestRate(p).Some? <==> p.depositNotes == 0 || Value(p) > 0
  {
    if p.depositNotes > 0 && Value(p) > 0 {
      UtilizationOf(p);
      RateIsCurve(p.config, UtilizationRate(p).value);
    }
  }

  /** A pool of the configuration with depositors and some value, far from overflow. */
  predicate Lends(p: Pool, c: Config) {
    p.config == c && p.depositNotes > 0 && 0 < Value(p) && Value(p) * ONE < U192_LIMIT
  }

  /**
   A configuration never makes the interest rate abort, in any pool that lends,
   exactly when the first knot is above zero and no regime falls that a pool's
   utilisation can enter.
   */
  lemma CurveIsTotalExactly(c: Config)
    ensures (forall p: Pool :: Lends(p, c) ==> CurrentInterestRate(p).Some?) <==> NoEnteredRegimeFalls(c)
  {
    if NoEnteredRegimeFalls(c) {
      forall p: Pool | Lends(p, c) ensures CurrentInterestRate(p).Some? {
        UtilizationOf(p);
        RegimesAreDefined(c, UtilizationRate(p).value);
      }
    } else {
      var half := FallingRegime(c);
      var p := PoolAt(c, half);
      FallingAborts(c, UtilizationRate(p).value);
    }
  }

  lemma UtilizationOf(p: Pool)
    requires 0 < Value(p) && Value(p) * ONE < U192_LIMIT
    ensures UtilizationRate(p) == Some(p.borrowedTokens * ONE / Value(p))
    ensures UtilizationRate(p).value <= ONE
  {
    UtilizationInBps(p.borrowedTokens, Value(p), 0);
    MulMono(p.borrowedTokens, Value(p), ONE);
  }

  /** A pool of 20000 tokens with the given number of them lent out. */
  lemma PoolAt(c: Config, lent: nat) returns (p: Pool)
    requires lent <= 20_000
    ensures Lends(p, c) && UtilizationRate(p) == Some(lent * 50_000_000_000)
  {
    p := Pool(c, lent * ONE, 0, 20_000 - lent, 1, 0, 0);
    assert Value(p) == 20_000 * ONE;
    UtilizationOf(p);
    assert lent * ONE * ONE == (lent * 50_000_000_000) * (20_000 * ONE);
    DivOfMultiple(lent * 50_000_000_000, 20_000 * ONE);
  }

  /** A pool's interest rate follows its utilisation, so repaying never raises it. */
  lemma RepayingNeverRaisesInterest(p: Pool, p': Pool, repay: FullAmount, withdraw: FullAmount)
    requires AfterRepay(p, repay) == Ok(p') || AfterMarginRepay(p, repay, withdraw) == Ok(p')
    requires Proper(p.config) && p.depositNotes > 0 && p'.depositNotes > 0
    requires CurrentInterestRate(p).Some? && CurrentInterestRate(p').Some?
    ensures CurrentInterestRate(p').value <= CurrentInterestRate(p).value
  {
    RepayingNeverRaisesUtilization(p, p', repay, withdraw);
    if AfterRepay(p, repay) == Ok(p') {
      DebtReduction(p.(depositTokens := p'.depositTokens), repay);
    } else {
      DebtReduction(p.(depositNotes := p'.depositNotes), repay);
    }
    CurveIsMonotone(p.config, UtilizationRate(p').value, UtilizationRate(p).value);
  }

  // --------------------------------------------------------------------- runs

  /** What users and cranks can do to a pool; amounts are converted by the pool itself. */
  datatype Step =
    | DepositStep(amount: Amount)
    | WithdrawStep(amount: Amount)
    | BorrowStep(amount: Amount)
    | RepayStep(amount: Amount)
    | MarginBorrowStep(amount: Amount)
    | MarginRepayStep(amount: Amount)
    | AccrueStep(time: i64)
    | CollectStep

  function Orelse(r: Result<Pool, Error>, p: Pool): Pool {
    if r.Ok? then r.value else p
  }

  function Deposited(p: Pool, amount: Amount): Result<Pool, Error> {
    var a :- ConvertAmount(p, amount, Deposit);
    OkOr(AfterDeposit(p, a), Panic)
  }

  function Withdrawn(p: Pool, amount: Amount): Result<Pool, Error> {
    var a :- ConvertAmount(p, amount, Withdraw);
    AfterWithdraw(p, a)
  }

  function Borrowed(p: Pool, amount: Amount): Result<Pool, Error> {
    var a :- ConvertAmount(p, amount, Borrow);
    AfterBorrow(p, a)
  }

  function Repaid(p: Pool, amount: Amount): Result<Pool, Error> {
    var a :- ConvertAmount(p, amount, Repay);
    AfterRepay(p, a)
  }

  /** Borrowed tokens are deposited back at once, at the rate after the loan. */
  function MarginBorrowed(p: Pool, amount: Amount): Result<Pool, Error> {
    var a :- ConvertAmount(p, amount, Borrow);
    var lent :- AfterBorrow(p, a);
    Deposited(lent, Amount(Tokens, a.tokens))
  }

  function MarginRepaid(p: Pool, amount: Amount): Result<Pool, Error> {
    var a :- ConvertAmount(p, amount, Repay);
    var w :- ConvertAmount(p, Amount(Tokens, a.tokens), Withdraw);
    AfterMarginRepay(p, a, w)
  }

  /** One step; a failing transaction changes nothing. */
  function Next(p: Pool, step: Step): Pool {
    match step
    case DepositStep(amount) => Orelse(Deposited(p, amount), p)
    case WithdrawStep(amount) => Orelse(Withdrawn(p, amount), p)
    case BorrowStep(amount) => Orelse(Borrowed(p, amount), p)
    case RepayStep(amount) => Orelse(Repaid(p, amount), p)
    case MarginBorrowStep(amount) => Orelse(MarginBorrowed(p, amount), p)
    case MarginRepayStep(amount) => Orelse(MarginRepaid(p, amount), p)
    case AccrueStep(time) => if AfterAccrual(p, time).Some? then AfterAccrual(p, time).value.0 else p
    case CollectStep => if AfterCollection(p).Some? then AfterCollection(p).value.0 else p
  }

  // ------------------------------------------------------------ rate erosion

  /**
   How much a step takes beyond the worth of the notes it burns and the slack,
   in raw units. Only withdrawals and settlements can take more than that.
   */
  function Overdraw(p: Pool, step: Step): int
    requires FeesCovered(p)
  {
    match step
    case WithdrawStep(amount) =>
      if Withdrawn(p, amount).Ok? && Rate(p) > 0 then Shortfall(amount, Rate(p)) - Slack(p) else 0
    case MarginRepayStep(amount) =>
      if MarginRepaid(p, amount).Ok? && Rate(p) > 0
      then
        var a := ConvertAmount(p, amount, Repay).value;
        SettlementShortfall(p, a, ConvertAmount(p, Amount(Tokens, a.tokens), Withdraw).value.notes) - Slack(p)
      else 0
    case _ => 0
  }

  /** What the overdraw costs each note that is left, rounded up. */
  function Erosion(p: Pool, step: Step): nat
    requires FeesCovered(p)
  {
    if Overdraw(p, step) <= 0 then 0 else CeilOf(Overdraw(p, step), NoteBase(Next(p, step)))
  }

  lemma FloorOfNegative(x: int, n: nat)
    requires n > 0
    ensures 0 < x ==> (0 - x) / n == 0 - CeilOf(x, n) && CeilOf(x, n) > 0
    ensures x <= 0 ==> 0 <= (0 - x) / n
  {
    if 0 < x {
      CeilBounds(x, n);
      var c := CeilDiv(x, n);
      assert (0 - c) * n == 0 - c * n;
      DivUnique(0 - x, n, 0 - c);
      CeilGalois(x, n, 0);
    } else {
      DivGalois(0 - x, n, 0);
    }
  }

  /**
   A step of a live pool lowers the deposit-note rate exactly when it overdraws,
   and then by exactly its erosion; the fees stay covered in any case.
   */
  lemma StepErodesRate(p: Pool, step: Step)
    requires Live(p) && FeesCovered(p) && Live(Next(p, step))
    ensures FeesCovered(Next(p, step))
    ensures Rate(Next(p, step)) < Rate(p) <==> Overdraw(p, step) > 0
    ensures Rate(Next(p, step)) < Rate(p) ==> Rate(p) == Rate(Next(p, step)) + Erosion(p, step)
  {
    match step
    case DepositStep(amount) => DepositStepKeepsRate(p, amount);
    case WithdrawStep(amount) => WithdrawStepErodesRate(p, amount);
    case BorrowStep(amount) => BorrowStepKeepsRate(p, amount);
    case RepayStep(amount) => RepayStepKeepsRate(p, amount);
    case MarginBorrowStep(amount) => MarginBorrowStepKeepsRate(p, amount);
    case MarginRepayStep(amount) => MarginRepayStepErodesRate(p, amount);
    case AccrueStep(time) =>
      if AfterAccrual(p, time).Some? { AccrualKeepsRate(p, time); }
    case CollectStep =>
      if AfterCollection(p).Some? { CollectionKeepsRate(p); }
  }

  lemma BorrowStepKeepsRate(p: Pool, amount: Amount)
    requires Live(p) && FeesCovered(p)
    ensures var p' := Orelse(Borrowed(p, amount), p); FeesCovered(p') && Live(p') && Rate(p) == Rate(p')
  {
    if Borrowed(p, amount).Ok? {
      var a := ConvertAmount(p, amount, Borrow).value;
      var lent := AfterBorrow(p, a).value;
      assert Value(lent) == Value(p) && NoteBase(lent) == NoteBase(p) by { BorrowKeepsValue(p, a); }
    }
  }

  lemma MarginBorrowStepKeepsRate(p: Pool, amount: Amount)
    requires Live(p) && FeesCovered(p)
    ensures var p' := Orelse(MarginBorrowed(p, amount), p); FeesCovered(p') && Rate(p) <= Rate(p')
  {
    BorrowStepKeepsRate(p, amount);
    if MarginBorrowed(p, amount).Ok? {
      var a := ConvertAmount(p, amount, Borrow).value;
      DepositStepKeepsRate(AfterBorrow(p, a).value, Amount(Tokens, a.tokens));
    }
  }

  lemma RepayStepKeepsRate(p: Pool, amount: Amount)
    requires Live(p) && FeesCovered(p)
    ensures var p' := Orelse(Repaid(p, amount), p); FeesCovered(p') && Rate(p) <= Rate(p')
  {
    if Repaid(p, amount).Ok? { RepayKeepsValue(p, ConvertAmount(p, amount, Repay).value); }
  }

  lemma DepositStepKeepsRate(p: Pool, amount: Amount)
    requires Live(p) && FeesCovered(p)
    ensures var p' := Orelse(Deposited(p, amount), p); FeesCovered(p') && Rate(p) <= Rate(p')
  {
    if Deposited(p, amount).Ok? {
      DepositKeepsRate(p, amount, Deposited(p, amount).value);
    }
  }

  /** A rate that has moved by the quotient of an overdraw. */
  lemma Eroded(rate: nat, rate': nat, overdraw: int, notes: nat)
    requires notes > 0 && rate' == rate + (0 - overdraw) / notes
    ensures rate' < rate <==> overdraw > 0
    ensures overdraw > 0 ==> rate == rate' + CeilOf(overdraw, notes)
  {
    FloorOfNegative(overdraw, notes);
  }

  lemma WithdrawStepErodesRate(p: Pool, amount: Amount)
    requires Live(p) && FeesCovered(p) && Live(Next(p, WithdrawStep(amount)))
    ensures var step := WithdrawStep(amount);
            var p' := Next(p, step);
            FeesCovered(p') && (Rate(p') < Rate(p) <==> Overdraw(p, step) > 0) &&
            (Rate(p') < Rate(p) ==> Rate(p) == Rate(p') + Erosion(p, step))
  {
    RateIsComputed(p);
    if Withdrawn(p, amount).Ok? {
      var p' := Withdrawn(p, amount).value;
      if Rate(p) == 0 {
        ZeroRateStopsConversions(p, amount, Withdraw);
        ConversionInClosedForm(amount, Direction(Withdraw, amount.kind), 0);
        assert p' == p;
      } else {
        WithdrawKeepsRate(p, amount, p');
        Eroded(Rate(p), Rate(p'), Overdraw(p, WithdrawStep(amount)), p'.depositNotes);
      }
    }
  }

  lemma MarginRepayStepErodesRate(p: Pool, amount: Amount)
    requires Live(p) && FeesCovered(p) && Live(Next(p, MarginRepayStep(amount)))
    ensures var step := MarginRepayStep(amount);
            var p' := Next(p, step);
            FeesCovered(p') && (Rate(p') < Rate(p) <==> Overdraw(p, step) > 0) &&
            (Rate(p') < Rate(p) ==> Rate(p) == Rate(p') + Erosion(p, step))
  {
    RateIsComputed(p);
    if MarginRepaid(p, amount).Ok? {
      var a := ConvertAmount(p, amount, Repay).value;
      var p' := MarginRepaid(p, amount).value;
      ConversionInClosedForm(Amount(Tokens, a.tokens), Up, Rate(p));
      MarginRepayKeepsRate(p, a, p');
      Eroded(Rate(p), Rate(p'), Overdraw(p, MarginRepayStep(amount)), p'.depositNotes);
    }
  }

  /**
   An overdraw is a residue of the rate. So the erosion is at most one raw unit
   where at least as many notes are left as one note is worth tokens, and there
   is none at rates up to one.
   */
  lemma ErosionIsSmall(p: Pool, step: Step)
    requires Live(p) && FeesCovered(p) && Live(Next(p, step))
    ensures Overdraw(p, step) > 0 ==> Overdraw(p, step) * ONE < Rate(p)
    ensures Rate(p) <= ONE * Next(p, step).depositNotes ==> Erosion(p, step) <= 1
    ensures Rate(p) <= ONE ==> Erosion(p, step) == 0
  {
    RateIsComputed(p);
    if Overdraw(p, step) > 0 {
      OverdrawIsResidue(p, step);
      CeilGalois(Overdraw(p, step), NoteBase(Next(p, step)), 1);
      MulCancel(Overdraw(p, step), Next(p, step).depositNotes, ONE);
    }
  }

  lemma OverdrawIsResidue(p: Pool, step: Step)
    requires Live(p) && FeesCovered(p) && Live(Next(p, step)) && Overdraw(p, step) > 0
    ensures Overdraw(p, step) * ONE < Rate(p) && Rate(p) > ONE
  {
    RateIsComputed(p);
    match step
    case WithdrawStep(amount) =>
      WithdrawTerms(p, amount);
      UnderChargeExactly(amount.value, Rate(p));
    case MarginRepayStep(amount) =>
      var a := ConvertAmount(p, amount, Repay).value;
      MarginRepayKeepsRate(p, a, MarginRepaid(p, amount).value);
      UnderChargeExactly(a.tokens, Rate(p));
    case _ =>
  }

  // ---------------------------------------------------------- over whole runs

  function Run(p: Pool, steps: seq<Step>): Pool
    decreases |steps|
  {
    if steps == [] then p else Run(Next(p, steps[0]), steps[1..])
  }

  /** Every state of the run is live. */
  ghost predicate LiveThroughout(p: Pool, steps: seq<Step>)
    decreases |steps|
  {
    Live(p) && (steps != [] ==> LiveThroughout(Next(p, steps[0]), steps[1..]))
  }

  /** What the steps of a run that overdraw cost each note, all together. */
  function RunErosion(p: Pool, steps: seq<Step>): nat
    decreases |steps|
  {
    if steps == [] || !FeesCovered(p) then 0
    else Erosion(p, steps[0]) + RunErosion(Next(p, steps[0]), steps[1..])
  }

  /**
   Over every run, whatever deposits, withdrawals, loans, repayments, accruals
   and collections it interleaves, the fees stay covered and the deposit-note
   rate falls by no more than the run's erosion.
   */
  lemma {:induction false} RunErodesRate(p: Pool, steps: seq<Step>)
    requires FeesCovered(p) && LiveThroughout(p, steps)
    ensures FeesCovered(Run(p, steps)) && Rate(p) <= Rate(Run(p, steps)) + RunErosion(p, steps)
    decreases |steps|
  {
    if steps != [] {
      LiveThere(Next(p, steps[0]), steps[1..]);
      StepErodesRate(p, steps[0]);
      RunErodesRate(Next(p, steps[0]), steps[1..]);
    }
  }

  lemma LiveThere(p: Pool, steps: seq<Step>)
    requires LiveThroughout(p, steps)
    ensures Live(p)
  {
  }

  /** No step of the run overdraws. */
  ghost predicate WithinSlack(p: Pool, steps: seq<Step>)
    decreases |steps|
  {
    steps != [] ==> (FeesCovered(p) ==> Overdraw(p, steps[0]) <= 0) && WithinSlack(Next(p, steps[0]), steps[1..])
  }

  /** Runs in which no step overdraws do not erode the rate: it never falls. */
  lemma {:induction false} RunKeepsRate(p: Pool, steps: seq<Step>)
    requires FeesCovered(p) && LiveThroughout(p, steps) && WithinSlack(p, steps)
    ensures FeesCovered(Run(p, steps)) && Rate(p) <= Rate(Run(p, steps))
    decreases |steps|
  {
    if steps != [] {
      LiveThere(Next(p, steps[0]), steps[1..]);
      StepErodesRate(p, steps[0]);
      RunKeepsRate(Next(p, steps[0]), steps[1..]);
    }
  }

  /** In every state of the run the notes left number at least the tokens that one note is worth. */
  ghost predicate ManyNotes(p: Pool, steps: seq<Step>)
    decreases |steps|
  {
    steps != [] ==>
      && (FeesCovered(p) ==> Rate(p) <= ONE * Next(p, steps[0]).depositNotes)
      && ManyNotes(Next(p, steps[0]), steps[1..])
  }

  /** Then the rate falls by at most one raw unit, 10^-15 tokens a note, for each step. */
  lemma {:induction false} RunErosionIsSmall(p: Pool, steps: seq<Step>)
    requires FeesCovered(p) && LiveThroughout(p, steps) && ManyNotes(p, steps)
    ensures RunErosion(p, steps) <= |steps|
    decreases |steps|
  {
    if steps != [] {
      LiveThere(Next(p, steps[0]), steps[1..]);
      ErosionIsSmall(p, steps[0]);
      StepErodesRate(p, steps[0]);
      RunErosionIsSmall(Next(p, steps[0]), steps[1..]);
    }
  }

  /** What a holding of notes redeems for. */
  function Redeems(p: Pool, notes: nat): nat
    requires FeesCovered(p)
  {
    TokensDown(notes, Rate(p))
  }

  /** What an erosion of the rate can cost a holding of notes, in whole tokens. */
  function Loss(notes: nat, erosion: nat): nat {
    CeilOf(notes * erosion, ONE)
  }

  /** Over every run what a holding of notes redeems for falls by no more than its part of the erosion. */
  lemma HoldersLoseAtMost(p: Pool, steps: seq<Step>, notes: nat)
    requires FeesCovered(p) && LiveThroughout(p, steps)
    ensures FeesCovered(Run(p, steps))
    ensures Redeems(p, notes) <= Redeems(Run(p, steps), notes) + Loss(notes, RunErosion(p, steps))
  {
    RunErodesRate(p, steps);
    HoldingLoses(p, Run(p, steps), notes, RunErosion(p, steps));
  }

  /** So if no step overdraws, it never falls. */
  lemma HoldersNeverLose(p: Pool, steps: seq<Step>, notes: nat)
    requires FeesCovered(p) && LiveThroughout(p, steps) && WithinSlack(p, steps)
    ensures FeesCovered(Run(p, steps))
    ensures Redeems(p, notes) <= Redeems(Run(p, steps), notes)
  {
    RunKeepsRate(p, steps);
    HoldingLoses(p, Run(p, steps), notes, 0);
  }

  /** With many notes no holder loses more than a token to fewer than 10^15 steps per note. */
  lemma HoldersLoseAToken(p: Pool, steps: seq<Step>, notes: nat)
    requires FeesCovered(p) && LiveThroughout(p, steps) && ManyNotes(p, steps) && notes * |steps| <= ONE
    ensures FeesCovered(Run(p, steps))
    ensures Redeems(p, notes) <= Redeems(Run(p, steps), notes) + 1
  {
    RunErodesRate(p, steps);
    RunErosionIsSmall(p, steps);
    HoldingLoses(p, Run(p, steps), notes, |steps|);
  }

  lemma HoldingLoses(p: Pool, p': Pool, notes: nat, erosion: nat)
    requires FeesCovered(p) && FeesCovered(p') && Rate(p) <= Rate(p') + erosion
    ensures Redeems(p, notes) <= Redeems(p', notes) + Loss(notes, erosion)
    ensures erosion == 0 ==> Loss(notes, erosion) == 0
    ensures notes * erosion <= ONE ==> Loss(notes, erosion) <= 1
  {
    PartOfErosion(notes, Rate(p), Rate(p'), erosion);
  }

  lemma PartOfErosion(notes: nat, rate: nat, after: nat, erosion: nat)
    requires rate <= after + erosion
    ensures TokensDown(notes, rate) <= TokensDown(notes, after) + Loss(notes, erosion)
    ensures erosion == 0 ==> Loss(notes, erosion) == 0
    ensures notes * erosion <= ONE ==> Loss(notes, erosion) <= 1
  {
    var kept, lost := notes * after, notes * erosion;
    assert notes * rate <= kept + lost by { MulMono(rate, after + erosion, notes); }
    DivMono(notes * rate, kept + lost, ONE);
    DivBounds(kept, ONE);
    CeilBounds(lost, ONE);
    DivGalois(kept + lost, ONE, kept / ONE + CeilDiv(lost, ONE) + 1);
    CeilGalois(lost, ONE, 1);
    CeilGalois(lost, ONE, 0);
  }

  /** A run that reaches its erosion: the rate of a pool of three notes falls by one raw unit. */
  lemma ErosionIsReached(config: Config)
    requires config.managementFeeRate <= FULL_BPS
    ensures var p := Pool(config, 0, 3, 6, 3, 0, 0);
            var steps := [WithdrawStep(Amount(Tokens, 2))];
            FeesCovered(p) && LiveThroughout(p, steps) && ManyNotes(p, steps) && RunErosion(p, steps) == 1 &&
            FeesCovered(Run(p, steps)) && Rate(Run(p, steps)) == Rate(p) - 1
  {
    var p := Pool(config, 0, 3, 6, 3, 0, 0);
    var p' := Pool(config, 0, 3, 4, 2, 0, 0);
    var step := WithdrawStep(Amount(Tokens, 2));
    assert [step][1..] == [];
    WithdrawByTokensCanLowerRate(config);
    assert Next(p, step) == p';
    assert Rate(p) == 2 * ONE - 1 && Rate(p') == 2 * ONE - 2;
    StepErodesRate(p, step);
    assert LiveThroughout(p', []) && ManyNotes(p', []) && RunErosion(p', []) == 0 && Run(p', []) == p';
  }
}
