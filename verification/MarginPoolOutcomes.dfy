/** When exactly the operations of a margin pool succeed, and what they then leave, in closed form. */
module MarginPoolOutcomes {
  import opened Wrappers
  import opened FixedPoint
  import opened Arithmetic
  import opened InterestRate
  import opened InterestCurve
  import opened InterestFactor
  import opened MarginPoolState
  import opened MarginPoolConversions
  import opened MarginPoolRates
  import opened MarginPoolRuns

  /** Sums, differences and products of numbers abort exactly where they leave 192 bits. */
  lemma OverflowsBeyond192Bits(a: Number, b: Number)
    ensures Add(a, b).Some? <==> a + b < 0x1_0000_0000_0000_0000_0000_0000_0000_0000_0000_0000_0000_0000
    ensures Sub(a, b).Some? <==> b <= a
    ensures Mul(a, b).Some? <==> a * b < 0x1_0000_0000_0000_0000_0000_0000_0000_0000_0000_0000_0000_0000
  {
    ProductFits(a * b);
  }

  lemma ProductFits(product: nat)
    ensures Fit(product).Some? ==> Fit(product / ONE).Some?
  {
    DivNat(product, ONE);
  }

  // -------------------------------------------------------------- conversions

  /** The tokens of an exchange at a rate: given, or rounded up where the user pays them. */
  function TokensOf(amount: Amount, action: Action, rate: nat): nat {
    if amount.kind == Tokens then amount.value
    else if action.Deposit? || action.Repay? then TokensUp(amount.value, rate)
    else TokensDown(amount.value, rate)
  }

  /** The notes of an exchange: given, or rounded up where the user is charged them. */
  function NotesOf(amount: Amount, action: Action, rate: nat): nat
    requires rate > 0
  {
    if amount.kind == Notes then amount.value
    else if action.Withdraw? || action.Borrow? then NotesUp(amount.value, rate)
    else NotesDown(amount.value, rate)
  }

  /** Both sides of the exchange fit 64 bits, and the product behind them fits a number. */
  predicate Fits(amount: Amount, action: Action, rate: nat)
    requires rate > 0
  {
    && TokensOf(amount, action, rate) < U64_LIMIT
    && NotesOf(amount, action, rate) < U64_LIMIT
    && (amount.kind == Notes ==> amount.value * ONE * rate < U192_LIMIT)
  }

  /** Neither side of the exchange is empty without the other. */
  predicate Balances(amount: Amount, action: Action, rate: nat)
    requires rate > 0
  {
    TokensOf(amount, action, rate) == 0 <==> NotesOf(amount, action, rate) == 0
  }

  /** A conversion succeeds exactly when it fits and is balanced; it reports only the lack of balance. */
  lemma ConversionSucceedsExactly(p: Pool, amount: Amount, action: Action, rate: Number)
    requires RateFor(p, action) == Some(rate) && rate > 0
    ensures ConvertAmount(p, amount, action) ==
            if !Fits(amount, action, rate) then Err(Panic)
            else if !Balances(amount, action, rate) then Err(InvalidAmount)
            else Ok(FullAmount(TokensOf(amount, action, rate), NotesOf(amount, action, rate)))
  {
    match amount.kind
    case Tokens => TokensConvert(amount, action, rate);
    case Notes => NotesConvert(amount, action, rate);
  }

  lemma TokensConvert(amount: Amount, action: Action, rate: Number)
    requires amount.kind == Tokens && rate > 0
    ensures ConvertAtRate(amount, Direction(action, Tokens), rate) ==
            if Fits(amount, action, rate)
            then Some(FullAmount(TokensOf(amount, action, rate), NotesOf(amount, action, rate))) else None
  {
    var scaled := amount.value * ONE * ONE;
    DivNat(scaled, rate);
    DivDiv(scaled, rate, ONE);
    DivCancel(amount.value * ONE, rate, ONE);
  }

  lemma NotesConvert(amount: Amount, action: Action, rate: Number)
    requires amount.kind == Notes && rate > 0
    ensures ConvertAtRate(amount, Direction(action, Notes), rate) ==
            if Fits(amount, action, rate)
            then Some(FullAmount(TokensOf(amount, action, rate), NotesOf(amount, action, rate))) else None
  {
    var product := amount.value * rate;
    assert (amount.value * ONE) * rate == product * ONE;
    DivOfMultiple(product, ONE);
    CeilGalois(product, ONE, U64_LIMIT - 1);
  }

  /** A change of the tokens of a holding shifts by their worth, or sets the holding to the target's notes. */
  lemma SetAmountSucceedsExactly(p: Pool, current: u64, tokens: u64, action: Action, rate: Number)
    requires RateFor(p, action) == Some(rate) && rate > 0
    ensures CalculateFullAmount(p, current, TokenChange(ShiftBy, tokens), action) ==
            ConvertAmount(p, Amount(Tokens, tokens), action)
    ensures var target := ConvertAmount(p, Amount(Tokens, tokens), action);
            var outcome := CalculateFullAmount(p, current, TokenChange(SetTo, tokens), action);
            if target.Err? then outcome == Err(target.error)
            else
              var notes := target.value.notes;
              if action.Deposit? || action.Borrow? then
                outcome == if notes < current then Err(InvalidSetTo)
                           else ConvertAmount(p, Amount(Notes, notes - current), action)
              else
                outcome == if current < notes then Err(InvalidSetTo)
                           else ConvertAmount(p, Amount(Notes, current - notes), action)
  {
  }

  // ------------------------------------------------------- deposits and loans

  /** A deposit succeeds exactly when its conversion does and both counters hold it. */
  lemma DepositSucceedsExactly(p: Pool, amount: Amount, rate: Number)
    requires DepositNoteRate(p) == Some(rate) && rate > 0
    ensures var t, n := TokensOf(amount, Deposit, rate), NotesOf(amount, Deposit, rate);
            (Deposited(p, amount).Ok? <==>
              Fits(amount, Deposit, rate) && Balances(amount, Deposit, rate) &&
              p.depositTokens + t < U64_LIMIT && p.depositNotes + n < U64_LIMIT) &&
            (Deposited(p, amount).Ok? ==>
              var p' := Deposited(p, amount).value;
              p'.depositTokens == p.depositTokens + t && p'.depositNotes == p.depositNotes + n &&
              p'.config == p.config && p'.borrowedTokens == p.borrowedTokens &&
              p'.uncollectedFees == p.uncollectedFees && p'.loanNotes == p.loanNotes &&
              p'.accruedUntil == p.accruedUntil)
  {
    ConversionSucceedsExactly(p, amount, Deposit, rate);
  }

  /** The first deposit into an empty pool mints one note for each token. */
  lemma FirstDeposit(config: Config, time: i64, tokens: u64)
    ensures Deposited(Pool(config, 0, 0, 0, 0, 0, time), Amount(Tokens, tokens)) ==
            Ok(Pool(config, 0, 0, tokens, tokens, 0, time))
  {
    var p := Pool(config, 0, 0, 0, 0, 0, time);
    assert DepositNoteRate(p) == Some(ONE);
    ConversionSucceedsExactly(p, Amount(Tokens, tokens), Deposit, ONE);
    DivOfMultiple(tokens, ONE);
  }

  /** A withdrawal succeeds exactly when its conversion does and the pool holds both sides of it. */
  lemma WithdrawalSucceedsExactly(p: Pool, amount: Amount, rate: Number)
    requires DepositNoteRate(p) == Some(rate) && rate > 0
    ensures var t, n := TokensOf(amount, Withdraw, rate), NotesOf(amount, Withdraw, rate);
            (Withdrawn(p, amount).Ok? <==>
              Fits(amount, Withdraw, rate) && Balances(amount, Withdraw, rate) &&
              t <= p.depositTokens && n <= p.depositNotes) &&
            (Withdrawn(p, amount).Ok? ==>
              var p' := Withdrawn(p, amount).value;
              p'.depositTokens == p.depositTokens - t && p'.depositNotes == p.depositNotes - n &&
              p'.config == p.config && p'.borrowedTokens == p.borrowedTokens &&
              p'.uncollectedFees == p.uncollectedFees && p'.loanNotes == p.loanNotes &&
              p'.accruedUntil == p.accruedUntil)
    ensures Fits(amount, Withdraw, rate) && Balances(amount, Withdraw, rate) && Withdrawn(p, amount).Err? ==>
              Withdrawn(p, amount) == Err(InsufficientLiquidity)
  {
    ConversionSucceedsExactly(p, amount, Withdraw, rate);
  }

  /** Every outcome of a loan: the flag, the liquidity, the counters and the limit, in this order. */
  lemma LoanSucceedsExactly(p: Pool, a: FullAmount)
    requires 0 < Value(p) && Value(p) * ONE < U192_LIMIT
    ensures var lending := p.config.flags / 2 % 2 == 1;
            var debt := p.borrowedTokens + a.tokens * ONE;
            if !lending then AfterBorrow(p, a) == Err(DepositsOnly)
            else if p.depositTokens < a.tokens then AfterBorrow(p, a) == Err(InsufficientLiquidity)
            else if p.loanNotes + a.notes >= U64_LIMIT then AfterBorrow(p, a) == Err(Panic)
            else if 9_501 * Value(p) <= 10_000 * debt then AfterBorrow(p, a) == Err(ExceedsMaxBorrowUtilRatio)
            else
              AfterBorrow(p, a).Ok? &&
              var p' := AfterBorrow(p, a).value;
              p'.borrowedTokens == debt && p'.loanNotes == p.loanNotes + a.notes &&
              p'.depositTokens == p.depositTokens - a.tokens && p'.depositNotes == p.depositNotes &&
              p'.config == p.config && p'.uncollectedFees == p.uncollectedFees && p'.accruedUntil == p.accruedUntil
  {
    if p.config.flags / 2 % 2 == 1 && a.tokens <= p.depositTokens && p.loanNotes + a.notes < U64_LIMIT {
      BorrowLimitExactly(p, a);
    }
  }

  // --------------------------------------------------------------- repayments

  /** The debt in whole tokens, rounded up, fits 64 bits. */
  predicate DebtFits(p: Pool) {
    p.borrowedTokens <= (U64_LIMIT - 1) * ONE
  }

  /** The debt after a repayment: less the tokens, and nothing where they cover it. */
  predicate DebtReduced(p: Pool, tokens: u64, p': Pool) {
    p'.borrowedTokens == if p.borrowedTokens <= tokens * ONE then 0 else p.borrowedTokens - tokens * ONE
  }

  lemma CeilingExceeds(debt: nat, tokens: nat)
    ensures tokens <= CeilDiv(debt, ONE) <==> tokens * ONE < debt + ONE
  {
    CeilGalois(debt, ONE, tokens - 1);
  }

  lemma DebtReductionSucceedsExactly(p: Pool, a: FullAmount)
    requires DebtFits(p)
    ensures AfterDebtReduction(p, a) ==
            if a.notes > p.loanNotes then Err(InsufficientLiquidity)
            else if p.borrowedTokens + ONE <= a.tokens * ONE then Err(RepaymentExceedsTotalOutstanding)
            else Ok(p.(loanNotes := p.loanNotes - a.notes,
                       borrowedTokens := if p.borrowedTokens <= a.tokens * ONE then 0
                                         else p.borrowedTokens - a.tokens * ONE))
  {
    CeilGalois(p.borrowedTokens, ONE, U64_LIMIT - 1);
    CeilingExceeds(p.borrowedTokens, a.tokens);
  }

  /**
   A repayment succeeds exactly when it burns notes there are and pays less than
   a token beyond the debt, as repaying the last notes of a loan can.
   */
  lemma RepaymentSucceedsExactly(p: Pool, a: FullAmount)
    requires DebtFits(p)
    ensures AfterRepay(p, a).Ok? <==>
            p.depositTokens + a.tokens < U64_LIMIT && a.notes <= p.loanNotes &&
            a.tokens * ONE < p.borrowedTokens + ONE
    ensures AfterRepay(p, a).Ok? ==>
              var p' := AfterRepay(p, a).value;
              DebtReduced(p, a.tokens, p') && p'.loanNotes == p.loanNotes - a.notes &&
              p'.depositTokens == p.depositTokens + a.tokens && p'.depositNotes == p.depositNotes &&
              p'.config == p.config && p'.uncollectedFees == p.uncollectedFees && p'.accruedUntil == p.accruedUntil
    ensures AfterRepay(p, a).Err? && p.depositTokens + a.tokens < U64_LIMIT ==>
              AfterRepay(p, a) ==
              Err(if a.notes > p.loanNotes then InsufficientLiquidity else RepaymentExceedsTotalOutstanding)
  {
    if p.depositTokens + a.tokens < U64_LIMIT {
      DebtReductionSucceedsExactly(p.(depositTokens := p.depositTokens + a.tokens), a);
    }
  }

  /** The same for a settlement, which also burns deposit notes and moves no tokens. */
  lemma SettlementSucceedsExactly(p: Pool, repay: FullAmount, withdraw: FullAmount)
    requires DebtFits(p)
    ensures AfterMarginRepay(p, repay, withdraw).Ok? <==>
            withdraw.notes <= p.depositNotes && repay.notes <= p.loanNotes &&
            repay.tokens * ONE < p.borrowedTokens + ONE
    ensures AfterMarginRepay(p, repay, withdraw).Ok? ==>
              var p' := AfterMarginRepay(p, repay, withdraw).value;
              DebtReduced(p, repay.tokens, p') && p'.loanNotes == p.loanNotes - repay.notes &&
              p'.depositTokens == p.depositTokens && p'.depositNotes == p.depositNotes - withdraw.notes &&
              p'.config == p.config && p'.uncollectedFees == p.uncollectedFees && p'.accruedUntil == p.accruedUntil
    ensures AfterMarginRepay(p, repay, withdraw).Err? ==>
              AfterMarginRepay(p, repay, withdraw) ==
              Err(if withdraw.notes > p.depositNotes || repay.notes > p.loanNotes
                  then InsufficientLiquidity else RepaymentExceedsTotalOutstanding)
  {
    if withdraw.notes <= p.depositNotes {
      DebtReductionSucceedsExactly(p.(depositNotes := p.depositNotes - withdraw.notes), repay);
    }
  }

  /** Three and a half tokens of debt, all of whose notes are repaid for four tokens: nothing is left. */
  lemma LastLoanIsRepaid(config: Config)
    ensures var p := Pool(config, 3 * ONE + ONE / 2, 0, 7, 10, 3, 0);
            ConvertAmount(p, Amount(Notes, 3), Repay) == Ok(FullAmount(4, 3)) &&
            AfterRepay(p, FullAmount(4, 3)) == Ok(p.(borrowedTokens := 0, depositTokens := 11, loanNotes := 0))
  {
    var p := Pool(config, 3 * ONE + ONE / 2, 0, 7, 10, 3, 0);
    assert LoanNoteRate(p) == Some(1_166_666_666_666_666);
    RepaymentSucceedsExactly(p, FullAmount(4, 3));
  }

  // ------------------------------------------------------- interest and fees

  /** The debt as a share of what the pool is worth. */
  function Utilization(p: Pool): nat
    requires 0 < Value(p)
  {
    DivNat(p.borrowedTokens * ONE, Value(p));
    p.borrowedTokens * ONE / Value(p)
  }

  /** The interest rate of a pool with a proper curve is the curve at its utilisation. */
  lemma InterestRateIsCurve(p: Pool)
    requires Proper(p.config) && 0 < Value(p) && Value(p) * ONE < U192_LIMIT
    ensures CurrentInterestRate(p) ==
            Some(if p.depositNotes == 0 then p.config.borrowRate1 * BPS
                 else Curve(p.config, Utilization(p)))
  {
    UtilizationOf(p);
    RateIsCurve(p.config, UtilizationRate(p).value);
  }

  /** A share of a number, both in raw units, rounded down. */
  function Scaled(a: int, b: nat): int { a * b / ONE }

  /** The factor is the Taylor polynomial of exp(x) - 1 at the simple interest, to within two raw units a term. */
  ghost predicate Compounds(rate: nat, period: nat, factor: nat) {
    var x, n := SimpleInterest(rate, period), TermsFor(period);
    var exact := ONE as real * Taylor(Exact(x), n);
    exact - (2 * n) as real <= factor as real <= exact && x <= factor <= ONE
  }

  /** Interest is charged on the debt, and the configured share of it set aside as fees. */
  predicate Charged(p: Pool, factor: nat, p': Pool) {
    var interest := Scaled(p.borrowedTokens, factor);
    p'.borrowedTokens == p.borrowedTokens + interest &&
    p'.uncollectedFees == p.uncollectedFees + Scaled(interest, p.config.managementFeeRate * BPS)
  }

  /** An accrual charges the debt interest for the period, compounded at the rate before it. */
  lemma InterestIsCompounded(p: Pool, period: nat)
    requires AccrueFor(p, period).Some?
    ensures CurrentInterestRate(p).Some?
    ensures exists factor ::
              Compounds(CurrentInterestRate(p).value, period, factor) && Charged(p, factor, AccrueFor(p, period).value)
  {
    var rate := CurrentInterestRate(p).value;
    FactorCompounds(rate, period);
    DebtIsCharged(p, period);
    assert Compounds(rate, period, CompoundInterest(rate, period).value);
  }

  lemma FactorCompounds(rate: Number, period: nat)
    requires CompoundInterest(rate, period).Some?
    ensures Compounds(rate, period, CompoundInterest(rate, period).value)
  {
    FactorIsTaylor(rate, period);
    CompoundingIsMonotone(rate, rate, period, period);
  }

  lemma DebtIsCharged(p: Pool, period: nat)
    requires AccrueFor(p, period).Some?
    ensures CurrentInterestRate(p).Some? && CompoundInterest(CurrentInterestRate(p).value, period).Some?
    ensures Charged(p, CompoundInterest(CurrentInterestRate(p).value, period).value, AccrueFor(p, period).value)
  {
  }

  /** Accruing interest on a pool in use succeeds exactly for times not past, at rates up to two. */
  lemma AccrualSucceedsExactly(p: Pool, time: i64)
    requires Live(p) && FeesCovered(p) && CurrentInterestRate(p).Some?
    requires -I64_LIMIT <= time - p.accruedUntil < I64_LIMIT
    ensures AfterAccrual(p, time).Some? <==>
            p.accruedUntil == time || (p.accruedUntil < time && CurrentInterestRate(p).value <= 2 * ONE)
  {
    WrapAround(time - p.accruedUntil);
    if p.accruedUntil < time { PeriodSucceedsExactly(p, Min(time - p.accruedUntil, 604_800)); }
  }

  lemma PeriodSucceedsExactly(p: Pool, period: nat)
    requires Live(p) && FeesCovered(p) && CurrentInterestRate(p).Some?
    requires period <= 604_800 && p.accruedUntil + period < I64_LIMIT
    ensures AccrueFor(p, period).Some? <==> CurrentInterestRate(p).value <= 2 * ONE
  {
    FactorIsTaylor(CurrentInterestRate(p).value, period);
    if CurrentInterestRate(p).value <= 2 * ONE {
      var factor := CompoundInterest(CurrentInterestRate(p).value, period).value;
      InterestFits(p.borrowedTokens, factor, p.config.managementFeeRate * BPS);
    }
  }

  lemma InterestFits(debt: Number, factor: Number, feeRate: Number)
    requires debt * ONE < U192_LIMIT && factor <= ONE && feeRate <= ONE
    ensures var interest := Mul(debt, factor);
            interest.Some? && interest.value <= debt &&
            Mul(interest.value, feeRate).Some? && Mul(interest.value, feeRate).value <= debt
  {
    MulMono(factor, ONE, debt);
    ShareIsPart(debt, factor);
    var interest := debt * factor / ONE;
    MulMono(feeRate, ONE, interest);
    ShareIsPart(interest, feeRate);
  }

  lemma ShareIsPart(a: nat, b: nat)
    requires b <= ONE
    ensures 0 <= a * b / ONE <= a
  {
    DivNat(a * b, ONE);
    MulMono(b, ONE, a);
    DivMono(a * b, a * ONE, ONE);
    DivOfMultiple(a, ONE);
  }

  /** With a proper curve of at most 200% it always succeeds for a time to come. */
  lemma AccrualAlwaysSucceeds(p: Pool, time: i64)
    requires Live(p) && FeesCovered(p) && Proper(p.config) && p.config.borrowRate3 <= 20_000
    requires 0 <= time - p.accruedUntil < I64_LIMIT
    ensures AfterAccrual(p, time).Some?
  {
    UtilizationOf(p);
    RateIsCurve(p.config, UtilizationRate(p).value);
    AccrualSucceedsExactly(p, time);
  }

  /** Collecting fees succeeds exactly when the rate is positive and the notes fit. */
  lemma CollectionSucceedsExactly(p: Pool)
    requires Live(p) && FeesCovered(p)
    ensures AfterCollection(p).Some? <==> Rate(p) > 0 && p.depositNotes + p.uncollectedFees / Rate(p) < U64_LIMIT
    ensures AfterCollection(p).Some? ==> AfterCollection(p).value.1 == p.uncollectedFees / Rate(p)
  {
    RateIsComputed(p);
    if Rate(p) > 0 { CollectsAt(p, Rate(p)); }
  }

  lemma CollectsAt(p: Pool, rate: Number)
    requires rate > 0 && p.uncollectedFees * ONE < U192_LIMIT
    ensures 0 <= p.uncollectedFees / rate
    ensures CollectAt(p, rate).Some? <==> p.depositNotes + p.uncollectedFees / rate < U64_LIMIT
    ensures CollectAt(p, rate).Some? ==> CollectAt(p, rate).value.1 == p.uncollectedFees / rate
  {
    var notes := p.uncollectedFees / rate;
    DivNat(p.uncollectedFees, rate);
    WholeNotes(p.uncollectedFees, rate);
    DivNat(p.uncollectedFees * ONE, rate);
    DivBounds(p.uncollectedFees, rate);
    MulMono(notes * rate, p.uncollectedFees, ONE);
    assert (notes * ONE) * rate == (notes * rate) * ONE;
    PriceOfNotes(notes, rate);
  }

  // ------------------------------------------------------------------ handlers

  /** A loan or a repayment succeeds exactly when its conversion does and the pool can record it. */
  lemma DebtHandlersSucceedExactly(p: Pool, amount: Amount, rate: Number)
    requires LoanNoteRate(p) == Some(rate) && rate > 0
    ensures var a := (TokensOf(amount, Borrow, rate), NotesOf(amount, Borrow, rate));
            Borrowed(p, amount).Ok? <==>
            Fits(amount, Borrow, rate) && Balances(amount, Borrow, rate) && AfterBorrow(p, FullAmount(a.0, a.1)).Ok?
    ensures var a := (TokensOf(amount, Repay, rate), NotesOf(amount, Repay, rate));
            Repaid(p, amount).Ok? <==>
            Fits(amount, Repay, rate) && Balances(amount, Repay, rate) && AfterRepay(p, FullAmount(a.0, a.1)).Ok?
  {
    ConversionSucceedsExactly(p, amount, Borrow, rate);
    ConversionSucceedsExactly(p, amount, Repay, rate);
  }

  /** Through a margin account a loan is deposited back at once, at the unchanged deposit-note rate. */
  lemma MarginLoanSucceedsExactly(p: Pool, amount: Amount, rate: Number)
    requires DepositNoteRate(p) == Some(rate) && rate > 0
    ensures MarginBorrowed(p, amount).Ok? <==>
            Borrowed(p, amount).Ok? &&
            var t := Amount(Tokens, ConvertAmount(p, amount, Borrow).value.tokens);
            Balances(t, Deposit, rate) && Fits(t, Deposit, rate) &&
            p.depositNotes + NotesOf(t, Deposit, rate) < U64_LIMIT
    ensures MarginBorrowed(p, amount).Ok? ==>
              var t := Amount(Tokens, ConvertAmount(p, amount, Borrow).value.tokens);
              var p' := MarginBorrowed(p, amount).value;
              p'.depositTokens == p.depositTokens && p'.depositNotes == p.depositNotes + NotesOf(t, Deposit, rate) &&
              p'.borrowedTokens == p.borrowedTokens + t.value * ONE
  {
    if Borrowed(p, amount).Ok? {
      var a := ConvertAmount(p, amount, Borrow).value;
      BorrowKeepsValue(p, a);
      LoanIsRecorded(p, a);
      DepositSucceedsExactly(AfterBorrow(p, a).value, Amount(Tokens, a.tokens), rate);
    }
  }

  lemma LoanIsRecorded(p: Pool, a: FullAmount)
    requires AfterBorrow(p, a).Ok?
    ensures var p' := AfterBorrow(p, a).value;
            p' == p.(depositTokens := p.depositTokens - a.tokens, loanNotes := p.loanNotes + a.notes,
                     borrowedTokens := p.borrowedTokens + a.tokens * ONE)
  {
  }

  /** And a repayment is paid with the deposit notes that its tokens cost. */
  lemma MarginRepaymentSucceedsExactly(p: Pool, amount: Amount, rate: Number)
    requires DepositNoteRate(p) == Some(rate) && rate > 0
    ensures MarginRepaid(p, amount).Ok? <==>
            ConvertAmount(p, amount, Repay).Ok? &&
            var a := ConvertAmount(p, amount, Repay).value;
            var t := Amount(Tokens, a.tokens);
            Balances(t, Withdraw, rate) && Fits(t, Withdraw, rate) &&
            AfterMarginRepay(p, a, FullAmount(a.tokens, NotesOf(t, Withdraw, rate))).Ok?
  {
    if ConvertAmount(p, amount, Repay).Ok? {
      ConversionSucceedsExactly(p, Amount(Tokens, ConvertAmount(p, amount, Repay).value.tokens), Withdraw, rate);
    }
  }

  /** A step of a run takes the effect of its handler where that succeeds, and none where it fails. */
  lemma StepTakesEffect(p: Pool, step: Step)
    ensures var p' := Next(p, step);
            match step
            case DepositStep(amount) => p' == if Deposited(p, amount).Ok? then Deposited(p, amount).value else p
            case WithdrawStep(amount) => p' == if Withdrawn(p, amount).Ok? then Withdrawn(p, amount).value else p
            case BorrowStep(amount) => p' == if Borrowed(p, amount).Ok? then Borrowed(p, amount).value else p
            case RepayStep(amount) => p' == if Repaid(p, amount).Ok? then Repaid(p, amount).value else p
            case MarginBorrowStep(amount) =>
              p' == if MarginBorrowed(p, amount).Ok? then MarginBorrowed(p, amount).value else p
            case MarginRepayStep(amount) =>
              p' == if MarginRepaid(p, amount).Ok? then MarginRepaid(p, amount).value else p
            case AccrueStep(time) => p' == if AfterAccrual(p, time).Some? then AfterAccrual(p, time).value.0 else p
            case CollectStep => p' == if AfterCollection(p).Some? then AfterCollection(p).value.0 else p
  {
  }
}
