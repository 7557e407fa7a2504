/**
 The margin pool account, updated in place. An operation that fails leaves the
 account as it was, because the failed transaction is rolled back.
 */
module MarginPoolAccount {
  import opened Wrappers
  import opened FixedPoint
  import opened Arithmetic
  import opened InterestRate
  import opened MarginPoolState

  class MarginPool {
    var config: Config
    var borrowedTokens: Number
    var uncollectedFees: Number
    var depositTokens: u64
    var depositNotes: u64
    var loanNotes: u64
    var accruedUntil: i64

    /** The account's value, on which its operations are specified. */
    function State(): Pool
      reads this
    {
      Pool(config, borrowedTokens, uncollectedFees, depositTokens, depositNotes, loanNotes, accruedUntil)
    }

    constructor (initial: Pool)
      ensures State() == initial
    {
      config, borrowedTokens, uncollectedFees := initial.config, initial.borrowedTokens, initial.uncollectedFees;
      depositTokens, depositNotes, loanNotes := initial.depositTokens, initial.depositNotes, initial.loanNotes;
      accruedUntil := initial.accruedUntil;
    }

    /** Record a deposit. */
    method Deposit(amount: FullAmount) returns (r: Option<()>)
      modifies this
      ensures r.Some? <==> AfterDeposit(old(State()), amount).Some?
      ensures State() == if r.Some? then AfterDeposit(old(State()), amount).value else old(State())
    {
      var tokens := Fit64(depositTokens + amount.tokens);
      var notes := Fit64(depositNotes + amount.notes);
      if tokens.None? || notes.None? { return None; }
      depositTokens := tokens.value;
      depositNotes := notes.value;
      r := Some(());
    }

    /** Record a withdrawal. */
    method Withdraw(amount: FullAmount) returns (r: Result<(), Error>)
      modifies this
      ensures match AfterWithdraw(old(State()), amount)
              case Ok(p) => r == Ok(()) && State() == p
              case Err(e) => r == Err(e) && State() == old(State())
    {
      if depositTokens < amount.tokens || depositNotes < amount.notes {
        return Err(InsufficientLiquidity);
      }
      depositTokens := depositTokens - amount.tokens;
      depositNotes := depositNotes - amount.notes;
      r := Ok(());
    }

    /** Record a loan, unless it would push utilisation over the limit. */
    method Borrow(amount: FullAmount) returns (r: Result<(), Error>)
      modifies this
      ensures match AfterBorrow(old(State()), amount)
              case Ok(p) => r == Ok(()) && State() == p
              case Err(e) => r == Err(e) && State() == old(State())
    {
      if !AllowsLending(config) { return Err(DepositsOnly); }
      var before := State();
      if depositTokens < amount.tokens { return Err(InsufficientLiquidity); }
      depositTokens := depositTokens - amount.tokens;
      var notes := Fit64(loanNotes + amount.notes);
      var borrowed := Add(borrowedTokens, FromU64(amount.tokens));
      if notes.None? || borrowed.None? {
        Restore(before);
        return Err(Panic);
      }
      loanNotes := notes.value;
      borrowedTokens := borrowed.value;
      var utilization := UtilizationRate(State());
      var bps := if utilization.Some? then AsU64(utilization.value, BPS) else None;
      if bps.None? {
        Restore(before);
        return Err(Panic);
      }
      if bps.value > MAX_POOL_UTIL_RATIO_AFTER_BORROW_BPS {
        Restore(before);
        return Err(ExceedsMaxBorrowUtilRatio);
      }
      r := Ok(());
    }

    /** Record a repayment of a loan. */
    method Repay(amount: FullAmount) returns (r: Result<(), Error>)
      modifies this
      ensures match AfterRepay(old(State()), amount)
              case Ok(p) => r == Ok(()) && State() == p
              case Err(e) => r == Err(e) && State() == old(State())
    {
      var before := State();
      var tokens := Fit64(depositTokens + amount.tokens);
      if tokens.None? { return Err(Panic); }
      depositTokens := tokens.value;
      r := ReduceDebt(amount);
      if r.Err? { Restore(before); }
    }

    /** Cancel deposit notes against loan notes. */
    method MarginRepay(repayAmount: FullAmount, withdrawAmount: FullAmount) returns (r: Result<(), Error>)
      modifies this
      ensures match AfterMarginRepay(old(State()), repayAmount, withdrawAmount)
              case Ok(p) => r == Ok(()) && State() == p
              case Err(e) => r == Err(e) && State() == old(State())
    {
      var before := State();
      if depositNotes < withdrawAmount.notes { return Err(InsufficientLiquidity); }
      depositNotes := depositNotes - withdrawAmount.notes;
      r := ReduceDebt(repayAmount);
      if r.Err? { Restore(before); }
    }

    method ReduceDebt(amount: FullAmount) returns (r: Result<(), Error>)
      modifies `loanNotes, `borrowedTokens
      ensures match AfterDebtReduction(old(State()), amount)
              case Ok(p) => r == Ok(()) && State() == p
              case Err(e) => r == Err(e) && State() == old(State())
    {
      if loanNotes < amount.notes { return Err(InsufficientLiquidity); }
      var outstanding := AsU64Ceil(borrowedTokens, ONE);
      if outstanding.None? { return Err(Panic); }
      if outstanding.value < amount.tokens { return Err(RepaymentExceedsTotalOutstanding); }
      loanNotes := loanNotes - amount.notes;
      borrowedTokens := SaturatingSub(borrowedTokens, FromU64(amount.tokens));
      r := Ok(());
    }

    /** Accrue interest up to the given time, at most a week at once. */
    method AccrueInterest(time: i64) returns (r: Option<bool>)
      modifies this
      ensures match AfterAccrual(old(State()), time)
              case Some((p, done)) => r == Some(done) && State() == p
              case None => r == None && State() == old(State())
    {
      var behind := WrapI64(time - accruedUntil);
      var period := Min(behind, MAX_ACCRUAL_SECONDS);
      if period < 0 { return None; }
      if period == 0 { return Some(true); }
      var rate := CurrentInterestRate(State());
      var factor := if rate.Some? then CompoundInterest(rate.value, period) else None;
      var interest := if factor.Some? then Mul(borrowedTokens, factor.value) else None;
      if interest.None? { return None; }
      var fee := Mul(interest.value, FromBps(config.managementFeeRate));
      var borrowed := Add(borrowedTokens, interest.value);
      var fees := if fee.Some? then Add(uncollectedFees, fee.value) else None;
      if fees.None? || borrowed.None? || accruedUntil + period >= I64_LIMIT { return None; }
      borrowedTokens := borrowed.value;
      uncollectedFees := fees.value;
      accruedUntil := accruedUntil + period;
      r := Some(behind == period);
    }

    /** Turn the fees set aside into deposit notes and say how many to mint. */
    method CollectAccruedFees() returns (r: Option<u64>)
      modifies this
      ensures match AfterCollection(old(State()))
              case Some((p, notes)) => r == Some(notes) && State() == p
              case None => r == None && State() == old(State())
    {
      var rate := DepositNoteRate(State());
      var feeNotes := if rate.Some? then FeeNotes(State(), rate.value) else None;
      if feeNotes.None? { return None; }
      if feeNotes.value > 0 {
        var collected := Mul(FromU64(feeNotes.value), rate.value);
        var remainder := if collected.Some? then Sub(uncollectedFees, collected.value) else None;
        var notes := Fit64(depositNotes + feeNotes.value);
        if remainder.None? || notes.None? { return None; }
        uncollectedFees := remainder.value;
        depositNotes := notes.value;
      }
      r := feeNotes;
    }

    /** The roll-back of a failed transaction. */
    method Restore(before: Pool)
      modifies this
      ensures State() == before
    {
      config, borrowedTokens, uncollectedFees := before.config, before.borrowedTokens, before.uncollectedFees;
      depositTokens, depositNotes, loanNotes := before.depositTokens, before.depositNotes, before.loanNotes;
      accruedUntil := before.accruedUntil;
    }
  }
}
