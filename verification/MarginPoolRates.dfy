/**
 What each operation of a margin pool does to the deposit-note rate as the
 program computes it, truncations included.
 */
module MarginPoolRates {
  import opened Wrappers
  import opened FixedPoint
  import opened Arithmetic
  import opened InterestRate
  import opened MarginPoolState
  import opened MarginPoolConversions

  /** The fees set aside are covered by what the pool owns. */
  predicate FeesCovered(p: Pool) { p.uncollectedFees <= Max(ONE, Value(p)) }

  /** The deposit-note rate, where it is defined. */
  function Rate(p: Pool): nat
    requires FeesCovered(p)
  {
    DivNat(Equity(p), NoteBase(p));
    Equity(p) / NoteBase(p)
  }

  /** The equity left over when the rate was rounded down. */
  function Slack(p: Pool): nat { Equity(p) % NoteBase(p) }

  /** By how much the pool's value is topped up to one token when the rate is computed. */
  function TopUp(p: Pool): nat { Max(ONE, Value(p)) - Value(p) }

  lemma RateOf(p: Pool)
    requires DepositNoteRate(p).Some?
    ensures FeesCovered(p) && DepositNoteRate(p) == Some(Rate(p))
    ensures Equity(p) == Rate(p) * NoteBase(p) + Slack(p) && Slack(p) < NoteBase(p)
  {
    DepositRateIsShareOfEquity(p);
    DivBounds(Equity(p), NoteBase(p));
  }

  lemma DivShift(r: int, n: int, x: int)
    requires n > 0
    ensures (r * n + x) / n == r + x / n
    ensures 0 <= x / n <==> 0 <= x
  {
    DivBounds(x, n);
    assert (r + x / n) * n == r * n + (x / n) * n;
    DivUnique(r * n + x, n, r + x / n);
    DivGalois(x, n, 0);
  }

  /**
   The rate after the equity and the notes have changed: it moves by what the
   slack and the equity gained leave over for each note, rounded down once.
   */
  lemma RateAfterChange(p: Pool, p': Pool, equityGain: int, notesGain: int)
    requires DepositNoteRate(p).Some? && FeesCovered(p) && FeesCovered(p')
    requires Equity(p') == Equity(p) + equityGain && NoteBase(p') == NoteBase(p) + notesGain
    ensures Rate(p') == Rate(p) + (Slack(p) + equityGain - notesGain * Rate(p)) / NoteBase(p')
    ensures Rate(p) <= Rate(p') <==> notesGain * Rate(p) <= Slack(p) + equityGain
  {
    RateOf(p);
    ShareAfterChange(Equity(p), NoteBase(p), Rate(p), Slack(p), equityGain, notesGain);
  }

  lemma ShareAfterChange(equity: int, notes: nat, rate: nat, slack: nat, equityGain: int, notesGain: int)
    requires equity == rate * notes + slack && notes + notesGain > 0
    ensures (equity + equityGain) / (notes + notesGain) ==
            rate + (slack + equityGain - notesGain * rate) / (notes + notesGain)
    ensures rate <= (equity + equityGain) / (notes + notesGain) <==> notesGain * rate <= slack + equityGain
  {
    var left := slack + equityGain - notesGain * rate;
    assert rate * (notes + notesGain) == rate * notes + notesGain * rate;
    DivShift(rate, notes + notesGain, left);
  }

  lemma RateAfterBurn(p: Pool, p': Pool, equityLoss: int, burned: nat)
    requires DepositNoteRate(p).Some? && FeesCovered(p) && FeesCovered(p')
    requires Equity(p') == Equity(p) - equityLoss && NoteBase(p') == NoteBase(p) - burned
    ensures Rate(p') == Rate(p) + (Slack(p) + burned * Rate(p) - equityLoss) / NoteBase(p')
    ensures Rate(p) <= Rate(p') <==> equityLoss <= Slack(p) + burned * Rate(p)
  {
    assert (0 - burned) * Rate(p) == 0 - burned * Rate(p);
    RateAfterChange(p, p', 0 - equityLoss, 0 - burned);
  }

  /**
   Burning notes for a little more than they are worth, by less than the
   rate's number of whole tokens, leaves equity for the notes that remain.
   */
  lemma EquityCoversNotes(p: Pool, taken: int, burned: nat)
    requires DepositNoteRate(p).Some? && burned < p.depositNotes
    requires FeesCovered(p) && (taken - burned * Rate(p)) * ONE < Rate(p)
    ensures taken <= Equity(p)
  {
    RateOf(p);
    LossIsCovered(Equity(p), p.depositNotes, Rate(p), taken, burned);
  }

  lemma LossIsCovered(equity: int, notes: nat, rate: nat, taken: int, burned: nat)
    requires rate * notes <= equity && burned < notes && (taken - burned * rate) * ONE < rate
    ensures taken <= equity
  {
    MulMono(burned + 1, notes, rate);
    assert (burned + 1) * rate == burned * rate + rate;
  }

  // ------------------------------------------------------------------ deposit

  /**
   A deposit of tokens or notes never lowers the rate of a pool worth at least
   one token; below that it does so exactly when the top-up it ends exceeds
   the slack and what the depositor overpays.
   */
  lemma DepositKeepsRate(p: Pool, amount: Amount, p': Pool)
    requires ConvertAmount(p, amount, Deposit).Ok? && p.depositNotes >= 1
    requires AfterDeposit(p, ConvertAmount(p, amount, Deposit).value) == Some(p')
    ensures FeesCovered(p) && FeesCovered(p')
    ensures Value(p) >= ONE ==> Rate(p) <= Rate(p')
    ensures amount.value > 0 ==>
            var a := ConvertAmount(p, amount, Deposit).value;
            Rate(p) <= Rate(p') <==> TopUp(p) <= Slack(p) + a.tokens * ONE - a.notes * Rate(p)
  {
    RateOf(p);
    var a := ConvertAmount(p, amount, Deposit).value;
    DepositTerms(p, amount);
    if a.tokens >= 1 {
      RateAfterChange(p, p', a.tokens * ONE - TopUp(p), a.notes);
    }
  }

  /** A pool of half a token, topped up to one for its rate: a deposit of one token lowers that by a quarter. */
  lemma DepositCanLowerRate(config: Config)
    ensures var p := Pool(config, ONE / 2, 0, 0, 1, 1, 0);
            var a := ConvertAmount(p, Amount(Tokens, 1), Deposit);
            DepositNoteRate(p) == Some(ONE) && a == Ok(FullAmount(1, 1)) &&
            AfterDeposit(p, a.value).Some? &&
            DepositNoteRate(AfterDeposit(p, a.value).value) == Some(3 * ONE / 4)
  {
    assert DepositNoteRate(Pool(config, ONE / 2, 0, 0, 1, 1, 0)) == Some(ONE);
  }

  lemma DepositTerms(p: Pool, amount: Amount)
    requires ConvertAmount(p, amount, Deposit).Ok?
    ensures var a := ConvertAmount(p, amount, Deposit).value;
            DepositNoteRate(p).Some? && a.notes * DepositNoteRate(p).value <= a.tokens * ONE &&
            (a.tokens == 0 <==> a.notes == 0) && (a.tokens == 0 <==> amount.value == 0)
  {
    var r := DepositNoteRate(p).value;
    ConversionInClosedForm(amount, Direction(Deposit, amount.kind), r);
    if r > 0 { ConversionFavoursPool(p, amount, Deposit); }
  }

  // --------------------------------------------------------------- withdrawal

  /** What a withdrawal takes beyond the worth of the notes it burns, in raw units. */
  function Shortfall(amount: Amount, rate: nat): int
    requires rate > 0
  {
    if amount.kind == Tokens then UnderCharge(amount.value, rate)
    else TokensDown(amount.value, rate) * ONE - amount.value * rate
  }

  lemma WithdrawTerms(p: Pool, amount: Amount)
    requires ConvertAmount(p, amount, Withdraw).Ok? && DepositNoteRate(p).value > 0
    ensures var a := ConvertAmount(p, amount, Withdraw).value;
            a.tokens * ONE - a.notes * DepositNoteRate(p).value == Shortfall(amount, DepositNoteRate(p).value)
    ensures amount.kind == Notes ==> Shortfall(amount, DepositNoteRate(p).value) <= 0
    ensures Shortfall(amount, DepositNoteRate(p).value) * ONE < DepositNoteRate(p).value
  {
    var r := DepositNoteRate(p).value;
    ConversionInClosedForm(amount, Direction(Withdraw, amount.kind), r);
    ConversionFavoursPool(p, amount, Withdraw);
  }

  lemma WithdrawalChange(p: Pool, a: FullAmount, p': Pool)
    requires DepositNoteRate(p).Some? && AfterWithdraw(p, a) == Ok(p')
    requires p'.depositNotes >= 1 && Value(p) >= ONE
    ensures FeesCovered(p)
    ensures (a.tokens * ONE - a.notes * Rate(p)) * ONE < Rate(p) ==>
              FeesCovered(p') &&
              Rate(p') == Rate(p) + (Slack(p) + TopUp(p') - (a.tokens * ONE - a.notes * Rate(p))) / p'.depositNotes
  {
    RateOf(p);
    if (a.tokens * ONE - a.notes * Rate(p)) * ONE < Rate(p) {
      EquityCoversNotes(p, a.tokens * ONE, a.notes);
      RateAfterBurn(p, p', a.tokens * ONE - TopUp(p'), a.notes);
    }
  }

  /**
   After a withdrawal that leaves notes behind the fees stay covered, and the
   rate has moved by exactly what slack and top-up leave over for each note
   once the shortfall is paid. So it is kept exactly when they cover the
   shortfall: always by notes, and by tokens up to the residue of a truncated
   quotient.
   */
  lemma WithdrawKeepsRate(p: Pool, amount: Amount, p': Pool)
    requires ConvertAmount(p, amount, Withdraw).Ok? && DepositNoteRate(p).value > 0
    requires AfterWithdraw(p, ConvertAmount(p, amount, Withdraw).value) == Ok(p')
    requires p'.depositNotes >= 1 && Value(p) >= ONE
    ensures FeesCovered(p) && FeesCovered(p') && Rate(p) > 0
    ensures Rate(p') == Rate(p) + (Slack(p) + TopUp(p') - Shortfall(amount, Rate(p))) / p'.depositNotes
    ensures Rate(p) <= Rate(p') <==> Shortfall(amount, Rate(p)) <= Slack(p) + TopUp(p')
    ensures amount.kind == Notes ==> Rate(p) <= Rate(p')
    ensures Shortfall(amount, Rate(p)) * ONE < Rate(p)
  {
    WithdrawTerms(p, amount);
    RateOf(p);
    WithdrawalChange(p, ConvertAmount(p, amount, Withdraw).value, p');
    DivShift(0, p'.depositNotes, Slack(p) + TopUp(p') - Shortfall(amount, Rate(p)));
  }

  /** A pool of three notes from which taking two tokens lowers the rate by one raw unit. */
  lemma WithdrawByTokensCanLowerRate(config: Config)
    ensures var p := Pool(config, 0, 3, 6, 3, 0, 0);
            var a := ConvertAmount(p, Amount(Tokens, 2), Withdraw);
            a == Ok(FullAmount(2, 1)) &&
            DepositNoteRate(p) == Some(2 * ONE - 1) &&
            AfterWithdraw(p, a.value).Ok? &&
            DepositNoteRate(AfterWithdraw(p, a.value).value) == Some(2 * ONE - 2)
  {
  }

  // ------------------------------------------------- a deposit and its reversal

  /**
   Depositing and then withdrawing the notes, at the rate as it is after the
   deposit, never returns more tokens than were put in.
   */
  lemma DepositThenWithdraw(p: Pool, amount: Amount, p': Pool)
    requires ConvertAmount(p, amount, Deposit).Ok? && p.depositNotes >= 1
    requires AfterDeposit(p, ConvertAmount(p, amount, Deposit).value) == Some(p')
    requires ConvertAmount(p', Amount(Notes, ConvertAmount(p, amount, Deposit).value.notes), Withdraw).Ok?
    ensures var a := ConvertAmount(p, amount, Deposit).value;
            ConvertAmount(p', Amount(Notes, a.notes), Withdraw).value.tokens <= a.tokens
  {
    var a := ConvertAmount(p, amount, Deposit).value;
    RateOf(p);
    RateOf(p');
    DepositTerms(p, amount);
    ConversionInClosedForm(Amount(Notes, a.notes), Down, Rate(p'));
    NotesWorthAtMostCost(Equity(p), p.depositNotes, Rate(p), a.tokens * ONE, a.notes, Equity(p'), Rate(p'));
    DivMono(a.notes * Rate(p'), a.tokens * ONE, ONE);
    DivOfMultiple(a.tokens, ONE);
  }

  lemma NotesWorthAtMostCost(equity: nat, base: nat, rate: nat, cost: nat, notes: nat, equity': nat, rate': nat)
    requires equity < rate * base + base && notes * rate <= cost && equity' <= equity + cost
    requires rate' * (base + notes) <= equity'
    ensures notes * rate' <= cost
  {
    if rate' <= rate {
      MulMono(rate', rate, notes);
    } else {
      MulMono(rate + 1, rate', base);
      assert (rate + 1) * base == rate * base + base;
      assert rate' * (base + notes) == rate' * base + notes * rate';
    }
  }

  // ---------------------------------------------------------------- borrowing

  /** Lending moves value from the vault to the debt: value and rate stay exactly equal. */
  lemma BorrowKeepsValue(p: Pool, a: FullAmount)
    requires AfterBorrow(p, a).Ok?
    ensures Value(AfterBorrow(p, a).value) == Value(p)
    ensures DepositNoteRate(AfterBorrow(p, a).value) == DepositNoteRate(p)
  {
    var p' := AfterBorrow(p, a).value;
    assert Value(p') == Value(p);
  }

  /** Repaying changes the pool's value by less than one token, and only upward. */
  lemma RepayKeepsValue(p: Pool, a: FullAmount)
    requires AfterRepay(p, a).Ok?
    ensures Value(p) <= Value(AfterRepay(p, a).value) < Value(p) + ONE
    ensures FeesCovered(p) ==>
            FeesCovered(AfterRepay(p, a).value) && Rate(p) <= Rate(AfterRepay(p, a).value)
  {
    var p' := AfterRepay(p, a).value;
    var raised := ONE - 1 + p.borrowedTokens;
    DivBounds(raised, ONE);
    MulMono(a.tokens, raised / ONE, ONE);
    if FeesCovered(p) { DivMono(Equity(p), Equity(p'), NoteBase(p)); }
  }

  /** The debt left by a repayment, however it is paid. */
  lemma DebtReduction(p: Pool, a: FullAmount)
    requires AfterDebtReduction(p, a).Ok?
    ensures var p' := AfterDebtReduction(p, a).value;
            p' == p.(loanNotes := p.loanNotes - a.notes, borrowedTokens := p'.borrowedTokens) &&
            p.borrowedTokens - a.tokens * ONE <= p'.borrowedTokens <= p.borrowedTokens &&
            p'.borrowedTokens < p.borrowedTokens - a.tokens * ONE + ONE
  {
    var raised := ONE - 1 + p.borrowedTokens;
    DivBounds(raised, ONE);
    MulMono(a.tokens, raised / ONE, ONE);
  }

  /** The debt that a repayment removes: at most the debt there is. */
  function Settled(p: Pool, repay: FullAmount): nat {
    Min(repay.tokens * ONE, p.borrowedTokens)
  }

  /** What a settlement takes off the pool's value beyond the worth of the deposit notes it burns. */
  function SettlementShortfall(p: Pool, repay: FullAmount, notes: u64): int
    requires FeesCovered(p)
  {
    Settled(p, repay) - notes * Rate(p)
  }

  lemma SettlementEquity(p: Pool, repay: FullAmount, w: FullAmount, p': Pool)
    requires AfterMarginRepay(p, repay, w) == Ok(p')
    ensures p'.depositNotes == p.depositNotes - w.notes && p'.uncollectedFees == p.uncollectedFees
    ensures Value(p') == Value(p) - Settled(p, repay)
  {
  }

  /**
   Settling a loan with deposit notes moves the rate exactly like a withdrawal
   of the debt it removes; the rate is kept exactly when slack and top-up cover
   the shortfall.
   */
  lemma MarginRepayKeepsRate(p: Pool, repay: FullAmount, p': Pool)
    requires ConvertAmount(p, Amount(Tokens, repay.tokens), Withdraw).Ok? && DepositNoteRate(p).value > 0
    requires AfterMarginRepay(p, repay, ConvertAmount(p, Amount(Tokens, repay.tokens), Withdraw).value) == Ok(p')
    requires p'.depositNotes >= 1 && Value(p) >= ONE
    ensures FeesCovered(p) && FeesCovered(p') && Rate(p) > 0
    ensures var w := ConvertAmount(p, Amount(Tokens, repay.tokens), Withdraw).value;
            var shortfall := SettlementShortfall(p, repay, w.notes);
            Rate(p') == Rate(p) + (Slack(p) + TopUp(p') - shortfall) / p'.depositNotes &&
            (Rate(p) <= Rate(p') <==> shortfall <= Slack(p) + TopUp(p')) &&
            shortfall <= UnderCharge(repay.tokens, Rate(p)) && shortfall * ONE < Rate(p)
  {
    var amount := Amount(Tokens, repay.tokens);
    var w := ConvertAmount(p, amount, Withdraw).value;
    RateOf(p);
    WithdrawTerms(p, amount);
    ConversionInClosedForm(amount, Up, Rate(p));
    SettlementEquity(p, repay, w, p');
    EquityCoversNotes(p, Settled(p, repay), w.notes);
    RateAfterBurn(p, p', Settled(p, repay) - TopUp(p'), w.notes);
    DivShift(0, p'.depositNotes, Slack(p) + TopUp(p') - SettlementShortfall(p, repay, w.notes));
  }

  /** A pool of three notes whose rate falls by one raw unit when two tokens of debt are settled. */
  lemma MarginRepayCanLowerRate(config: Config)
    ensures var p := Pool(config, 4 * ONE, 3, 2, 3, 4, 0);
            var repay := ConvertAmount(p, Amount(Tokens, 2), Repay);
            var w := ConvertAmount(p, Amount(Tokens, 2), Withdraw);
            repay == Ok(FullAmount(2, 2)) && w == Ok(FullAmount(2, 1)) &&
            DepositNoteRate(p) == Some(2 * ONE - 1) &&
            AfterMarginRepay(p, repay.value, w.value).Ok? &&
            DepositNoteRate(AfterMarginRepay(p, repay.value, w.value).value) == Some(2 * ONE - 2)
  {
    var p := Pool(config, 4 * ONE, 3, 2, 3, 4, 0);
    assert LoanNoteRate(p) == Some(ONE) && DepositNoteRate(p) == Some(2 * ONE - 1);
    assert ConvertAtRate(Amount(Tokens, 2), Down, ONE) == Some(FullAmount(2, 2));
    assert ConvertAtRate(Amount(Tokens, 2), Up, 2 * ONE - 1) == Some(FullAmount(2, 1));
  }

  /**
   With the same tokens on both sides, margin_repay is withdraw followed by
   repay, wherever the vault could have paid the withdrawal out.
   */
  lemma MarginRepayIsWithdrawThenRepay(p: Pool, repay: FullAmount, withdraw: FullAmount)
    requires repay.tokens == withdraw.tokens
    ensures var there := AfterWithdraw(p, withdraw);
            (there.Ok? && AfterRepay(there.value, repay).Ok?) <==>
            (AfterMarginRepay(p, repay, withdraw).Ok? && withdraw.tokens <= p.depositTokens)
    ensures AfterWithdraw(p, withdraw).Ok? ==>
            AfterRepay(AfterWithdraw(p, withdraw).value, repay) == AfterMarginRepay(p, repay, withdraw)
  {
  }

  // -------------------------------------------------------------- utilisation

  lemma ShareGrowsWithPart(part: nat, whole: nat, drop: nat, gain: nat)
    requires part <= whole && drop <= part && 0 < whole - drop + gain && 0 < whole
    ensures (part - drop) * ONE / (whole - drop + gain) <= part * ONE / whole
  {
    var u := part * ONE / whole;
    var v := (part - drop) * ONE / (whole - drop + gain);
    DivBounds((part - drop) * ONE, whole - drop + gain);
    // v copies of the smaller whole fit, and v is at most ONE
    MulMono(part - drop, whole - drop + gain, ONE);
    assert v * (whole - drop + gain) <= ONE * (whole - drop + gain);
    MulCancel(v, ONE, whole - drop + gain);
    MulMono(v, ONE, drop);
    MulMono(whole - drop, whole - drop + gain, v);
    assert v * (whole - drop) == v * whole - v * drop;
    assert (part - drop) * ONE == part * ONE - drop * ONE;
    DivGalois(part * ONE, whole, v);
  }

  /** Neither way of repaying raises the computed utilisation. */
  lemma RepayingNeverRaisesUtilization(p: Pool, p': Pool, repay: FullAmount, withdraw: FullAmount)
    requires AfterRepay(p, repay) == Ok(p') || AfterMarginRepay(p, repay, withdraw) == Ok(p')
    requires UtilizationRate(p).Some? && UtilizationRate(p').Some?
    ensures UtilizationRate(p').value <= UtilizationRate(p).value
  {
    var drop := p.borrowedTokens - p'.borrowedTokens;
    if AfterRepay(p, repay) == Ok(p') {
      DebtReduction(p.(depositTokens := p'.depositTokens), repay);
    } else {
      DebtReduction(p.(depositNotes := p'.depositNotes), repay);
    }
    ShareGrowsWithPart(p.borrowedTokens, Value(p), drop, Value(p') - Value(p) + drop);
  }

  /**
   A loan that meets the other conditions is granted exactly when it leaves the
   debt below 95.01% of the pool's value: the limit of 9500 basis points is
   compared after truncation to whole basis points.
   */
  lemma BorrowLimitExactly(p: Pool, a: FullAmount)
    requires AllowsLending(p.config) && a.tokens <= p.depositTokens && p.loanNotes + a.notes < U64_LIMIT
    requires 0 < Value(p) && Value(p) * ONE < U192_LIMIT
    ensures AfterBorrow(p, a).Ok? <==> 10_000 * (p.borrowedTokens + a.tokens * ONE) < 9_501 * Value(p)
    ensures AfterBorrow(p, a).Err? ==> AfterBorrow(p, a) == Err(ExceedsMaxBorrowUtilRatio)
  {
    var p' := p.(depositTokens := p.depositTokens - a.tokens,
                 loanNotes := p.loanNotes + a.notes,
                 borrowedTokens := p.borrowedTokens + a.tokens * ONE);
    assert Value(p') == Value(p);
    UtilizationInBps(p'.borrowedTokens, Value(p), 9_501);
    UtilizationInBps(p'.borrowedTokens, Value(p), 10_001);
  }

  /** A loan up to 95.005% of the value is granted. */
  lemma BorrowBeyondDocumentedLimit(config: Config)
    requires AllowsLending(config)
    ensures var p := Pool(config, 0, 0, 1_000_000, 1_000_000, 0, 0);
            var a := ConvertAmount(p, Amount(Tokens, 950_050), Borrow);
            a == Ok(FullAmount(950_050, 950_050)) &&
            AfterBorrow(p, a.value).Ok? &&
            10_000 * AfterBorrow(p, a.value).value.borrowedTokens > MAX_POOL_UTIL_RATIO_AFTER_BORROW_BPS * Value(p)
  {
  }

  lemma UtilizationInBps(debt: nat, value: nat, bps: nat)
    requires debt <= value && 0 < value
    ensures 0 <= debt * ONE / value <= ONE
    ensures bps <= debt * ONE / value / BPS <==> bps * value <= 10_000 * debt
  {
    var u := debt * ONE / value;
    DivGalois(debt * ONE, value, bps * BPS);
    DivGalois(u, BPS, bps);
    DivGalois(debt * ONE, value, ONE + 1);
    DivNat(debt * ONE, value);
    assert (ONE + 1) * value == ONE * value + value;
    assert (bps * BPS) * value == (bps * value) * BPS;
  }

  // -------------------------------------------------------------------- fees

  /**
   Collecting fees turns them exactly into notes at the current rate and a
   remainder worth less than one note, and leaves the rate exactly equal. Only
   a pool without any notes sees its rate rise, exactly when it mints some notes
   and no more than the rate has raw units.
   */
  lemma CollectionKeepsRate(p: Pool)
    requires AfterCollection(p).Some?
    ensures var (p', minted) := AfterCollection(p).value;
            FeesCovered(p) && FeesCovered(p') &&
            p.uncollectedFees == minted * Rate(p) + p'.uncollectedFees &&
            p'.uncollectedFees < Rate(p) &&
            p'.depositNotes == p.depositNotes + minted && Value(p') == Value(p) &&
            Rate(p) <= Rate(p') &&
            (Rate(p') == Rate(p) <==> p.depositNotes >= 1 || minted == 0 || Rate(p) < minted)
  {
    RateOf(p);
    var r := Rate(p);
    var (p', minted) := AfterCollection(p).value;
    Collected(p, r);
    DivBounds(p.uncollectedFees, r);
    if minted > 0 {
      if p.depositNotes >= 1 {
        CollectedRate(Equity(p), p.depositNotes, r, minted, Equity(p'));
      } else {
        assert Equity(p') == minted * r + r;
        FirstNotesRate(r, minted);
      }
    }
  }

  /** The first notes of a pool, minted for its fees: the one note takes over all that the pool is worth. */
  lemma FirstFeeNote(config: Config)
    ensures var p := Pool(config, 0, 5 * ONE, 10, 0, 0, 0);
            DepositNoteRate(p) == Some(5 * ONE) &&
            AfterCollection(p) == Some((p.(uncollectedFees := 0, depositNotes := 1), 1)) &&
            DepositNoteRate(AfterCollection(p).value.0) == Some(10 * ONE)
  {
    var p := Pool(config, 0, 5 * ONE, 10, 0, 0, 0);
    assert DepositNoteRate(p) == Some(5 * ONE);
    assert FeeNotes(p, 5 * ONE) == Some(1);
  }

  lemma Collected(p: Pool, rate: Number)
    requires CollectAt(p, rate).Some?
    ensures rate > 0
    ensures var (p', minted) := CollectAt(p, rate).value;
            minted == p.uncollectedFees / rate &&
            p' == p.(uncollectedFees := p.uncollectedFees - minted * rate, depositNotes := p.depositNotes + minted)
  {
    FeeNotesAreWhole(p, rate);
    var minted := FeeNotes(p, rate).value;
    if minted > 0 { CollectedTokens(minted, rate); }
  }

  lemma FeeNotesAreWhole(p: Pool, rate: Number)
    requires FeeNotes(p, rate).Some?
    ensures rate > 0 && FeeNotes(p, rate).value == p.uncollectedFees / rate
  {
    WholeNotes(p.uncollectedFees, rate);
  }

  lemma CollectedTokens(minted: u64, rate: Number)
    requires Mul(FromU64(minted), rate).Some?
    ensures Mul(FromU64(minted), rate).value == minted * rate
  {
    PriceOfNotes(minted, rate);
  }

  lemma WholeNotes(fees: nat, rate: nat)
    requires rate > 0
    ensures 0 <= fees * ONE / rate && fees * ONE / rate / ONE == fees / rate
  {
    DivNat(fees * ONE, rate);
    DivDiv(fees * ONE, rate, ONE);
    DivCancel(fees, rate, ONE);
  }

  lemma PriceOfNotes(notes: nat, rate: nat)
    ensures (notes * ONE) * rate / ONE == notes * rate
  {
    assert (notes * ONE) * rate == (notes * rate) * ONE;
    DivOfMultiple(notes * rate, ONE);
  }

  lemma CollectedRate(equity: nat, base: nat, rate: nat, minted: nat, equity': nat)
    requires base > 0 && rate == equity / base && equity' == equity + minted * rate
    ensures equity' / (base + minted) == rate
  {
    DivBounds(equity, base);
    assert rate * (base + minted) == rate * base + minted * rate;
    DivUnique(equity', base + minted, rate);
  }

  lemma FirstNotesRate(rate: nat, minted: nat)
    requires minted > 0
    ensures rate <= (minted * rate + rate) / minted
    ensures (minted * rate + rate) / minted == rate <==> rate < minted
  {
    DivGalois(minted * rate + rate, minted, rate);
    DivGalois(minted * rate + rate, minted, rate + 1);
    assert (rate + 1) * minted == rate * minted + minted;
  }

  /** A pool in use: it has depositors, is worth a token or more, and its numbers are far from overflow. */
  predicate Live(p: Pool) {
    && p.depositNotes >= 1
    && ONE <= Value(p)
    && Value(p) * ONE < U192_LIMIT
    && p.config.managementFeeRate <= FULL_BPS
  }

  lemma RateIsComputed(p: Pool)
    requires Live(p) && FeesCovered(p)
    ensures DepositNoteRate(p) == Some(Rate(p))
  {
    DepositRateIsShareOfEquity(p);
  }

  /** Collecting again at once mints nothing and changes nothing; in a pool in use it never aborts. */
  lemma SecondCollectionMintsNothing(p: Pool)
    requires AfterCollection(p).Some?
    ensures var p' := AfterCollection(p).value.0;
            (AfterCollection(p').Some? ==> AfterCollection(p') == Some((p', 0))) &&
            (Live(p) ==> AfterCollection(p') == Some((p', 0)))
  {
    CollectionKeepsRate(p);
    var p' := AfterCollection(p).value.0;
    if AfterCollection(p').Some? {
      RateOf(p');
      Collected(p', Rate(p'));
      DivGalois(p'.uncollectedFees, Rate(p'), 1);
    }
    if Live(p) {
      RateIsComputed(p');
      CollectsNothing(p', Rate(p'));
    }
  }

  lemma CollectsNothing(p: Pool, rate: Number)
    requires p.uncollectedFees < rate && p.uncollectedFees * ONE < U192_LIMIT
    ensures CollectAt(p, rate) == Some((p, 0))
  {
    WholeNotes(p.uncollectedFees, rate);
    DivUnique(p.uncollectedFees, rate, 0);
    DivNat(p.uncollectedFees * ONE, rate);
  }
}
