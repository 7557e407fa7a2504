/** The loan-note rate over whole runs of a margin pool: how far it moves under a borrower who does nothing. */
module MarginPoolLoans {
  import opened Wrappers
  import opened FixedPoint
  import opened Arithmetic
  import opened InterestRate
  import opened MarginPoolState
  import opened MarginPoolConversions
  import opened MarginPoolRates
  import opened MarginPoolRuns

  /** A pool with borrowers: it has loan notes, is owed a token or more, and is far from overflow. */
  predicate Owing(p: Pool) {
    p.loanNotes >= 1 && ONE <= p.borrowedTokens && p.borrowedTokens * ONE < U192_LIMIT
  }

  function LoanRate(p: Pool): nat
    requires Owing(p)
  {
    DivNat(p.borrowedTokens, p.loanNotes);
    p.borrowedTokens / p.loanNotes
  }

  /** The debt left over when the rate was rounded down. */
  function LoanSlack(p: Pool): nat
    requires Owing(p)
  {
    p.borrowedTokens % p.loanNotes
  }

  lemma LoanRateIsComputed(p: Pool)
    requires Owing(p)
    ensures LoanNoteRate(p) == Some(LoanRate(p)) && LoanSlack(p) < p.loanNotes
    ensures p.borrowedTokens == LoanRate(p) * p.loanNotes + LoanSlack(p)
  {
    QuotientOfNumber(p.borrowedTokens, p.loanNotes);
    DivBounds(p.borrowedTokens, p.loanNotes);
  }

  // ------------------------------------------------------------------ one step

  /** By how much tokens exceed the worth of the notes they are exchanged for, in raw units. */
  function Excess(a: FullAmount, rate: nat): int {
    a.tokens * ONE - a.notes * rate
  }

  predicate Lending(step: Step) { step.BorrowStep? || step.MarginBorrowStep? }

  predicate Repaying(step: Step) { step.RepayStep? || step.MarginRepayStep? }

  /** The loan notes that a step exchanges, for how many tokens, if it succeeds. */
  function Exchanged(p: Pool, step: Step): FullAmount {
    match step
    case BorrowStep(amount) =>
      if Borrowed(p, amount).Ok? then ConvertAmount(p, amount, Borrow).value else FullAmount(0, 0)
    case MarginBorrowStep(amount) =>
      if MarginBorrowed(p, amount).Ok? then ConvertAmount(p, amount, Borrow).value else FullAmount(0, 0)
    case RepayStep(amount) =>
      if Repaid(p, amount).Ok? then ConvertAmount(p, amount, Repay).value else FullAmount(0, 0)
    case MarginRepayStep(amount) =>
      if MarginRepaid(p, amount).Ok? then ConvertAmount(p, amount, Repay).value else FullAmount(0, 0)
    case _ => FullAmount(0, 0)
  }

  /** Debt and loan notes move by what is exchanged, or the debt grows by interest. */
  predicate DebtMoves(p: Pool, step: Step, a: FullAmount, p': Pool) {
    if Lending(step) then
      p'.loanNotes == p.loanNotes + a.notes && p'.borrowedTokens == p.borrowedTokens + a.tokens * ONE
    else if Repaying(step) then
      p'.loanNotes == p.loanNotes - a.notes && p'.borrowedTokens == p.borrowedTokens - a.tokens * ONE
    else
      p'.loanNotes == p.loanNotes && p'.borrowedTokens >= p.borrowedTokens &&
      (!step.AccrueStep? ==> p'.borrowedTokens == p.borrowedTokens)
  }

  lemma StepMovesDebt(p: Pool, step: Step)
    requires Owing(p) && Owing(Next(p, step))
    ensures DebtMoves(p, step, Exchanged(p, step), Next(p, step))
  {
    match step
    case BorrowStep(amount) => if Borrowed(p, amount).Ok? { LoanMovesDebt(p, amount); }
    case MarginBorrowStep(amount) => if MarginBorrowed(p, amount).Ok? { MarginLoanMovesDebt(p, amount); }
    case RepayStep(amount) => if Repaid(p, amount).Ok? { RepaymentMovesDebt(p, amount); }
    case MarginRepayStep(amount) => if MarginRepaid(p, amount).Ok? { SettlementMovesDebt(p, amount); }
    case AccrueStep(time) => if AfterAccrual(p, time).Some? { PeriodAccrued(p, time); }
    case _ => OthersKeepDebt(p, step);
  }

  lemma OthersKeepDebt(p: Pool, step: Step)
    requires step.DepositStep? || step.WithdrawStep? || step.CollectStep?
    ensures var p' := Next(p, step); p'.loanNotes == p.loanNotes && p'.borrowedTokens == p.borrowedTokens
  {
  }

  lemma LoanMovesDebt(p: Pool, amount: Amount)
    requires Borrowed(p, amount).Ok?
    ensures var p', a := Borrowed(p, amount).value, ConvertAmount(p, amount, Borrow).value;
            p'.loanNotes == p.loanNotes + a.notes && p'.borrowedTokens == p.borrowedTokens + a.tokens * ONE
  {
  }

  lemma MarginLoanMovesDebt(p: Pool, amount: Amount)
    requires MarginBorrowed(p, amount).Ok?
    ensures var p', a := MarginBorrowed(p, amount).value, ConvertAmount(p, amount, Borrow).value;
            p'.loanNotes == p.loanNotes + a.notes && p'.borrowedTokens == p.borrowedTokens + a.tokens * ONE
  {
    LoanMovesDebt(p, amount);
  }

  lemma RepaymentMovesDebt(p: Pool, amount: Amount)
    requires Repaid(p, amount).Ok? && Repaid(p, amount).value.borrowedTokens > 0
    ensures var p', a := Repaid(p, amount).value, ConvertAmount(p, amount, Repay).value;
            p'.loanNotes == p.loanNotes - a.notes && p'.borrowedTokens == p.borrowedTokens - a.tokens * ONE
  {
  }

  lemma SettlementMovesDebt(p: Pool, amount: Amount)
    requires MarginRepaid(p, amount).Ok? && MarginRepaid(p, amount).value.borrowedTokens > 0
    ensures var p', a := MarginRepaid(p, amount).value, ConvertAmount(p, amount, Repay).value;
            p'.loanNotes == p.loanNotes - a.notes && p'.borrowedTokens == p.borrowedTokens - a.tokens * ONE
  {
  }

  /** What a step adds to the debt beyond the worth of the notes it adds, at the rate before it. */
  function DebtGain(p: Pool, p': Pool): int
    requires Owing(p)
  {
    p'.borrowedTokens - p.borrowedTokens - (p'.loanNotes - p.loanNotes) * LoanRate(p)
  }

  lemma GainIsExcess(p: Pool, step: Step, a: FullAmount, p': Pool)
    requires Owing(p) && DebtMoves(p, step, a, p')
    ensures Lending(step) ==> DebtGain(p, p') == Excess(a, LoanRate(p))
    ensures Repaying(step) ==> DebtGain(p, p') == 0 - Excess(a, LoanRate(p))
    ensures !Lending(step) && !Repaying(step) ==> DebtGain(p, p') == p'.borrowedTokens - p.borrowedTokens
  {
    if Repaying(step) { assert (0 - a.notes) * LoanRate(p) == 0 - a.notes * LoanRate(p); }
  }

  /** The rate moves by exactly what slack and gain come to for each note left, rounded down once. */
  lemma GainMovesLoanRate(p: Pool, p': Pool)
    requires Owing(p) && Owing(p')
    ensures LoanRate(p') == LoanRate(p) + (LoanSlack(p) + DebtGain(p, p')) / p'.loanNotes
  {
    LoanRateIsComputed(p);
    ShareAfterChange(p.borrowedTokens, p.loanNotes, LoanRate(p), LoanSlack(p),
                     p'.borrowedTokens - p.borrowedTokens, p'.loanNotes - p.loanNotes);
  }

  /** By how much tokens and notes may differ in worth: one note or one token, whichever is more. */
  function Grain(p: Pool): nat
    requires Owing(p)
  {
    if LoanRate(p) >= ONE then LoanRate(p) else ONE
  }

  /** The exchange is worth its notes to within a grain, and on the side of the pool up to a residue. */
  predicate WorthIt(p: Pool, step: Step, a: FullAmount)
    requires Owing(p)
  {
    (Lending(step) ==> 0 - Grain(p) <= Excess(a, LoanRate(p)) <= FloorOf(LoanRate(p), ONE)) &&
    (Repaying(step) ==> 0 <= Excess(a, LoanRate(p)) <= Grain(p))
  }

  /**
   Loans and repayments are worth their notes to within a grain: repayments add
   nothing to the debt of others, and loans no more than the residue of a
   truncated quotient.
   */
  lemma ExchangesAreWorthIt(p: Pool, step: Step)
    requires Owing(p)
    ensures WorthIt(p, step, Exchanged(p, step))
  {
    match step
    case BorrowStep(amount) => if Borrowed(p, amount).Ok? { LoanIsWorthIt(p, amount); }
    case MarginBorrowStep(amount) => if MarginBorrowed(p, amount).Ok? { LoanIsWorthIt(p, amount); }
    case RepayStep(amount) => if Repaid(p, amount).Ok? { RepaymentIsWorthIt(p, amount); }
    case MarginRepayStep(amount) => if MarginRepaid(p, amount).Ok? { RepaymentIsWorthIt(p, amount); }
    case _ =>
  }

  lemma LoanIsWorthIt(p: Pool, amount: Amount)
    requires Owing(p) && ConvertAmount(p, amount, Borrow).Ok?
    ensures 0 - Grain(p) <= Excess(ConvertAmount(p, amount, Borrow).value, LoanRate(p)) <= FloorOf(LoanRate(p), ONE)
  {
    var rate := LoanRate(p);
    LoanRateIsComputed(p);
    ConversionInClosedForm(amount, Direction(Borrow, amount.kind), rate);
    match amount.kind
    case Tokens => NotesUpWithin(amount.value, rate);
    case Notes => TokensDownWithin(amount.value, rate);
  }

  lemma RepaymentIsWorthIt(p: Pool, amount: Amount)
    requires Owing(p) && ConvertAmount(p, amount, Repay).Ok?
    ensures 0 <= Excess(ConvertAmount(p, amount, Repay).value, LoanRate(p)) <= Grain(p)
  {
    var rate := LoanRate(p);
    LoanRateIsComputed(p);
    ConversionInClosedForm(amount, Direction(Repay, amount.kind), rate);
    match amount.kind
    case Tokens => DivBounds(amount.value * ONE, rate);
    case Notes => CeilBounds(amount.value * rate, ONE);
  }

  lemma NotesUpWithin(tokens: nat, rate: nat)
    requires rate > 0
    ensures 0 - rate <= UnderCharge(tokens, rate) <= FloorOf(rate, ONE)
  {
    UnderChargeExactly(tokens, rate);
    DivGalois(rate, ONE, UnderCharge(tokens, rate));
    DivNat(rate, ONE);
    NotesUpAre(tokens, rate);
    DivBounds(tokens * ONE, rate);
    assert (tokens * ONE / rate + 1) * rate == tokens * ONE / rate * rate + rate;
  }

  lemma TokensDownWithin(notes: nat, rate: nat)
    ensures 0 - ONE <= TokensDown(notes, rate) * ONE - notes * rate <= FloorOf(rate, ONE)
  {
    DivBounds(notes * rate, ONE);
    DivNat(rate, ONE);
  }

  // ---------------------------------------------------------- over whole runs

  /** The most by which a step to the given state can raise the rate. */
  function MostRise(p: Pool, step: Step, p': Pool): nat
    requires Owing(p) && Owing(p')
  {
    if Lending(step) then FloorOf(LoanSlack(p) + FloorOf(LoanRate(p), ONE), p'.loanNotes)
    else if Repaying(step) then FloorOf(LoanSlack(p), p'.loanNotes)
    else if step.AccrueStep? then
      FloorOf(LoanSlack(p) + Max(0, p'.borrowedTokens - p.borrowedTokens), p'.loanNotes)
    else 0
  }

  /** The most by which it can lower it: only exchanges do, by no more than a grain shared out. */
  function MostFall(p: Pool, step: Step, p': Pool): nat
    requires Owing(p) && Owing(p')
  {
    if Lending(step) || Repaying(step) then CeilOf(Grain(p), p'.loanNotes) else 0
  }

  lemma StepMovesLoanRate(p: Pool, step: Step)
    requires Owing(p) && Owing(Next(p, step))
    ensures var p' := Next(p, step);
            LoanRate(p) - MostFall(p, step, p') <= LoanRate(p') <= LoanRate(p) + MostRise(p, step, p')
  {
    StepMovesDebt(p, step);
    ExchangesAreWorthIt(p, step);
    MovesWithin(p, step, Exchanged(p, step), Next(p, step));
  }

  lemma MovesWithin(p: Pool, step: Step, a: FullAmount, p': Pool)
    requires Owing(p) && Owing(p') && DebtMoves(p, step, a, p') && WorthIt(p, step, a)
    ensures LoanRate(p) - MostFall(p, step, p') <= LoanRate(p') <= LoanRate(p) + MostRise(p, step, p')
  {
    var notes, gain, slack := p'.loanNotes, DebtGain(p, p'), LoanSlack(p);
    LoanRateIsComputed(p);
    GainIsExcess(p, step, a, p');
    GainMovesLoanRate(p, p');
    if Lending(step) {
      QuotientWithin(slack, gain, Grain(p), FloorOf(LoanRate(p), ONE), notes);
    } else if Repaying(step) {
      QuotientWithin(slack, gain, Grain(p), 0, notes);
    } else {
      QuotientWithin(slack, gain, 0, gain, notes);
      DivUnique(slack, notes, 0);
    }
  }

  lemma QuotientWithin(slack: nat, gain: int, low: nat, high: nat, notes: nat)
    requires notes > 0 && 0 - low <= gain <= high
    ensures 0 - CeilOf(low, notes) <= (slack + gain) / notes <= FloorOf(slack + high, notes)
  {
    FloorOfNegative(low, notes);
    CeilGalois(low, notes, 0);
    DivMono(0 - low, slack + gain, notes);
    DivMono(slack + gain, slack + high, notes);
  }

  /** Every state of the run has borrowers. */
  ghost predicate OwingThroughout(p: Pool, steps: seq<Step>)
    decreases |steps|
  {
    Owing(p) && (steps != [] ==> OwingThroughout(Next(p, steps[0]), steps[1..]))
  }

  /** What the steps of a run can raise the rate by, all together. */
  function RunRise(p: Pool, steps: seq<Step>): nat
    decreases |steps|
  {
    if steps == [] then 0
    else
      var p' := Next(p, steps[0]);
      (if Owing(p) && Owing(p') then MostRise(p, steps[0], p') else 0) + RunRise(p', steps[1..])
  }

  function RunFall(p: Pool, steps: seq<Step>): nat
    decreases |steps|
  {
    if steps == [] then 0
    else
      var p' := Next(p, steps[0]);
      (if Owing(p) && Owing(p') then MostFall(p, steps[0], p') else 0) + RunFall(p', steps[1..])
  }

  /**
   Over every run of all operations on a pool with borrowers the loan-note rate
   rises by no more than interest, slack and the residues of loans come to, and
   falls by no more than a grain for each exchange, shared out over the notes.
   */
  lemma {:induction false} RunMovesLoanRate(p: Pool, steps: seq<Step>)
    requires OwingThroughout(p, steps)
    ensures Owing(Run(p, steps))
    ensures LoanRate(p) - RunFall(p, steps) <= LoanRate(Run(p, steps)) <= LoanRate(p) + RunRise(p, steps)
    decreases |steps|
  {
    if steps != [] {
      OwingThere(Next(p, steps[0]), steps[1..]);
      StepMovesLoanRate(p, steps[0]);
      RunMovesLoanRate(Next(p, steps[0]), steps[1..]);
    }
  }

  lemma OwingThere(p: Pool, steps: seq<Step>)
    requires OwingThroughout(p, steps)
    ensures Owing(p)
  {
  }

  /** Without loans and repayments the rate never falls. */
  lemma {:induction false} InterestAloneNeverLowersRate(p: Pool, steps: seq<Step>)
    requires OwingThroughout(p, steps)
    requires forall i :: 0 <= i < |steps| ==> !Lending(steps[i]) && !Repaying(steps[i])
    ensures Owing(Run(p, steps)) && LoanRate(p) <= LoanRate(Run(p, steps))
    decreases |steps|
  {
    if steps != [] {
      OwingThere(Next(p, steps[0]), steps[1..]);
      StepMovesLoanRate(p, steps[0]);
      InterestAloneNeverLowersRate(Next(p, steps[0]), steps[1..]);
    }
  }

  /** What repaying a holding of loan notes costs. */
  function Owed(p: Pool, notes: nat): nat
    requires Owing(p)
  {
    TokensUp(notes, LoanRate(p))
  }

  /** So what a borrower who does nothing owes moves over a run by no more than the notes' part of that. */
  lemma BorrowersOweWithin(p: Pool, steps: seq<Step>, notes: nat)
    requires OwingThroughout(p, steps)
    ensures Owing(Run(p, steps))
    ensures Owed(Run(p, steps), notes) <= Owed(p, notes) + Loss(notes, RunRise(p, steps))
    ensures Owed(p, notes) <= Owed(Run(p, steps), notes) + Loss(notes, RunFall(p, steps))
  {
    RunMovesLoanRate(p, steps);
    CostOfRise(notes, LoanRate(p), LoanRate(Run(p, steps)), RunRise(p, steps));
    CostOfRise(notes, LoanRate(Run(p, steps)), LoanRate(p), RunFall(p, steps));
  }

  lemma CostOfRise(notes: nat, rate: nat, after: nat, rise: nat)
    requires after <= rate + rise
    ensures TokensUp(notes, after) <= TokensUp(notes, rate) + Loss(notes, rise)
  {
    var x, y := notes * rate, notes * rise;
    assert notes * after <= x + y by { MulMono(after, rate + rise, notes); }
    CeilBounds(x, ONE);
    CeilBounds(y, ONE);
    CeilGalois(notes * after, ONE, CeilDiv(x, ONE) + CeilDiv(y, ONE));
  }

  /** Repaying two of three notes exactly leaves their slack to the third, whose rate rises by two raw units. */
  lemma RepayingCanRaiseLoanRate(config: Config)
    ensures var p := Pool(config, 3 * ONE + 2, 0, 0, 1, 3, 0);
            var p' := Next(p, RepayStep(Amount(Notes, 2)));
            Owing(p) && Owing(p') && LoanRate(p) == ONE && LoanRate(p') == ONE + 2 &&
            MostRise(p, RepayStep(Amount(Notes, 2)), p') == 2
  {
    var p := Pool(config, 3 * ONE + 2, 0, 0, 1, 3, 0);
    assert LoanNoteRate(p) == Some(ONE);
    assert ConvertAtRate(Amount(Notes, 2), Up, ONE) == Some(FullAmount(2, 2));
    assert AfterRepay(p, FullAmount(2, 2)) == Ok(p.(borrowedTokens := ONE + 2, depositTokens := 2, loanNotes := 1));
  }
}
