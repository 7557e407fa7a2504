/** What the token program holds for a margin pool, against the pool's own counts. */
module MarginPoolLedger {
  import opened FixedPoint
  import opened MarginPoolState
  import opened MarginPoolConversions
  import opened MarginPoolRuns

  /** What the token program holds for a pool: its vault, and the supply of its two kinds of notes. */
  datatype Ledger = Ledger(vault: int, depositSupply: int, loanSupply: int)

  /** The transfers, mints and burns that accompany a step that succeeds. */
  function Booked(p: Pool, l: Ledger, step: Step): Ledger {
    match step
    case DepositStep(amount) =>
      if Deposited(p, amount).Err? then l
      else
        var a := ConvertAmount(p, amount, Deposit).value;
        l.(vault := l.vault + a.tokens, depositSupply := l.depositSupply + a.notes)
    case WithdrawStep(amount) =>
      if Withdrawn(p, amount).Err? then l
      else
        var a := ConvertAmount(p, amount, Withdraw).value;
        l.(vault := l.vault - a.tokens, depositSupply := l.depositSupply - a.notes)
    case BorrowStep(amount) =>
      if Borrowed(p, amount).Err? then l
      else
        var a := ConvertAmount(p, amount, Borrow).value;
        l.(vault := l.vault - a.tokens, loanSupply := l.loanSupply + a.notes)
    case RepayStep(amount) =>
      if Repaid(p, amount).Err? then l
      else
        var a := ConvertAmount(p, amount, Repay).value;
        l.(vault := l.vault + a.tokens, loanSupply := l.loanSupply - a.notes)
    case MarginBorrowStep(amount) =>
      if MarginBorrowed(p, amount).Err? then l
      else
        var a := ConvertAmount(p, amount, Borrow).value;
        var d := ConvertAmount(AfterBorrow(p, a).value, Amount(Tokens, a.tokens), Deposit).value;
        l.(loanSupply := l.loanSupply + a.notes, depositSupply := l.depositSupply + d.notes)
    case MarginRepayStep(amount) =>
      if MarginRepaid(p, amount).Err? then l
      else
        var a := ConvertAmount(p, amount, Repay).value;
        var w := ConvertAmount(p, Amount(Tokens, a.tokens), Withdraw).value;
        l.(loanSupply := l.loanSupply - a.notes, depositSupply := l.depositSupply - w.notes)
    case AccrueStep(_) => l
    case CollectStep =>
      if AfterCollection(p).None? then l
      else l.(depositSupply := l.depositSupply + AfterCollection(p).value.1)
  }

  function Ledgers(p: Pool, l: Ledger, steps: seq<Step>): Ledger
    decreases |steps|
  {
    if steps == [] then l else Ledgers(Next(p, steps[0]), Booked(p, l, steps[0]), steps[1..])
  }

  predicate Balanced(p: Pool, l: Ledger) {
    l == Ledger(p.depositTokens, p.depositNotes, p.loanNotes)
  }

  lemma StepKeepsBalance(p: Pool, l: Ledger, step: Step)
    requires Balanced(p, l)
    ensures Balanced(Next(p, step), Booked(p, l, step))
  {
    match step
    case MarginBorrowStep(amount) =>
      if MarginBorrowed(p, amount).Ok? { MarginBorrowTokens(p, amount); }
    case AccrueStep(time) => AccrualKeepsCounts(p, time);
    case _ =>
  }

  lemma AccrualKeepsCounts(p: Pool, time: i64)
    ensures var p' := Next(p, AccrueStep(time));
            p'.depositTokens == p.depositTokens && p'.depositNotes == p.depositNotes && p'.loanNotes == p.loanNotes
  {
    if AfterAccrual(p, time).Some? { PeriodAccrued(p, time); }
  }

  /** Borrowed tokens that are deposited back leave the vault as it was. */
  lemma MarginBorrowTokens(p: Pool, amount: Amount)
    requires MarginBorrowed(p, amount).Ok?
    ensures MarginBorrowed(p, amount).value.depositTokens == p.depositTokens
  {
    var a := ConvertAmount(p, amount, Borrow).value;
    var lent := AfterBorrow(p, a).value;
    ConversionInClosedForm(Amount(Tokens, a.tokens), Down, DepositNoteRate(lent).value);
  }

  /**
   Over every run the pool's own counts are what the token program holds: the
   tokens in the vault and the supplies of deposit and loan notes.
   */
  lemma {:induction false} RunKeepsBalance(p: Pool, l: Ledger, steps: seq<Step>)
    requires Balanced(p, l)
    ensures Balanced(Run(p, steps), Ledgers(p, l, steps))
    decreases |steps|
  {
    if steps != [] {
      StepKeepsBalance(p, l, steps[0]);
      RunKeepsBalance(Next(p, steps[0]), Booked(p, l, steps[0]), steps[1..]);
    }
  }
}
