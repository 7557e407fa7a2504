/**
 What the truncated fixed-point conversions between tokens and notes amount to,
 and on which side the rounding falls.
 */
module MarginPoolConversions {
  import opened Wrappers
  import opened FixedPoint
  import opened Arithmetic
  import opened InterestRate
  import opened MarginPoolState

  // ------------------------------------------------- closed forms of the rates

  function Value(p: Pool): nat { p.borrowedTokens + p.depositTokens * ONE }

  /** What belongs to the holders of deposit notes, in raw units. */
  function Equity(p: Pool): int { Max(ONE, Value(p)) - p.uncollectedFees }

  function NoteBase(p: Pool): nat
    ensures NoteBase(p) > 0
  {
    Max(1, p.depositNotes)
  }

  function LoanNoteBase(p: Pool): nat
    ensures LoanNoteBase(p) > 0
  {
    Max(1, p.loanNotes)
  }

  lemma QuotientOfNumber(a: Number, n: u64)
    requires n > 0
    ensures Div(a, FromU64(n)).Some? <==> a * ONE < U192_LIMIT
    ensures Div(a, FromU64(n)).Some? ==> Div(a, FromU64(n)).value == a / n
  {
    DivCancel(a, n, ONE);
    DivNat(a, n);
  }

  /** The deposit-note rate is the equity shared out over the notes, rounded down once. */
  lemma DepositRateIsShareOfEquity(p: Pool)
    ensures DepositNoteRate(p).Some? <==>
            0 <= Equity(p) && Value(p) < U192_LIMIT && Equity(p) * ONE < U192_LIMIT
    ensures DepositNoteRate(p).Some? ==>
            DepositNoteRate(p).value == Equity(p) / NoteBase(p) &&
            Equity(p) == DepositNoteRate(p).value * NoteBase(p) + Equity(p) % NoteBase(p)
  {
    if Value(p) < U192_LIMIT && 0 <= Equity(p) {
      QuotientOfNumber(Equity(p), NoteBase(p));
      DivBounds(Equity(p), NoteBase(p));
    }
  }

  lemma LoanRateIsShareOfDebt(p: Pool)
    ensures LoanNoteRate(p).Some? <==> Max(ONE, p.borrowedTokens) * ONE < U192_LIMIT
    ensures LoanNoteRate(p).Some? ==>
            LoanNoteRate(p).value == Max(ONE, p.borrowedTokens) / LoanNoteBase(p)
  {
    QuotientOfNumber(Max(ONE, p.borrowedTokens), LoanNoteBase(p));
  }

  // ------------------------------------------- closed forms of the conversions

  /** Notes for tokens, rounded up as the program does it: after a first truncation. */
  function NotesUp(tokens: nat, rate: nat): nat
    requires rate > 0
  {
    DivNat(tokens * ONE * ONE, rate);
    CeilDiv(tokens * ONE * ONE / rate, ONE)
  }

  function NotesDown(tokens: nat, rate: nat): nat
    requires rate > 0
  {
    DivNat(tokens * ONE, rate);
    tokens * ONE / rate
  }

  function TokensUp(notes: nat, rate: nat): nat {
    CeilDiv(notes * rate, ONE)
  }

  function TokensDown(notes: nat, rate: nat): nat {
    notes * rate / ONE
  }

  function TokensToNotes(tokens: nat, rounding: Rounding, rate: nat): nat
    requires rate > 0
  {
    if rounding == Down then NotesDown(tokens, rate) else NotesUp(tokens, rate)
  }

  function NotesToTokens(notes: nat, rounding: Rounding, rate: nat): nat {
    if rounding == Down then TokensDown(notes, rate) else TokensUp(notes, rate)
  }

  lemma ConversionInClosedForm(amount: Amount, rounding: Rounding, rate: Number)
    requires ConvertAtRate(amount, rounding, rate).Some?
    ensures var a := ConvertAtRate(amount, rounding, rate).value;
            match amount.kind
            case Tokens => rate > 0 && a.tokens == amount.value &&
                           a.notes == TokensToNotes(amount.value, rounding, rate)
            case Notes => a.notes == amount.value &&
                          a.tokens == NotesToTokens(amount.value, rounding, rate)
  {
    match amount.kind
    case Tokens =>
      DivDiv(amount.value * ONE * ONE, rate, ONE);
      DivCancel(amount.value * ONE, rate, ONE);
    case Notes =>
      assert (amount.value * ONE) * rate == (amount.value * rate) * ONE;
      DivOfMultiple(amount.value * rate, ONE);
  }

  // --------------------------------------------------------- rounding direction

  /**
   By how many raw units the notes asked for some tokens fall short of the
   tokens' worth (negative when the notes are worth more).
   */
  function UnderCharge(tokens: nat, rate: nat): int
    requires rate > 0
  {
    tokens * ONE - NotesUp(tokens, rate) * rate
  }

  /**
   The notes fall short only when the first truncation lands on a whole number
   of notes, and then by all that the truncation cut off.
   */
  lemma UnderChargeExactly(tokens: nat, rate: nat)
    requires rate > 0
    ensures if (tokens * ONE * ONE / rate) % ONE == 0
            then UnderCharge(tokens, rate) == (tokens * ONE) % rate
            else UnderCharge(tokens, rate) < 0
    ensures UnderCharge(tokens, rate) * ONE < rate
    ensures rate <= ONE ==> UnderCharge(tokens, rate) <= 0
  {
    var q, n := tokens * ONE * ONE / rate, tokens * ONE / rate;
    NotesUpAre(tokens, rate);
    DivBounds(tokens * ONE * ONE, rate);
    DivBounds(tokens * ONE, rate);
    assert (n + 1) * rate == n * rate + rate;
    assert (NotesUp(tokens, rate) * ONE) * rate == (NotesUp(tokens, rate) * rate) * ONE;
    MulMono(q, NotesUp(tokens, rate) * ONE, rate);
  }

  lemma NotesUpAre(tokens: nat, rate: nat)
    requires rate > 0
    ensures var q, n := tokens * ONE * ONE / rate, tokens * ONE / rate;
            NotesUp(tokens, rate) == (if q % ONE == 0 then n else n + 1) && q <= NotesUp(tokens, rate) * ONE
  {
    var q := tokens * ONE * ONE / rate;
    DivNat(tokens * ONE * ONE, rate);
    DivDiv(tokens * ONE * ONE, rate, ONE);
    DivCancel(tokens * ONE, rate, ONE);
    CeilBounds(q, ONE);
  }

  /** The exchanged amounts, each priced in raw units, for the action they are for. */
  predicate FavoursPool(action: Action, kind: AmountKind, a: FullAmount, rate: nat) {
    match action
    case Deposit => a.notes * rate <= a.tokens * ONE
    case Repay => a.notes * rate <= a.tokens * ONE
    case Withdraw =>
      (a.tokens * ONE - a.notes * rate) * ONE < rate && (kind == Notes ==> a.tokens * ONE <= a.notes * rate)
    case Borrow =>
      (a.tokens * ONE - a.notes * rate) * ONE < rate && (kind == Notes ==> a.tokens * ONE <= a.notes * rate)
  }

  /**
   For every action and kind of amount the pool gives at most what it gets, up
   to the residue of the truncated quotient when notes are computed rounding up;
   and no tokens move without notes or notes without tokens.
   */
  lemma ConversionFavoursPool(p: Pool, amount: Amount, action: Action)
    requires ConvertAmount(p, amount, action).Ok? && RateFor(p, action).value > 0
    ensures var a := ConvertAmount(p, amount, action).value;
            FavoursPool(action, amount.kind, a, RateFor(p, action).value) && (a.tokens == 0 <==> a.notes == 0)
  {
    var rate := RateFor(p, action).value;
    ConversionInClosedForm(amount, Direction(action, amount.kind), rate);
    match amount.kind
    case Tokens =>
      UnderChargeExactly(amount.value, rate);
      DivBounds(amount.value * ONE, rate);
    case Notes =>
      assert amount.value * rate >= 0;
      DivBounds(amount.value * rate, ONE);
      CeilBounds(amount.value * rate, ONE);
  }

  // ------------------------------------------------------------- round trips

  /** Buying notes and selling them at the same rate never returns more tokens. */
  lemma DepositRoundTrip(tokens: nat, rate: nat)
    requires rate > 0
    ensures TokensDown(NotesDown(tokens, rate), rate) <= tokens
  {
    DivBounds(tokens * ONE, rate);
    DivMono(NotesDown(tokens, rate) * rate, tokens * ONE, ONE);
    DivOfMultiple(tokens, ONE);
  }

  /** Borrowing tokens and repaying the notes at the same rate. */
  function CostOfBorrowing(tokens: nat, rate: nat): nat
    requires rate > 0
  {
    TokensUp(NotesUp(tokens, rate), rate)
  }

  /**
   Repaying the notes of a loan costs at least the loan exactly when the notes
   fall short of it by less than a token: unless the first truncation lands on
   a whole number of notes and cuts off a token or more. No loan loses a token
   where a note is worth at most ONE tokens.
   */
  lemma BorrowRoundTrip(tokens: nat, rate: nat)
    requires rate > 0
    ensures tokens <= CostOfBorrowing(tokens, rate) <==>
            !((tokens * ONE * ONE / rate) % ONE == 0 && (tokens * ONE) % rate >= ONE)
    ensures rate <= ONE * ONE ==> tokens <= CostOfBorrowing(tokens, rate)
  {
    UnderChargeExactly(tokens, rate);
    CeilGalois(NotesUp(tokens, rate) * rate, ONE, tokens - 1);
  }

  /**
   A loan of 2 * 10^15 + 1 tokens for one note, which is repaid, at the rate at
   which it was lent, for a token less.
   */
  lemma LoanThatLosesAToken(config: Config)
    requires AllowsLending(config)
    ensures var p := Pool(config, 2_000_000_000_000_000 * ONE, 0, 5_000_000_000_000_000, 1, 1, 0);
            var loan := FullAmount(2_000_000_000_000_001, 1);
            ConvertAmount(p, Amount(Tokens, loan.tokens), Borrow) == Ok(loan) &&
            AfterBorrow(p, loan).Ok? &&
            ConvertAmount(p, Amount(Notes, 1), Repay) == Ok(FullAmount(2_000_000_000_000_000, 1))
  {
    var p := Pool(config, 2_000_000_000_000_000 * ONE, 0, 5_000_000_000_000_000, 1, 1, 0);
    assert LoanNoteRate(p) == Some(2_000_000_000_000_000 * ONE);
  }

  /** Both round trips for the conversions as the pool performs them. */
  lemma ConversionRoundTrips(p: Pool, tokens: u64)
    ensures var d := ConvertAmount(p, Amount(Tokens, tokens), Deposit);
            d.Ok? && ConvertAmount(p, Amount(Notes, d.value.notes), Withdraw).Ok? ==>
              ConvertAmount(p, Amount(Notes, d.value.notes), Withdraw).value.tokens <= tokens
    ensures var b := ConvertAmount(p, Amount(Tokens, tokens), Borrow);
            b.Ok? && ConvertAmount(p, Amount(Notes, b.value.notes), Repay).Ok? ==>
              LoanNoteRate(p).value > 0 &&
              (ConvertAmount(p, Amount(Notes, b.value.notes), Repay).value.tokens >= tokens <==>
               UnderCharge(tokens, LoanNoteRate(p).value) < ONE)
  {
    var d := ConvertAmount(p, Amount(Tokens, tokens), Deposit);
    if d.Ok? && ConvertAmount(p, Amount(Notes, d.value.notes), Withdraw).Ok? {
      var rate := DepositNoteRate(p).value;
      ConversionInClosedForm(Amount(Tokens, tokens), Down, rate);
      ConversionInClosedForm(Amount(Notes, d.value.notes), Down, rate);
      DepositRoundTrip(tokens, rate);
    }
    var b := ConvertAmount(p, Amount(Tokens, tokens), Borrow);
    if b.Ok? && ConvertAmount(p, Amount(Notes, b.value.notes), Repay).Ok? {
      var rate := LoanNoteRate(p).value;
      ConversionInClosedForm(Amount(Tokens, tokens), Up, rate);
      ConversionInClosedForm(Amount(Notes, b.value.notes), Up, rate);
      BorrowRoundTrip(tokens, rate);
      UnderChargeExactly(tokens, rate);
    }
  }

  /** SetTo moves the holding exactly to the notes its target is worth, or fails. */
  lemma SetToLandsOnTarget(p: Pool, current: u64, tokens: u64, action: Action)
    requires CalculateFullAmount(p, current, TokenChange(SetTo, tokens), action).Ok?
    ensures var a := CalculateFullAmount(p, current, TokenChange(SetTo, tokens), action).value;
            var target := ConvertAmount(p, Amount(Tokens, tokens), action);
            target.Ok? &&
            target.value.notes == (if action.Deposit? || action.Borrow? then current + a.notes else current - a.notes)
  {
    var target := ConvertAmount(p, Amount(Tokens, tokens), action).value.notes;
    var delta := if action.Deposit? || action.Borrow? then target - current else current - target;
    ConversionInClosedForm(Amount(Notes, delta), Direction(action, Notes), RateFor(p, action).value);
  }

  /** At a zero rate nothing can be exchanged: only the empty amount of notes converts. */
  lemma ZeroRateStopsConversions(p: Pool, amount: Amount, action: Action)
    requires RateFor(p, action) == Some(0)
    ensures ConvertAmount(p, amount, action).Ok? <==> amount == Amount(Notes, 0)
    ensures amount.kind == Tokens ==> ConvertAmount(p, amount, action) == Err(Panic)
    ensures amount.kind == Notes && amount.value > 0 ==> ConvertAmount(p, amount, action) == Err(InvalidAmount)
  {
    assert Mul(FromU64(amount.value), 0) == Some(0) by {
      assert (amount.value * ONE) * 0 == 0;
    }
  }
}
