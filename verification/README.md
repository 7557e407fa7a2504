# Verified models of the Jet protocol's accounting and tooling

Five parts of the repository, modelled in Dafny and proved correct. An abort (a
panic, a failed checked operation or an error) rolls back the transaction it
happens in, so in every model a failing operation leaves the state as it was.

**Margin pool** (`FixedPoint`, `InterestRate`, `MarginPoolState`,
`MarginPoolAccount`, `MarginPoolConversions`, `MarginPoolRates`,
`InterestCurve`, `InterestFactor`, `MarginPoolRuns`, `MarginPoolLoans`,
`MarginPoolLedger`, `MarginPoolOutcomes`). A lending pool whose deposit and loan notes are priced by truncated fixed-point
division: numbers are 192-bit integers in units of 10^-15, and every overflow, underflow and
division by zero aborts. The class `MarginPool` is updated in place and
specified by the functions of `MarginPoolState`. Everything is proved of the
rates as computed, truncations included: how each operation moves the
deposit-note rate, that collecting fees leaves it exactly equal, which
conversion round trips can profit, that interest accrues by the clock, that the
rate curve is monotone and meets its knots, that interest is the Taylor
polynomial of its exponential to within two raw units a term, and when exactly
each operation succeeds. Over whole runs of a pool in use
(it keeps a note, a token of value and room below overflow) the rate falls only
by withdrawals and settlements in tokens that take more than their notes are
worth and the rounding slack holds, by an amount that is stated exactly; and
the loan-note rate, so long as there are loans, moves under borrowers who do
nothing only by interest and by bounded residues of other loans and repayments.

**Staking** (`StakingState`, `StakePoolAccounts`, `SharePrices`, `Sums`,
`StakingRuns`, `StakingVotes`, `StakingOutcomes`). Two sub-pools of tokens and shares behind one
vault, as classes, and the program's instructions over all accounts and
unbonding records as a state machine. Every reachable state is accounted for;
until the owner withdraws, an unbonding record pays exactly what was unbonded;
and a holding of bonded shares never loses value to other users. The voter
weights on record sum to the maximum voter weight exactly as long as no record
in use is destroyed, which closing an account of another pool can do: it ties
account and record to each other only by their owner.

**Instruction decoder** (`LittleEndian`, `Idl`, `BorshParser`, `BorshCursor`,
`BorshEncoder`, `BorshRoundTrip`, `BorshLayouts`, `IdlNesting`). The
type-directed decoder, as functions and as the cursor that runs, against the
encoding of the Borsh specification (borsh.io, section "Specification"), whose
widths, order and tags are stated in numbers. The functions are cut off at a
nesting depth, which the source does not have; decoding ends exactly where some
depth suffices, and then with the same outcome at every greater one. For all
definitions, decoding undoes encoding exactly for values without 256-bit
integers, what decodes re-encodes to the bytes consumed, and a decoding depends
only on the prefix it consumes. Decoding ends on every input exactly for
definitions in which no struct reaches itself in place behind members that take
no bytes.

**Lookup-table registry** (`LookupTables`, `RegistryUpdate`). The loop that
packs addresses into tables terminates, places every address once in a table
with both tags, creates the fewest possible tables, and writes a plan that
replays to the registry kept in memory. An update appends exactly the addresses
that are missing; a second one plans nothing.

**Invocation marks** (`InvocationMarks`, `CallStacks`). The byte in which the
margin program marks the stack heights it invokes adapters from always agrees
with the real call stack, for every nesting of calls through any accounts.

## Where the code and its documentation differ

- The borrow limit is documented as 9500 basis points; it is compared after
  truncation to whole basis points, so a loan is granted exactly below 95.01%
  (`BorrowLimitExactly`, `BorrowBeyondDocumentedLimit`).
- Conversions are documented to favour the pool in every case. When notes are
  computed rounding up, the quotient has already been truncated once, so a
  withdrawal, a settlement or a loan by tokens can be charged notes worth
  slightly less than the tokens (`UnderChargeExactly`,
  `WithdrawByTokensCanLowerRate`, `MarginRepayCanLowerRate`,
  `LoanThatLosesAToken`).
- For 256-bit integers the decoder reads 16 bytes, half of the type's width
  (`BorshRoundTripExactly`, `WideIntegerIsCutShort`).

## Model

| member | source | states |
|---|---|---|
| `MarginPoolAccount.MarginPool.Deposit` | programs/margin-pool/src/state.rs:156-159 | the new state is `AfterDeposit`, or nothing changes on overflow |
| `MarginPoolAccount.MarginPool.Withdraw` | programs/margin-pool/src/state.rs:162-173 | the new state is `AfterWithdraw`, or the error and no change |
| `MarginPoolAccount.MarginPool.Borrow` | programs/margin-pool/src/state.rs:176-195 | the new state is `AfterBorrow`; every failing check rolls everything back |
| `MarginPoolAccount.MarginPool.Repay` | programs/margin-pool/src/state.rs:198-219 | the new state is `AfterRepay`, with the saturating debt reduction, or the error and no change |
| `MarginPoolAccount.MarginPool.MarginRepay` | programs/margin-pool/src/state.rs:225-256 | the new state is `AfterMarginRepay`, or the error and no change |
| `MarginPoolAccount.MarginPool.AccrueInterest` | programs/margin-pool/src/state.rs:262-285 | the new state and the returned flag are those of `AfterAccrual` |
| `MarginPoolAccount.MarginPool.CollectAccruedFees` | programs/margin-pool/src/state.rs:336-353 | the new state and the minted notes are those of `AfterCollection` |
| `MarginPoolConversions.DepositRateIsShareOfEquity` | programs/margin-pool/src/state.rs:504-508 | the deposit-note rate is the equity over the notes, rounded down once; it exists exactly when fees are covered and nothing overflows |
| `MarginPoolConversions.LoanRateIsShareOfDebt` | programs/margin-pool/src/state.rs:511-515 | the loan-note rate is the debt over the loan notes, rounded down once |
| `MarginPoolConversions.ConversionInClosedForm` | programs/margin-pool/src/state.rs:471-501 | the two-step truncations collapse to one quotient, except when notes are rounded up |
| `MarginPoolConversions.UnderChargeExactly` | programs/margin-pool/src/state.rs:478-488 | notes rounded up fall short of the tokens exactly when the first truncation lands on a whole number of notes, then by all that it cut off: less than rate/ONE raw units, and nothing at a rate up to one |
| `MarginPoolConversions.ConversionFavoursPool` | programs/margin-pool/src/state.rs:435-468 | for all four actions and both kinds the pool gives at most what it gets, up to that residue, and tokens are zero exactly when notes are |
| `MarginPoolConversions.DepositRoundTrip` | programs/margin-pool/src/state.rs:594-606 | buying and selling notes at one rate never returns more tokens |
| `MarginPoolConversions.BorrowRoundTrip` | programs/margin-pool/src/state.rs:594-606 | repaying a loan's notes at one rate costs at least the loan unless the first truncation lands on a whole number of notes and cuts off a token or more; always at raw rates up to ONE squared |
| `MarginPoolConversions.LoanThatLosesAToken` | programs/margin-pool/src/state.rs:478-488 | a loan the pool grants whose notes are repaid at the same rate for a token less |
| `MarginPoolConversions.ConversionRoundTrips` | programs/margin-pool/src/state.rs:435-468 | for the conversions as the pool performs them: a deposit never returns more, and a loan costs at least itself exactly when its notes fall short by less than a token |
| `MarginPoolConversions.SetToLandsOnTarget` | programs/margin-pool/src/state.rs:409-432 | for all four actions, the holding moved by the computed notes is exactly the notes of the target |
| `MarginPoolConversions.ZeroRateStopsConversions` | programs/margin-pool/src/state.rs:435-468 | at a zero rate only the empty amount of notes converts |
| `MarginPoolOutcomes.ConversionSucceedsExactly` | programs/margin-pool/src/state.rs:435-501 | a conversion at a positive rate succeeds exactly when both sides fit 64 bits and neither is empty without the other, with these sides; only the lack of balance is reported as invalid |
| `MarginPoolOutcomes.SetAmountSucceedsExactly` | programs/margin-pool/src/state.rs:385-432 | a token change shifts by its worth or sets the holding, and is refused exactly when the target lies on the wrong side of it |
| `MarginPoolRates.DepositKeepsRate` | programs/margin-pool/src/state.rs:155-159 | a deposit keeps the fees covered and never lowers the rate of a pool worth a token or more; below that exactly when the top-up exceeds slack and overpayment |
| `MarginPoolRates.DepositCanLowerRate` | programs/margin-pool/src/state.rs:155-159 | a pool of half a token whose rate a deposit lowers by a quarter |
| `MarginPoolRates.WithdrawKeepsRate` | programs/margin-pool/src/state.rs:162-173 | a withdrawal that leaves notes keeps the fees covered and moves the rate by exactly what slack and top-up leave over for each note once the shortfall is paid; it is kept always when given in notes |
| `MarginPoolRates.WithdrawByTokensCanLowerRate` | programs/margin-pool/src/state.rs:478-488 | a pool of three notes whose rate falls by one raw unit |
| `MarginPoolRates.DepositThenWithdraw` | programs/margin-pool/src/state.rs:435-508 | depositing and withdrawing the notes at the rate after the deposit returns at most the deposit |
| `MarginPoolRates.BorrowKeepsValue` | programs/margin-pool/src/state.rs:176-195 | a loan leaves total value and deposit-note rate exactly equal |
| `MarginPoolRates.RepayKeepsValue` | programs/margin-pool/src/state.rs:198-219 | a repayment raises total value by less than one token and never lowers the rate |
| `MarginPoolRates.MarginRepayKeepsRate` | programs/margin-pool/src/state.rs:225-256 | settling with deposit notes keeps the fees covered and moves the rate by exactly what slack and top-up leave over for each note; it is kept exactly when they cover the shortfall of the debt removed |
| `MarginPoolRates.MarginRepayCanLowerRate` | programs/margin-pool/src/state.rs:225-256 | a pool of three notes whose rate a settlement of two tokens lowers by one raw unit |
| `MarginPoolRates.MarginRepayIsWithdrawThenRepay` | programs/margin-pool/src/state.rs:225-256 | with equal tokens, margin_repay is withdraw then repay, and they succeed together exactly where the vault can pay out |
| `MarginPoolRates.RepayingNeverRaisesUtilization` | programs/margin-pool/src/state.rs:329-331 | neither way of repaying raises the computed utilisation |
| `MarginPoolRates.BorrowLimitExactly` | programs/margin-pool/src/state.rs:190-192 | a loan is granted exactly when it leaves the debt below 95.01% of the value |
| `MarginPoolRates.BorrowBeyondDocumentedLimit` | programs/margin-pool/src/state.rs:190-192 | a granted loan of 95.005% of the value |
| `MarginPoolRates.CollectionKeepsRate` | programs/margin-pool/src/state.rs:336-353 | fees split exactly into minted notes times rate plus a remainder below one note; the rate stays exactly equal unless the pool had no notes and mints some, but no more than the rate has raw units, and then rises |
| `MarginPoolRates.FirstFeeNote` | programs/margin-pool/src/state.rs:336-353 | such a pool, whose first note doubles the rate |
| `MarginPoolRates.SecondCollectionMintsNothing` | programs/margin-pool/src/state.rs:336-353 | collecting again at once mints nothing and changes nothing, and for a pool in use it does not abort |
| `MarginPoolOutcomes.DepositSucceedsExactly` | programs/margin-pool/src/state.rs:155-159 | a deposit succeeds exactly when its conversion does and both counters hold it |
| `MarginPoolOutcomes.FirstDeposit` | programs/margin-pool/src/state.rs:504-508 | the first deposit into an empty pool mints one note for each token |
| `MarginPoolOutcomes.WithdrawalSucceedsExactly` | programs/margin-pool/src/state.rs:162-173 | a withdrawal succeeds exactly when its conversion does and the pool holds both sides, and else lacks liquidity |
| `MarginPoolOutcomes.LoanSucceedsExactly` | programs/margin-pool/src/state.rs:176-195 | every outcome of a loan by flag, liquidity, counter and limit, in this order |
| `MarginPoolOutcomes.RepaymentSucceedsExactly` | programs/margin-pool/src/state.rs:198-219 | a repayment succeeds exactly when it burns notes there are and pays less than a token beyond the debt; one that covers the debt leaves none |
| `MarginPoolOutcomes.SettlementSucceedsExactly` | programs/margin-pool/src/state.rs:225-256 | the same for a settlement, which burns deposit notes instead of taking tokens |
| `MarginPoolOutcomes.LastLoanIsRepaid` | programs/margin-pool/src/state.rs:205-212 | three and a half tokens of debt cleared by repaying all notes for four |
| `MarginPoolOutcomes.CollectionSucceedsExactly` | programs/margin-pool/src/state.rs:336-353 | collection succeeds exactly when the rate is positive and the minted notes fit; it mints the whole notes the fees are worth |
| `MarginPoolOutcomes.DebtHandlersSucceedExactly` | programs/margin-pool/src/state.rs:176-219 | a loan or repayment of an amount succeeds exactly when its conversion does and the pool can record it |
| `MarginPoolOutcomes.StepTakesEffect` | programs/margin-pool/src/state.rs:155-353 | a step of a run has the effect of its operation where that succeeds and none where it fails |
| `MarginPoolOutcomes.MarginLoanSucceedsExactly` | programs/margin-pool/src/instructions/margin_borrow.rs:90-143 | through a margin account a loan is deposited back at the unchanged rate, and when that succeeds |
| `MarginPoolOutcomes.MarginRepaymentSucceedsExactly` | programs/margin-pool/src/instructions/margin_repay.rs:86-141 | a repayment is paid with the deposit notes its tokens cost, and when that succeeds |
| `MarginPoolRuns.AccruedInterest` | programs/margin-pool/src/state.rs:270-283 | the fee is the configured share of the interest, and nothing but debt, fees and clock changes |
| `MarginPoolRuns.AccrualKeepsRate` | programs/margin-pool/src/state.rs:262-285 | accrual lowers neither the debt nor the deposit-note rate |
| `MarginPoolRuns.AccrualClock` | programs/margin-pool/src/state.rs:262-285 | the clock moves to the time or by a week, the flag says which, and it never passes the time exactly when the gap fits 64 bits |
| `MarginPoolRuns.CatchingUp` | programs/margin-pool/src/util.rs:27 | repeated calls for one time finish with exactly one call per started week |
| `InterestFactor.ExpansionIsClose` | libraries/rust/program-common/src/functions.rs:7-26 | no step of the expansion aborts for arguments up to one, and its accumulators are the exact power, factorial and Taylor sum to within a raw unit or two a term |
| `InterestFactor.FactorIsTaylor` | programs/margin-pool/src/util.rs:41-62 | the interest factor exists exactly for rates up to two and periods up to a week, and is the Taylor polynomial of exp(x) - 1 at the simple interest of the period, by five to ten terms, to within two raw units a term |
| `MarginPoolOutcomes.InterestIsCompounded` | programs/margin-pool/src/state.rs:270-280 | an accrual charges that factor on the debt and sets the configured share aside as fees |
| `MarginPoolOutcomes.AccrualSucceedsExactly` | programs/margin-pool/src/state.rs:262-285 | accrual on a pool in use succeeds exactly for times not past and rates up to two |
| `MarginPoolOutcomes.AccrualAlwaysSucceeds` | programs/margin-pool/src/state.rs:262-285 | with a proper curve of at most 200% it always succeeds |
| `MarginPoolOutcomes.InterestRateIsCurve` | programs/margin-pool/src/state.rs:288-331 | the interest rate of a pool is the curve at its utilisation, or the second configured rate without notes |
| `MarginPoolRuns.InterestRateDefinedExactly` | programs/margin-pool/src/state.rs:288-326 | the interest rate exists exactly for a pool without notes or with some value |
| `MarginPoolRuns.RepayingNeverRaisesInterest` | programs/margin-pool/src/state.rs:288-331 | repaying never raises the interest rate |
| `MarginPoolRuns.StepErodesRate` | programs/margin-pool/src/state.rs:155-353 | an operation on a pool in use keeps the fees covered, lowers the deposit-note rate exactly when it takes more than its notes' worth and the slack, and then by exactly that excess per note left, rounded up |
| `MarginPoolRuns.ErosionIsSmall` | programs/margin-pool/src/state.rs:478-488 | the excess is less than rate/ONE raw units: none at rates up to one, and at most one raw unit of the rate where as many notes are left as one note is worth tokens |
| `MarginPoolRuns.RunErodesRate` | programs/margin-pool/src/state.rs:155-353 | over every run of all operations on a pool in use the fees stay covered and the deposit-note rate falls by no more than the summed erosion of its steps |
| `MarginPoolRuns.RunErosionIsSmall` | programs/margin-pool/src/state.rs:155-353 | with many notes the erosion is at most one raw unit a step |
| `MarginPoolRuns.RunKeepsRate` | programs/margin-pool/src/state.rs:155-353 | over runs in which no step takes more than its notes' worth and the slack, the rate never falls |
| `MarginPoolRuns.ErosionIsReached` | programs/margin-pool/src/state.rs:478-488 | a pool and a run of which the rate falls by its whole erosion |
| `MarginPoolRuns.HoldersLoseAtMost` | programs/margin-pool/src/state.rs:155-353 | over every run on a pool in use, what a holding of notes redeems for falls by no more than its part of the erosion, rounded up |
| `MarginPoolRuns.HoldersLoseAToken` | programs/margin-pool/src/state.rs:155-353 | with many notes, by at most one token while notes times steps stay within 10^15 |
| `MarginPoolRuns.HoldersNeverLose` | programs/margin-pool/src/state.rs:155-353 | and not at all where no step takes more than its notes' worth and the slack |
| `MarginPoolLoans.GainMovesLoanRate` | programs/margin-pool/src/state.rs:511-515 | the loan-note rate moves by exactly what its slack and the debt gained beyond the notes' worth come to for each note left, rounded down once |
| `MarginPoolLoans.ExchangesAreWorthIt` | programs/margin-pool/src/state.rs:435-468 | loans and repayments are worth their notes to within one note or token; repayments add nothing to the debt of others, loans at most a residue of the rate |
| `MarginPoolLoans.StepMovesLoanRate` | programs/margin-pool/src/state.rs:176-285 | an operation on a pool with borrowers moves the loan-note rate within bounds: up by interest, slack and residue per note left, down by one note or token per note left |
| `MarginPoolLoans.RunMovesLoanRate` | programs/margin-pool/src/state.rs:176-285 | the same over every run of all operations in whose states the pool has a loan note and is owed a token or more |
| `MarginPoolLoans.InterestAloneNeverLowersRate` | programs/margin-pool/src/state.rs:262-285 | without loans and repayments the loan-note rate never falls |
| `MarginPoolLoans.BorrowersOweWithin` | programs/margin-pool/src/state.rs:511-515 | what a borrower who does nothing owes moves over a run by no more than the notes' part of those bounds |
| `MarginPoolLoans.RepayingCanRaiseLoanRate` | programs/margin-pool/src/state.rs:198-219 | a repayment that raises the rate of the note left by the slack |
| `MarginPoolLedger.RunKeepsBalance` | programs/margin-pool/src/instructions/margin_repay.rs:86-141 | bookkeeping: over every run the vault and both note supplies are what the pool counts |
| `InterestRate.Expm1Approx` | libraries/rust/program-common/src/functions.rs:7-26 | the loop computes the recursively defined truncated expansion, aborts included |
| `MarginPoolOutcomes.OverflowsBeyond192Bits` | libraries/rust/program-common/src/number.rs:260-294 | sums, differences and products abort exactly where they leave 192 bits |
| `InterestCurve.CompoundingIsMonotone` | programs/margin-pool/src/util.rs:41-62 | the interest factor grows with rate and period, across changes in the number of terms, and is at least simple interest |
| `InterestCurve.InterpolateInClosedForm` | programs/margin-pool/src/util.rs:65-70 | interpolation succeeds on ordered points, in closed form and between its ends |
| `InterestCurve.CurveMeetsKnots` | programs/margin-pool/src/state.rs:288-326 | the truncated curve meets its four configured rates exactly |
| `InterestCurve.CurveIsMonotone` | programs/margin-pool/src/state.rs:288-326 | the rate is non-decreasing over all regimes and within the lowest and highest |
| `MarginPoolRuns.CurveIsTotalExactly` | programs/margin-pool/src/state.rs:288-326 | no pool of a configuration sees the interest rate abort if and only if the first knot is above zero and no regime falls that a pool's utilisation can enter |
| `StakePoolAccounts.SharedTokenPool.Deposit` | programs/staking/src/state.rs:237-243 | the new sub-pool and amounts are those of `AddTokens` |
| `StakePoolAccounts.SharedTokenPool.Withdraw` | programs/staking/src/state.rs:251-256 | the new sub-pool and amounts are those of `TakeShares` |
| `StakePoolAccounts.SharedTokenPool.WithdrawTokens` | programs/staking/src/state.rs:261-266 | the new sub-pool and amounts are those of `TakeTokens` |
| `StakePoolAccounts.StakeAccount.Unbond` | programs/staking/src/state.rs:419-440 | shares move from bonded to unbonding, or the error and no change |
| `StakePoolAccounts.StakePool.UpdateVault` | programs/staking/src/state.rs:75-79 | the vault's gain is donated to the bonded sub-pool |
| `StakePoolAccounts.StakePool.Deposit` | programs/staking/src/state.rs:83-94 | pool and account become those of `AfterDeposit`, or nothing changes |
| `StakePoolAccounts.StakePool.Unbond` | programs/staking/src/state.rs:99-119 | pool, account and record become those of `AfterUnbond`, or nothing changes |
| `StakePoolAccounts.StakePool.WithdrawUnbonded` | programs/staking/src/state.rs:123-136 | pool and account become those of `AfterWithdrawUnbonded`, or nothing changes |
| `StakePoolAccounts.StakePool.WithdrawBonded` | programs/staking/src/state.rs:140-152 | the pool becomes that of `AfterWithdrawBonded`, or nothing changes |
| `StakePoolAccounts.StakePool.Rebond` | programs/staking/src/state.rs:156-161 | pool and account become those of `AfterRebond`, or nothing changes |
| `SharePrices.NoIntermediateOverflow` | programs/staking/src/state.rs:329-337 | no 128-bit intermediate overflows for any 64-bit inputs |
| `SharePrices.ProportionIsRounded` | programs/staking/src/state.rs:320-386 | a conversion is the exact proportion rounded once as asked, zero only for zero |
| `StakingOutcomes.ProportionSucceedsExactly` | programs/staking/src/state.rs:320-386 | a conversion fails only for an empty pool, a result that does not fit, or nothing for something |
| `StakingOutcomes.AddTokensSucceedsExactly` | programs/staking/src/state.rs:237-243 | a deposit into a sub-pool fails only if it would issue no share or something does not fit, and issues the price, or ten shares a token without tokens |
| `StakingOutcomes.FundedPoolTakesDeposits` | programs/staking/src/state.rs:237-243 | with at least as many shares as tokens only overflow stops a deposit |
| `StakingOutcomes.TakeSharesSucceedsExactly` | programs/staking/src/state.rs:251-256 | taking shares fails only if they are worth no token or not all there |
| `StakingOutcomes.TakeTokensSucceedsExactly` | programs/staking/src/state.rs:261-266 | taking tokens fails only if they, or the shares they cost, are not all there |
| `SharePrices.AddTokensKeepsPrice` | programs/staking/src/state.rs:237-243 | a deposit never lowers the price of a share |
| `SharePrices.TakeSharesIsFair` | programs/staking/src/state.rs:251-256 | redeeming pays at most the shares' worth, to within one token, and keeps the price |
| `SharePrices.TakeTokensIsFair` | programs/staking/src/state.rs:261-266 | withdrawing tokens burns at least their worth, keeps the price, and leaves tokens wherever shares remain |
| `SharePrices.DepositRoundTrip` | programs/staking/src/state.rs:237-272 | a deposit and its withdrawal return at most the deposit and lose at most one token from a pool with no fewer shares than tokens, nothing from empty |
| `SharePrices.UnbondThenRebond` | programs/staking/src/state.rs:99-161 | unbonding and cancelling gains shares if and only if every bonded token is asked for and ten times what the unbonding sub-pool returns for them exceed the bonded shares |
| `SharePrices.RebondAtInitialRate` | programs/staking/src/state.rs:99-161 | the only staker of a pool who thereby turns 100 shares into 1000 |
| `SharePrices.WithdrawBondedExactly` | programs/staking/src/state.rs:140-152 | it succeeds exactly for amounts within a non-empty vault and charges the proportions, rounded down for bonded and up for unbonding |
| `StakingOutcomes.DepositSucceedsExactly` | programs/staking/src/state.rs:83-94 | when a staking deposit succeeds and what it leaves of pool and account |
| `StakingOutcomes.UnbondSucceedsExactly` | programs/staking/src/state.rs:99-119 | an unbonding moves exactly the tokens asked for, burns their price and records the shares issued; when it succeeds and when it lacks stake |
| `StakingOutcomes.RedemptionSucceedsExactly` | programs/staking/src/state.rs:123-136 | when a record can be redeemed, and that it pays its proportion |
| `StakingOutcomes.RebondSucceedsExactly` | programs/staking/src/state.rs:156-161 | when cancelling succeeds and what it leaves |
| `SharePrices.DonationIntoEmptyBlocksDeposits` | programs/staking/src/state.rs:218-235 | with tokens and no shares every positive deposit aborts |
| `SharePrices.LastShareBurntEarly` | programs/staking/src/state.rs:261-266 | the last share is burnt before the last token exactly when less than all tokens, worth more than all shares but one, are taken; only where shares are fewer than tokens |
| `SharePrices.StrandedTokens` | programs/staking/src/state.rs:261-266 | a withdrawal that does so, after which every positive deposit aborts |
| `SharePrices.FallbackRateDilutesDeposits` | programs/staking/src/state.rs:218-222 | at the fallback rate with shares left over, a deposit loses part of itself |
| `StakingRuns.StepKeepsVault` | programs/staking/src/state.rs:75-152 | the vault total stays the two sub-pools' and is covered by the vault's balance |
| `StakingRuns.StepKeepsShares` | programs/staking/src/state.rs:409-450 | the shares of each sub-pool stay the sums over all accounts |
| `StakingRuns.StepKeepsRecords` | programs/staking/src/instructions/unbond_stake.rs:89-133 | each account's unbonding shares stay the sum of its open records |
| `StakingRuns.ReachableIsAccounted` | programs/staking/src/state.rs:75-166 | every reachable state is fully accounted for: vault, shares of both sub-pools, and open records |
| `StakingOutcomes.StakingSucceedsExactly` | programs/staking/src/instructions/add_stake.rs:58-77 | staking succeeds exactly for an open account the updated pool can serve |
| `StakingOutcomes.UnbondingSucceedsExactly` | programs/staking/src/instructions/unbond_stake.rs:89-115 | unbonding succeeds exactly as the updated pool can, and records the shares issued for the tokens moved |
| `StakingOutcomes.OthersSucceedExactly` | programs/staking/src/state.rs:75-161 | when every other instruction succeeds |
| `StakingOutcomes.StepMovesTokens` | programs/staking/src/instructions/withdraw_unbonded.rs:63-103 | what every instruction takes into the vault or pays out of it |
| `StakingOutcomes.History` | programs/staking/src/state.rs:75-161 | a history of two stakers, a gift, an unbonding and its redemption |
| `StakingVotes.StepKeepsWeights` | programs/staking/src/state.rs:446-450 | the instructions that refresh no voter weight record change no bonded shares, so none that is there is ever out of date |
| `StakingVotes.RecordsComeAndGo` | programs/staking/src/instructions/close_stake_account.rs:13-27 | a record is opened and closed with its account, or else only with an account of another pool |
| `StakingVotes.WeightsFallShort` | programs/staking/src/state.rs:163-166 | the weights on record fall short of the maximum by exactly the bonded shares of accounts without a record |
| `StakingVotes.StepKeepsRecordsInUse` | programs/staking/src/instructions/close_stake_account.rs:19-27 | holdings are left without a record exactly when a record in use is closed with an account of another pool, and no instruction repairs that |
| `StakingVotes.WeightsSumToMaximumExactly` | programs/staking/src/instructions/close_stake_account.rs:13-27 | in every reachable state the voter weights on record sum to the maximum if and only if no account without a record holds bonded shares, that is, no record in use was closed; they never exceed it |
| `StakingVotes.StruckRecord` | programs/staking/src/instructions/close_stake_account.rs:13-27 | a history after which the weights on record sum to 0 of 50 |
| `StakingRuns.StepKeepsTenForOne` | programs/staking/src/state.rs:99-136 | until the owner withdraws there are ten unbonding shares per unbonding token |
| `StakingRuns.RecordPaysInFull` | programs/staking/src/instructions/withdraw_unbonded.rs:63-103 | in such a state every open record can be redeemed, in full |
| `StakingRuns.UnbondingPaysExactly` | programs/staking/src/state.rs:99-136 | redeeming pays exactly what the unbonding moved, whatever happened in between |
| `StakingRuns.UndilutedUntilWithdrawal` | programs/staking/src/state.rs:9-10 | the ten-for-one ratio holds in every state before the first owner's withdrawal |
| `StakingRuns.EveryUnbondingPaysExactly` | programs/staking/src/state.rs:99-136 | in every history from the empty pool, an unbonding before the owner's first withdrawal is paid out exactly, as long as none comes between |
| `StakingRuns.StepKeepsPrice` | programs/staking/src/state.rs:75-161 | no instruction but the owner's withdrawal lowers the price of a bonded share |
| `StakingRuns.HoldingNeverLosesValue` | programs/staking/src/state.rs:218-277 | over every run of others' instructions an untouched holding's redeemable value never falls and the pool stays funded |
| `StakingRuns.EveryHoldingKeepsValue` | programs/staking/src/state.rs:218-277 | the same from every point of every history that starts with the empty pool |
| `Idl.FindDefinedType` | tools/ctl/src/anchor_ix_parser.rs:412-423 | the search finds the reader's own definition first, then the first loaded one |
| `BorshLayouts.OwnDefinitionFirst` | tools/ctl/src/anchor_ix_parser.rs:412-416 | the first own definition of a name is used wherever there is one |
| `BorshLayouts.FirstLoadedDefinition` | tools/ctl/src/anchor_ix_parser.rs:418-422 | and else the first in the first loaded list that has one |
| `BorshParser.DepthDoesNotMatter` | tools/ctl/src/anchor_ix_parser.rs:328-410 | decoding has one outcome: depths that suffice agree |
| `BorshCursor.ParseDataValue` | tools/ctl/src/anchor_ix_parser.rs:328-410 | wherever decoding ends, the cursor returns the decoded value and stands after it, or returns the same error |
| `BorshCursor.ParseDataEnum` | tools/ctl/src/anchor_ix_parser.rs:384-407 | the same for an enum's index and fields |
| `BorshCursor.ParseDataSequence` | tools/ctl/src/anchor_ix_parser.rs:298-326 | fields and elements are decoded in order until one fails |
| `BorshRoundTrip.DecodeOfEncode` | tools/ctl/src/anchor_ix_parser.rs:298-410 | decoding an encoded value, cut to the widths the decoder reads, ends within the value's height, gives the value and leaves the tail |
| `BorshLayouts.UnsignedLayouts` | tools/ctl/src/anchor_ix_parser.rs:346-358 | every unsigned type up to 128 bits is read and written in 1, 2, 4, 8 or 16 bytes with its full range, and shorter data are an error |
| `BorshLayouts.SignedLayouts` | tools/ctl/src/anchor_ix_parser.rs:331-344 | the same for every signed type in two's complement |
| `BorshLayouts.BytesAreDigits` | tools/ctl/src/anchor_ix_parser.rs:331-358 | the bytes of a number are its digits to the base 256, the lowest first |
| `BorshLayouts.BoolLayout` | tools/ctl/src/anchor_ix_parser.rs:330 | a truth value is a byte of 0 or 1 and no other |
| `BorshLayouts.KeyLayout` | tools/ctl/src/anchor_ix_parser.rs:364 | a key is thirty-two bytes |
| `BorshLayouts.BlobLayout` | tools/ctl/src/anchor_ix_parser.rs:363-365 | bytes and strings are a 32-bit length and their bytes; a string must be valid |
| `BorshLayouts.OptionLayout` | tools/ctl/src/anchor_ix_parser.rs:366-371 | an option is a truth value and, if true, its content |
| `BorshLayouts.SequenceLayouts` | tools/ctl/src/anchor_ix_parser.rs:372-378 | an array is its elements, a vector a 32-bit length in front of them |
| `BorshLayouts.StructLayout` | tools/ctl/src/anchor_ix_parser.rs:379-382 | a struct is its fields in order under their names; a missing definition is an error |
| `BorshLayouts.EnumLayout` | tools/ctl/src/anchor_ix_parser.rs:384-407 | an enum is the index of a variant in one byte and its fields; an index beyond the variants is an error |
| `BorshRoundTrip.EncodeOfDecode` | tools/ctl/src/anchor_ix_parser.rs:298-410 | what decodes is well typed and re-encodes to exactly the bytes consumed |
| `BorshLayouts.DecodesExactlyEncodings` | tools/ctl/src/anchor_ix_parser.rs:298-410 | data decode exactly where they start with the encoding of a value of the type |
| `BorshRoundTrip.BorshRoundTripExactly` | tools/ctl/src/anchor_ix_parser.rs:298-410 | for all definitions with distinct variant names, decoding undoes the Borsh encoding, with any tail, if and only if the value holds no 256-bit integer |
| `BorshRoundTrip.WideIntegerIsCutShort` | tools/ctl/src/anchor_ix_parser.rs:344-358 | of every 256-bit integer, signed or not, the low sixteen bytes are read as a number of the same kind and the high sixteen left |
| `BorshRoundTrip.EveryNumberHasHalves` | tools/ctl/src/anchor_ix_parser.rs:344-358 | every number of twice a width is a low and a high half of that width |
| `BorshRoundTrip.PrefixDetermines` | tools/ctl/src/anchor_ix_parser.rs:317-410 | success consumes a prefix that alone determines the result |
| `IdlNesting.EndsExactlyIfAcyclic` | tools/ctl/src/anchor_ix_parser.rs:298-410 | decoding ends for every type and input if and only if no struct reaches itself in place behind members that take no bytes |
| `IdlNesting.LoopNeverEnds` | tools/ctl/src/anchor_ix_parser.rs:372-382 | a struct on such a loop exceeds every depth, whatever the data |
| `IdlNesting.LoopBehindEmptyArray` | tools/ctl/src/anchor_ix_parser.rs:372-382 | decoding a struct that holds itself behind an empty array never ends |
| `IdlNesting.ListBehindByte` | tools/ctl/src/anchor_ix_parser.rs:372-382 | decoding a struct that holds itself behind a byte always ends |
| `RegistryUpdate.FillEntry` | tools/jet-alt-registry-client/src/actions.rs:161-188 | one transaction extends a table by as many addresses as are left, fit its 255 places and the 28 of a transaction |
| `RegistryUpdate.AppendRound` | tools/jet-alt-registry-client/src/actions.rs:161-188 | a round that extends a table is a round of the packer and leaves fewer addresses |
| `RegistryUpdate.CreateRound` | tools/jet-alt-registry-client/src/actions.rs:190-211 | a round that creates a table is a round of the packer and makes a table eligible |
| `RegistryUpdate.AddToRegistry` | tools/jet-alt-registry-client/src/actions.rs:142-212 | the loop ends with nothing left, and its plan is a run of the packer that replays to the registry |
| `RegistryUpdate.PackingFills` | tools/jet-alt-registry-client/src/actions.rs:152-211 | every run of the packer keeps the tables within capacity, places what is no longer left once each, counts the tables needed, and replays |
| `LookupTables.FirstWithRoom` | tools/jet-alt-registry-client/src/actions.rs:155-159 | the table extended is the first with both tags and fewer than 255 addresses |
| `RegistryUpdate.FilledExactly` | tools/jet-alt-registry-client/src/actions.rs:142-212 | what is new in the tables is each wanted address exactly once, in doubly tagged tables within capacity; the tables created are ceil(max(0, n - spare) / 253), no other packing uses fewer, and the plan replays to the result |
| `RegistryUpdate.RemoveExisting` | tools/jet-alt-registry-client/src/actions.rs:72-87 | exactly the addresses already in a table tagged with their program are struck out |
| `RegistryUpdate.UpdateRegistry` | tools/jet-alt-registry-client/src/actions.rs:44-111 | the plan fills in just what no tagged table held for either program; all wanted addresses are covered afterwards, the plan replays to the registry, and where all was covered before nothing is planned |
| `RegistryUpdate.AppendsWhatIsMissing` | tools/jet-alt-registry-client/src/actions.rs:72-108 | an update appends exactly the missing addresses of both programs, as a multiset |
| `RegistryUpdate.UpdateTwice` | tools/jet-alt-registry-client/src/actions.rs:44-111 | a second update with the same wanted addresses has an empty plan |
| `LookupTables.NoPackingUsesFewer` | tools/jet-alt-registry-client/src/actions.rs:152-211 | no way of adding n addresses within capacity creates fewer tables |
| `LookupTables.ReplayInTwoParts` | tools/jet-alt-registry-client/src/actions.rs:89-108 | the two programs' plans replay one after the other |
| `InvocationMarks.ChangedMarks` | programs/margin/src/util.rs:132-145 | setting or clearing a height changes that mark and no other |
| `InvocationMarks.MarksDetermineByte` | programs/margin/src/util.rs:130-145 | the eight marks determine the byte |
| `InvocationMarks.Invocation.Start` | programs/margin/src/util.rs:85-87 | the current height is marked, or the call aborts above height seven |
| `InvocationMarks.Invocation.End` | programs/margin/src/util.rs:91-93 | the mark of the current height is cleared |
| `CallStacks.StepKeepsAgreement` | programs/margin/src/adapter.rs:181-187 | every call, adapter call and return keeps the marks of every account in agreement with the stack |
| `CallStacks.StepSucceedsExactly` | programs/margin/src/adapter.rs:158-190 | when calls, adapter calls and returns succeed and what they leave of the stack |
| `CallStacks.DirectlyInvokedIsExact` | programs/margin/src/util.rs:113-116 | in every reachable state the reading is true exactly when the caller is inside an adapter call through that account |
| `CallStacks.SameStackSameMarks` | programs/margin/src/adapter.rs:181-187 | a run that returns to the same stack has restored every account's byte |
| `CallStacks.Perform` | programs/margin/src/adapter.rs:181-187 | one call, bracketed or not, reads the truth throughout and restores the byte, and fails exactly when too deep |
| `CallStacks.Execute` | programs/margin/src/adapter.rs:158-190 | a whole call tree reads the truth at every point and restores the byte |

## Left out

- Pool prices (`calculate_prices`), oracle handling, PDA seeds, signer and flag checks other than the lending flag, events and serialization.
- Transfers into a margin pool's vault from outside its instructions; the pool does not count them.
- `close_loan`, `admin` and `configure` instructions of the margin pool: they move no value through the modelled operations.
- The unbonding period and the governance checks before unbonding: they only delay or refuse instructions.
- Margin accounts, positions and valuation, and what an adapter call returns.
- Floating-point types of the decoder; strings are byte sequences with the validity test as a parameter of the reader.
- Instruction discriminators, account lists and their names, IDL loading and display in the decoder.
- Definitions loaded for other programs are a sequence in the order the hash map happens to yield them.
- Sleeping, slots and RPC in the registry client: the address of the k-th new table is a parameter.
- Overflow of the call stack: a decoder that never ends is modelled as exceeding every depth.
- Other pools of the staking program, except that closing their accounts can take a voter weight record of this one.
- AddToRegistry: assumes that table addresses are distinct and that new ones are fresh, because they are account addresses derived from slots.
- FactorIsTaylor: compares with the Taylor polynomial; what the polynomial leaves out of the exponential function is not stated.
- DirectlyInvokedIsExact: holds for runtime height limits up to eight, because the marks have eight bits and heights above seven abort.
