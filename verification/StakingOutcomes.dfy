/** When exactly the operations of a stake pool succeed, and what they then leave, in closed form. */
module StakingOutcomes {
  import opened Wrappers
  import opened FixedPoint
  import opened Arithmetic
  import opened StakingState
  import opened SharePrices
  import opened StakingRuns

  // ---------------------------------------------------------------- sub-pools

  /** The proportion, rounded down or up. */
  function Share(rounding: Rounding, part: nat, all: nat, whole: nat): nat
    requires whole > 0
  {
    if rounding == Up then CeilOf(part * all, whole) else FloorOf(part * all, whole)
  }

  /** A conversion fails only for an empty pool, a result that does not fit, and a result of nothing for something. */
  lemma ProportionSucceedsExactly(rounding: Rounding, part: u64, all: u64, whole: u64)
    ensures Proportion(rounding, part, all, whole) ==
            if whole > 0 && Share(rounding, part, all, whole) < 0xffff_ffff_ffff_ffff &&
               (Share(rounding, part, all, whole) > 0 <==> part > 0)
            then Some(Share(rounding, part, all, whole)) else None
  {
    if whole > 0 {
      NoIntermediateOverflow(part, all, whole);
      ShareIsQuotient(rounding, part, all, whole);
    }
  }

  lemma ShareIsQuotient(rounding: Rounding, part: nat, all: nat, whole: nat)
    requires whole > 0
    ensures Share(rounding, part, all, whole) ==
            ((if rounding == Up && part > 0 then whole - 1 else 0) + part * all) / whole
  {
    if part == 0 {
      assert part * all == 0;
      DivUnique(whole - 1, whole, 0);
      DivUnique(0, whole, 0);
    }
  }

  /** Shares for tokens that are put in, at ten shares a token where the sub-pool has no tokens. */
  function Issued(s: SubPool, tokens: nat): nat {
    if s.tokens == 0 then 10 * tokens else FloorOf(tokens * s.shares, s.tokens)
  }

  /** A deposit into a sub-pool fails only if it would issue no share, or if something does not fit. */
  predicate CanAdd(s: SubPool, tokens: u64) {
    && (Issued(s, tokens) > 0 <==> tokens > 0)
    && Issued(s, tokens) < 0xffff_ffff_ffff_ffff
    && s.shares + Issued(s, tokens) < U64_LIMIT
    && s.tokens + tokens < U64_LIMIT
  }

  lemma AddTokensSucceedsExactly(s: SubPool, tokens: u64)
    ensures AddTokens(s, tokens).Some? <==> CanAdd(s, tokens)
    ensures AddTokens(s, tokens).Some? ==>
              var (s', full) := AddTokens(s, tokens).value;
              s'.tokens == s.tokens + tokens && s'.shares == s.shares + Issued(s, tokens) &&
              full.tokenAmount == tokens && full.shareAmount == Issued(s, tokens)
  {
    var f := PoolAmount(s);
    ProportionSucceedsExactly(Down, tokens, f.allShares, f.allTokens);
    if s.tokens == 0 { InitialRate(tokens); }
  }

  lemma InitialRate(tokens: nat)
    ensures tokens * 10_000_000_000 / 1_000_000_000 == 10 * tokens
  {
    DivUnique(tokens * 10_000_000_000, 1_000_000_000, 10 * tokens);
  }

  /** In a funded sub-pool with at least as many shares as tokens only overflow can stop a deposit. */
  lemma FundedPoolTakesDeposits(s: SubPool, tokens: u64)
    requires 0 < s.tokens <= s.shares
    requires s.shares + FloorOf(tokens * s.shares, s.tokens) < 0xffff_ffff_ffff_ffff && s.tokens + tokens < U64_LIMIT
    ensures AddTokens(s, tokens).Some?
  {
    AddTokensSucceedsExactly(s, tokens);
    MulMono(s.tokens, s.shares, tokens);
    DivGalois(tokens * s.shares, s.tokens, tokens);
    DivMono(0, tokens * s.shares, s.tokens);
    if tokens == 0 { DivUnique(0, s.tokens, 0); }
  }

  /** Taking shares out of a funded sub-pool fails only if they are worth no token, or are not all there. */
  lemma TakeSharesSucceedsExactly(s: SubPool, shares: u64)
    requires s.tokens > 0
    ensures TakeShares(s, shares).Some? <==>
            0 < s.shares && shares <= s.shares && FloorOf(shares * s.tokens, s.shares) < 0xffff_ffff_ffff_ffff &&
            (shares > 0 ==> s.shares <= shares * s.tokens)
    ensures TakeShares(s, shares).Some? ==>
              var (s', full) := TakeShares(s, shares).value;
              full.shareAmount == shares && full.tokenAmount == FloorOf(shares * s.tokens, s.shares) &&
              s'.shares == s.shares - shares && s'.tokens == s.tokens - full.tokenAmount
  {
    ProportionSucceedsExactly(Down, shares, s.tokens, s.shares);
    if s.shares > 0 {
      DivGalois(shares * s.tokens, s.shares, 1);
      if shares <= s.shares { PartOfAll(shares, s.tokens, s.shares); }
    }
  }

  lemma PartOfAll(part: nat, all: nat, whole: nat)
    requires part <= whole && whole > 0
    ensures FloorOf(part * all, whole) <= all && CeilOf(part * all, whole) <= all
  {
    MulMono(part, whole, all);
    DivMono(part * all, all * whole, whole);
    DivOfMultiple(all, whole);
    CeilGalois(part * all, whole, all);
  }

  /** Taking tokens out fails only if they are not all there, nor the shares they cost. */
  lemma TakeTokensSucceedsExactly(s: SubPool, tokens: u64)
    requires s.tokens > 0
    ensures TakeTokens(s, tokens).Some? <==>
            tokens <= s.tokens && (tokens > 0 ==> 0 < s.shares) &&
            CeilOf(tokens * s.shares, s.tokens) < 0xffff_ffff_ffff_ffff
    ensures TakeTokens(s, tokens).Some? ==>
              var (s', full) := TakeTokens(s, tokens).value;
              full.tokenAmount == tokens && full.shareAmount == CeilOf(tokens * s.shares, s.tokens) &&
              s'.tokens == s.tokens - tokens && s'.shares == s.shares - full.shareAmount
  {
    ProportionSucceedsExactly(Up, tokens, s.shares, s.tokens);
    CeilIsPositive(tokens, s.shares, s.tokens);
    if tokens <= s.tokens { PartOfAll(tokens, s.shares, s.tokens); }
  }

  lemma CeilIsPositive(part: nat, all: nat, whole: nat)
    requires whole > 0
    ensures CeilOf(part * all, whole) > 0 <==> part > 0 && all > 0
  {
    CeilGalois(part * all, whole, 0);
    if part > 0 && all > 0 { MulMono(1, part, all); }
  }

  // --------------------------------------------------------------- stake pool

  /** A stake account can take a deposit of tokens into the bonded stake. */
  predicate CanDeposit(p: Stake, a: Account, tokens: u64) {
    && CanAdd(p.bonded, tokens)
    && p.vaultAmount + tokens < U64_LIMIT
    && a.bondedShares + Issued(p.bonded, tokens) < U64_LIMIT
  }

  lemma DepositSucceedsExactly(p: Stake, a: Account, tokens: u64)
    ensures AfterDeposit(p, a, tokens).Some? <==> CanDeposit(p, a, tokens)
    ensures AfterDeposit(p, a, tokens).Some? ==>
              var (p', a', full) := AfterDeposit(p, a, tokens).value;
              full.tokenAmount == tokens && p'.vaultAmount == p.vaultAmount + tokens &&
              p'.bonded.tokens == p.bonded.tokens + tokens &&
              p'.bonded.shares == p.bonded.shares + Issued(p.bonded, tokens) && p'.unbonding == p.unbonding &&
              a'.bondedShares == a.bondedShares + Issued(p.bonded, tokens) && a'.unbondingShares == a.unbondingShares
  {
    AddTokensSucceedsExactly(p.bonded, tokens);
  }

  /** The tokens that an unbonding of some tokens, or else of all the account's shares, moves. */
  function Moved(p: Stake, a: Account, tokens: Option<u64>): nat
    requires tokens.None? ==> p.bonded.shares > 0
  {
    match tokens
    case Some(n) => n
    case None => FloorOf(a.bondedShares * p.bonded.tokens, p.bonded.shares)
  }

  /** The bonded shares it burns. */
  function Burnt(p: Stake, a: Account, tokens: Option<u64>): nat
    requires p.bonded.tokens > 0
  {
    match tokens
    case Some(n) => CeilOf(n * p.bonded.shares, p.bonded.tokens)
    case None => a.bondedShares
  }

  /** The bonded sub-pool can give up what the unbonding asks for. */
  predicate CanTake(p: Stake, a: Account, tokens: Option<u64>)
    requires p.bonded.tokens > 0
  {
    match tokens
    case Some(n) =>
      n <= p.bonded.tokens && (n > 0 ==> 0 < p.bonded.shares) && Burnt(p, a, tokens) < 0xffff_ffff_ffff_ffff
    case None =>
      0 < p.bonded.shares && a.bondedShares <= p.bonded.shares &&
      Moved(p, a, tokens) < 0xffff_ffff_ffff_ffff &&
      (a.bondedShares > 0 ==> p.bonded.shares <= a.bondedShares * p.bonded.tokens)
  }

  function Taken(p: Stake, a: Account, tokens: Option<u64>): Option<(SubPool, FullAmount)> {
    match tokens
    case Some(n) => TakeTokens(p.bonded, n)
    case None => TakeShares(p.bonded, a.bondedShares)
  }

  lemma BondedGivesExactly(p: Stake, a: Account, tokens: Option<u64>)
    requires p.bonded.tokens > 0
    ensures var taken := Taken(p, a, tokens);
            (taken.Some? <==> CanTake(p, a, tokens)) &&
            (taken.Some? ==>
              taken.value.1.tokenAmount == Moved(p, a, tokens) && taken.value.1.shareAmount == Burnt(p, a, tokens) &&
              taken.value.0.tokens == p.bonded.tokens - Moved(p, a, tokens) &&
              taken.value.0.shares == p.bonded.shares - Burnt(p, a, tokens))
  {
    match tokens
    case Some(n) => TakeTokensSucceedsExactly(p.bonded, n);
    case None => TakeSharesSucceedsExactly(p.bonded, a.bondedShares);
  }

  /**
   An unbonding moves exactly the tokens asked for, burns the shares they cost
   and records those issued for them; it fails if a sub-pool cannot serve it, or
   for want of stake if only the account's shares do not cover it.
   */
  lemma UnbondSucceedsExactly(p: Stake, a: Account, tokens: Option<u64>)
    requires p.bonded.tokens > 0
    ensures AfterUnbond(p, a, tokens).Ok? <==>
            CanTake(p, a, tokens) && CanAdd(p.unbonding, Moved(p, a, tokens)) &&
            Burnt(p, a, tokens) <= a.bondedShares &&
            a.unbondingShares + Issued(p.unbonding, Moved(p, a, tokens)) < U64_LIMIT
    ensures AfterUnbond(p, a, tokens) == Err(InsufficientStake) <==>
            CanTake(p, a, tokens) && CanAdd(p.unbonding, Moved(p, a, tokens)) && Burnt(p, a, tokens) > a.bondedShares
    ensures AfterUnbond(p, a, tokens).Ok? ==>
              var u := AfterUnbond(p, a, tokens).value;
              var moved, burnt := Moved(p, a, tokens), Burnt(p, a, tokens);
              u.full.tokenAmount == moved && u.full.shareAmount == burnt &&
              u.recordShares == Issued(p.unbonding, moved) && u.pool.vaultAmount == p.vaultAmount &&
              u.pool.bonded.tokens == p.bonded.tokens - moved && u.pool.bonded.shares == p.bonded.shares - burnt &&
              u.pool.unbonding.tokens == p.unbonding.tokens + moved &&
              u.pool.unbonding.shares == p.unbonding.shares + u.recordShares &&
              u.account.bondedShares == a.bondedShares - burnt &&
              u.account.unbondingShares == a.unbondingShares + u.recordShares
  {
    BondedGivesExactly(p, a, tokens);
    if CanTake(p, a, tokens) { AddTokensSucceedsExactly(p.unbonding, Moved(p, a, tokens)); }
  }

  /** The record's shares can be redeemed from the unbonding sub-pool. */
  predicate CanRedeem(p: Stake, a: Account, shares: u64) {
    && 0 < p.unbonding.shares && shares <= p.unbonding.shares
    && FloorOf(shares * p.unbonding.tokens, p.unbonding.shares) < 0xffff_ffff_ffff_ffff
    && (shares > 0 ==> p.unbonding.shares <= shares * p.unbonding.tokens)
    && shares <= a.unbondingShares
    && FloorOf(shares * p.unbonding.tokens, p.unbonding.shares) <= p.vaultAmount
  }

  lemma RedemptionSucceedsExactly(p: Stake, a: Account, shares: u64)
    requires p.unbonding.tokens > 0
    ensures AfterWithdrawUnbonded(p, a, shares).Some? <==> CanRedeem(p, a, shares)
    ensures AfterWithdrawUnbonded(p, a, shares).Some? ==>
              var (p', a', full) := AfterWithdrawUnbonded(p, a, shares).value;
              var paid := FloorOf(shares * p.unbonding.tokens, p.unbonding.shares);
              full.tokenAmount == paid && p'.vaultAmount == p.vaultAmount - paid && p'.bonded == p.bonded &&
              p'.unbonding.tokens == p.unbonding.tokens - paid && p'.unbonding.shares == p.unbonding.shares - shares &&
              a'.bondedShares == a.bondedShares && a'.unbondingShares == a.unbondingShares - shares
  {
    TakeSharesSucceedsExactly(p.unbonding, shares);
  }

  /** Cancelling is a redemption whose tokens are deposited again. */
  lemma RebondSucceedsExactly(p: Stake, a: Account, shares: u64)
    requires p.unbonding.tokens > 0
    ensures AfterRebond(p, a, shares).Some? <==>
            CanRedeem(p, a, shares) &&
            var paid := FloorOf(shares * p.unbonding.tokens, p.unbonding.shares);
            CanAdd(p.bonded, paid) && a.bondedShares + Issued(p.bonded, paid) < U64_LIMIT
    ensures AfterRebond(p, a, shares).Some? ==>
              var (p', a', full) := AfterRebond(p, a, shares).value;
              var paid := FloorOf(shares * p.unbonding.tokens, p.unbonding.shares);
              full.tokenAmount == paid && p'.vaultAmount == p.vaultAmount &&
              p'.bonded.tokens == p.bonded.tokens + paid &&
              p'.bonded.shares == p.bonded.shares + Issued(p.bonded, paid) &&
              p'.unbonding.tokens == p.unbonding.tokens - paid && p'.unbonding.shares == p.unbonding.shares - shares &&
              a'.bondedShares == a.bondedShares + Issued(p.bonded, paid) &&
              a'.unbondingShares == a.unbondingShares - shares
  {
    RedemptionSucceedsExactly(p, a, shares);
    var first := AfterWithdrawUnbonded(p, a, shares);
    if first.Some? { DepositSucceedsExactly(first.value.0, first.value.1, first.value.2.tokenAmount); }
  }

  // ------------------------------------------------------------- instructions

  /** The pool once it has taken what its vault holds beyond its count into the bonded stake. */
  function Updated(w: World): Stake
    requires VaultAccounted(w)
  {
    var b := w.pool.bonded;
    Stake(w.balance, SubPool(b.tokens + w.balance - w.pool.vaultAmount, b.shares), w.pool.unbonding)
  }

  /** What an instruction takes into the vault, or pays out of it. */
  lemma StepMovesTokens(w: World, step: Step)
    requires VaultAccounted(w) && Effect(w, step).Some?
    ensures var change := Effect(w, step).value.balance - w.balance;
            match step
            case Transfer(tokens) => change == tokens
            case AddStake(_, tokens) => change == tokens
            case WithdrawBonded(tokens) => change == 0 - tokens
            case WithdrawUnbonded(r) =>
              r in w.records &&
              (w.pool.unbonding.tokens > 0 ==>
                w.pool.unbonding.shares > 0 &&
                change == 0 - FloorOf(w.records[r].shares * w.pool.unbonding.tokens, w.pool.unbonding.shares))
            case _ => change == 0
  {
    VaultUpdateSucceeds(w);
    match step
    case AddStake(id, tokens) => DepositSucceedsExactly(Updated(w), w.accounts[id], tokens);
    case WithdrawUnbonded(r) =>
      if w.pool.unbonding.tokens > 0 {
        RedemptionSucceedsExactly(Updated(w), w.accounts[w.records[r].owner], w.records[r].shares);
      }
    case _ =>
  }

  /** Staking succeeds exactly for an open account that the updated pool can serve, and issues the shares' price. */
  lemma StakingSucceedsExactly(w: World, id: Id, tokens: u64)
    requires VaultAccounted(w)
    ensures Effect(w, AddStake(id, tokens)).Some? <==>
            id in w.accounts && CanDeposit(Updated(w), w.accounts[id], tokens)
    ensures Effect(w, AddStake(id, tokens)).Some? ==>
              var a' := AccountOf(Effect(w, AddStake(id, tokens)).value, id);
              a'.bondedShares == AccountOf(w, id).bondedShares + Issued(Updated(w).bonded, tokens)
  {
    VaultUpdateSucceeds(w);
    if id in w.accounts { DepositSucceedsExactly(Updated(w), w.accounts[id], tokens); }
  }

  /** Unbonding from a funded pool succeeds exactly as the pool's own operation does, into a new record. */
  lemma UnbondingSucceedsExactly(w: World, id: Id, record: Id, amount: Option<u64>)
    requires VaultAccounted(w) && Updated(w).bonded.tokens > 0
    ensures Effect(w, UnbondStake(id, record, amount)).Some? <==>
            id in w.accounts && record !in w.records && AfterUnbond(Updated(w), w.accounts[id], amount).Ok?
    ensures Effect(w, UnbondStake(id, record, amount)).Some? ==>
              var w' := Effect(w, UnbondStake(id, record, amount)).value;
              (amount.None? ==> Updated(w).bonded.shares > 0) &&
              var moved := Moved(Updated(w), w.accounts[id], amount);
              w'.records == w.records[record := Record(id, w'.records[record].shares)] &&
              w'.records[record].shares == Issued(w.pool.unbonding, moved) &&
              w'.pool.unbonding.tokens == w.pool.unbonding.tokens + moved
  {
    VaultUpdateSucceeds(w);
    if id in w.accounts { UnbondSucceedsExactly(Updated(w), w.accounts[id], amount); }
  }

  /** The other instructions succeed exactly as the operations behind them do on the updated pool. */
  lemma OthersSucceedExactly(w: World, step: Step)
    requires VaultAccounted(w) && w.pool.unbonding.tokens > 0
    ensures var p := Updated(w);
            match step
            case OpenAccount(id) => Effect(w, step).Some? <==> id !in w.accounts
            case CloseAccount(id) => Effect(w, step).Some? <==> id in w.accounts && w.accounts[id] == Account(0, 0)
            case Transfer(tokens) => Effect(w, step).Some? <==> w.balance + tokens < U64_LIMIT
            case CancelUnbond(r) =>
              Effect(w, step).Some? <==>
              r in w.records && w.records[r].owner in w.accounts &&
              AfterRebond(p, w.accounts[w.records[r].owner], w.records[r].shares).Some?
            case WithdrawUnbonded(r) =>
              Effect(w, step).Some? <==>
              r in w.records && w.records[r].owner in w.accounts &&
              CanRedeem(p, w.accounts[w.records[r].owner], w.records[r].shares)
            case WithdrawBonded(taken) => Effect(w, step).Some? <==> 0 < w.balance && taken <= w.balance
            case _ => true
  {
    VaultUpdateSucceeds(w);
    match step
    case WithdrawUnbonded(r) =>
      if r in w.records && w.records[r].owner in w.accounts {
        RedemptionSucceedsExactly(Updated(w), w.accounts[w.records[r].owner], w.records[r].shares);
      }
    case WithdrawBonded(taken) => WithdrawBondedExactly(Updated(w), taken);
    case _ =>
  }

  // ----------------------------------------------------------------- a history

  lemma RunOne(w: World, step: Step, rest: seq<Step>)
    ensures Run(w, [step] + rest) == Run(Next(w, step), rest)
  {
    assert ([step] + rest)[1..] == rest;
  }

  /** A deposit into a pool whose vault holds nothing beyond its count. */
  lemma StakeIs(w: World, id: Id, tokens: u64, issued: u64)
    requires Backed(w.pool) && w.balance == w.pool.vaultAmount && id in w.accounts
    requires CanDeposit(w.pool, w.accounts[id], tokens) && issued == Issued(w.pool.bonded, tokens)
    ensures var b := w.pool.bonded;
            Next(w, AddStake(id, tokens)) ==
              World(Stake(w.balance + tokens, SubPool(b.tokens + tokens, b.shares + issued), w.pool.unbonding),
                    w.balance + tokens,
                    w.accounts[id := w.accounts[id].(bondedShares := w.accounts[id].bondedShares + issued)], w.records)
  {
    assert AfterVaultUpdate(w.pool, w.balance) == Some(w.pool);
    DepositSucceedsExactly(w.pool, w.accounts[id], tokens);
  }

  /** The first staker. */
  lemma FirstStaker(w: World)
    requires w == EMPTY_WORLD
    ensures Next(Next(w, OpenAccount(1)), AddStake(1, 100)) ==
            World(Stake(100, SubPool(100, 1_000), SubPool(0, 0)), 100, map[1 := Account(1_000, 0)], map[])
  {
    var begun := Next(w, OpenAccount(1));
    assert begun == World(w.pool, 0, map[1 := Account(0, 0)], map[]);
    StakeIs(begun, 1, 100, 1_000);
    assert begun.accounts[1 := Account(1_000, 0)] == map[1 := Account(1_000, 0)];
  }

  /** The second staker pays the price of the first one's shares. */
  lemma SecondStaker(w: World)
    requires w == World(Stake(100, SubPool(100, 1_000), SubPool(0, 0)), 100, map[1 := Account(1_000, 0)], map[])
    ensures Next(Next(w, OpenAccount(2)), AddStake(2, 50)) ==
            World(Stake(150, SubPool(150, 1_500), SubPool(0, 0)), 150,
                  map[1 := Account(1_000, 0), 2 := Account(500, 0)], map[])
  {
    var begun := Next(w, OpenAccount(2));
    assert begun == w.(accounts := map[1 := Account(1_000, 0), 2 := Account(0, 0)]);
    DivUnique(50 * 1_000, 100, 500);
    StakeIs(begun, 2, 50, 500);
    assert begun.accounts[2 := Account(500, 0)] == map[1 := Account(1_000, 0), 2 := Account(500, 0)];
  }

  /** A gift of 15 tokens raises the price: 11 tokens now cost 100 shares. */
  lemma GiftAndUnbonding(w: World)
    requires w == World(Stake(150, SubPool(150, 1_500), SubPool(0, 0)), 150,
                        map[1 := Account(1_000, 0), 2 := Account(500, 0)], map[])
    ensures Next(Next(w, Transfer(15)), UnbondStake(1, 7, Some(11))) ==
            World(Stake(165, SubPool(154, 1_400), SubPool(11, 110)), 165,
                  map[1 := Account(900, 110), 2 := Account(500, 0)], map[7 := Record(1, 110)])
  {
    var given := Next(w, Transfer(15));
    assert given == w.(balance := 165);
    var p := Stake(165, SubPool(165, 1_500), SubPool(0, 0));
    assert AfterVaultUpdate(given.pool, given.balance) == Some(p);
    UnbondOfEleven(p);
    assert given.accounts[1 := Account(900, 110)] == map[1 := Account(900, 110), 2 := Account(500, 0)];
    assert given.records[7 := Record(1, 110)] == map[7 := Record(1, 110)];
  }

  lemma UnbondOfEleven(p: Stake)
    requires p == Stake(165, SubPool(165, 1_500), SubPool(0, 0))
    ensures var u := AfterUnbond(p, Account(1_000, 0), Some(11));
            u.Ok? && u.value.pool == Stake(165, SubPool(154, 1_400), SubPool(11, 110)) &&
            u.value.account == Account(900, 110) && u.value.recordShares == 110
  {
    CeilGalois(11 * 1_500, 165, 100);
    CeilGalois(11 * 1_500, 165, 99);
    UnbondSucceedsExactly(p, Account(1_000, 0), Some(11));
  }

  /** The record pays the eleven tokens. */
  lemma Redeemed(w: World)
    requires w == World(Stake(165, SubPool(154, 1_400), SubPool(11, 110)), 165,
                        map[1 := Account(900, 110), 2 := Account(500, 0)], map[7 := Record(1, 110)])
    ensures Next(w, WithdrawUnbonded(7)) ==
            World(Stake(154, SubPool(154, 1_400), SubPool(0, 0)), 154,
                  map[1 := Account(900, 0), 2 := Account(500, 0)], map[])
  {
    assert AfterVaultUpdate(w.pool, w.balance) == Some(w.pool);
    DivUnique(110 * 11, 110, 11);
    RedemptionSucceedsExactly(w.pool, Account(900, 110), 110);
    assert w.accounts[1 := Account(900, 0)] == map[1 := Account(900, 0), 2 := Account(500, 0)];
    assert w.records - {7} == map[];
  }

  /** Two stakers, a gift to the vault, and an unbonding that is redeemed. */
  lemma History()
    ensures Run(EMPTY_WORLD, [OpenAccount(1)] + ([AddStake(1, 100)] + ([OpenAccount(2)] + ([AddStake(2, 50)] +
                             ([Transfer(15)] + ([UnbondStake(1, 7, Some(11))] + ([WithdrawUnbonded(7)] + []))))))) ==
            World(Stake(154, SubPool(154, 1_400), SubPool(0, 0)), 154,
                  map[1 := Account(900, 0), 2 := Account(500, 0)], map[])
  {
    var w1 := Next(EMPTY_WORLD, OpenAccount(1));
    var w2 := Next(w1, AddStake(1, 100));
    var w3 := Next(w2, OpenAccount(2));
    var w4 := Next(w3, AddStake(2, 50));
    var w5 := Next(w4, Transfer(15));
    var w6 := Next(w5, UnbondStake(1, 7, Some(11)));
    FirstStaker(EMPTY_WORLD);
    SecondStaker(w2);
    GiftAndUnbonding(w4);
    Redeemed(w6);
    var s7 := [WithdrawUnbonded(7)] + [];
    var s6 := [UnbondStake(1, 7, Some(11))] + s7;
    var s5 := [Transfer(15)] + s6;
    var s4 := [AddStake(2, 50)] + s5;
    var s3 := [OpenAccount(2)] + s4;
    RunOne(EMPTY_WORLD, OpenAccount(1), [AddStake(1, 100)] + s3);
    RunOne(w1, AddStake(1, 100), s3);
    RunOne(w2, OpenAccount(2), s4);
    RunOne(w3, AddStake(2, 50), s5);
    RunOne(w4, Transfer(15), s6);
    RunOne(w5, UnbondStake(1, 7, Some(11)), s7);
    RunOne(w6, WithdrawUnbonded(7), []);
  }
}
