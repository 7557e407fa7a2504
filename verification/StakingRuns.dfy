/**
 A stake pool with all of its users: many stake accounts and unbonding records
 behind one vault, and the program's instructions as steps of a state machine.
 */
module StakingRuns {
  import opened Wrappers
  import opened FixedPoint
  import opened Arithmetic
  import opened Sums
  import opened StakingState
  import opened SharePrices

  type Id = nat

  datatype Record = Record(owner: Id, shares: u64)

  /** The pool, its vault's actual token balance, and the accounts and open records. */
  datatype World = World(pool: Stake, balance: u64, accounts: map<Id, Account>, records: map<Id, Record>)

  const EMPTY_WORLD: World := World(Stake(0, SubPool(0, 0), SubPool(0, 0)), 0, map[], map[])

  datatype Step =
    | OpenAccount(id: Id)
    | CloseAccount(id: Id)
    | Transfer(tokens: u64)
    | AddStake(id: Id, tokens: u64)
    | UnbondStake(id: Id, record: Id, amount: Option<u64>)
    | CancelUnbond(record: Id)
    | WithdrawUnbonded(record: Id)
    | WithdrawBonded(taken: u64)

  /** The effect of an instruction, or None when it aborts. */
  function Effect(w: World, step: Step): Option<World> {
    match step
    case OpenAccount(id) =>
      if id in w.accounts then None else Some(w.(accounts := w.accounts[id := Account(0, 0)]))
    case CloseAccount(id) =>
      if id in w.accounts && w.accounts[id] == Account(0, 0) then Some(w.(accounts := w.accounts - {id})) else None
    case Transfer(tokens) =>
      var balance :- Fit64(w.balance + tokens);
      Some(w.(balance := balance))
    case AddStake(id, tokens) =>
      if id !in w.accounts then None
      else
        var p :- AfterVaultUpdate(w.pool, w.balance);
        var (p', a, full) :- AfterDeposit(p, w.accounts[id], tokens);
        var balance :- Fit64(w.balance + full.tokenAmount);
        Some(World(p', balance, w.accounts[id := a], w.records))
    case UnbondStake(id, record, amount) =>
      if id !in w.accounts || record in w.records then None
      else
        var p :- AfterVaultUpdate(w.pool, w.balance);
        var u := AfterUnbond(p, w.accounts[id], amount);
        if u.Err? then None
        else Some(World(u.value.pool, w.balance, w.accounts[id := u.value.account],
                        w.records[record := Record(id, u.value.recordShares)]))
    case CancelUnbond(record) =>
      if record !in w.records || w.records[record].owner !in w.accounts then None
      else
        var id := w.records[record].owner;
        var p :- AfterVaultUpdate(w.pool, w.balance);
        var (p', a, _) :- AfterRebond(p, w.accounts[id], w.records[record].shares);
        Some(World(p', w.balance, w.accounts[id := a], w.records - {record}))
    case WithdrawUnbonded(record) =>
      if record !in w.records || w.records[record].owner !in w.accounts then None
      else
        var id := w.records[record].owner;
        var p :- AfterVaultUpdate(w.pool, w.balance);
        var (p', a, full) :- AfterWithdrawUnbonded(p, w.accounts[id], w.records[record].shares);
        var balance :- Fit64(w.balance - full.tokenAmount);
        Some(World(p', balance, w.accounts[id := a], w.records - {record}))
    case WithdrawBonded(amount) =>
      var p :- AfterVaultUpdate(w.pool, w.balance);
      var p' :- AfterWithdrawBonded(p, amount);
      var balance :- Fit64(w.balance - amount);
      Some(w.(pool := p', balance := balance))
  }

  /** One instruction; one that aborts changes nothing. */
  function Next(w: World, step: Step): World {
    var e := Effect(w, step);
    if e.Some? then e.value else w
  }

  function Run(w: World, steps: seq<Step>): World
    decreases |steps|
  {
    if steps == [] then w else Run(Next(w, steps[0]), steps[1..])
  }

  // ------------------------------------------------------------ conservation

  ghost function BondedShares(w: World): map<Id, nat> {
    map id | id in w.accounts :: w.accounts[id].bondedShares
  }

  ghost function UnbondingShares(w: World): map<Id, nat> {
    map id | id in w.accounts :: w.accounts[id].unbondingShares
  }

  /** The shares of the open records of one account. */
  ghost function RecordShares(records: map<Id, Record>, owner: Id): map<Id, nat> {
    map r | r in records && records[r].owner == owner :: records[r].shares
  }

  /** The vault total is the two sub-pools', and the vault holds at least that. */
  ghost predicate VaultAccounted(w: World) {
    Backed(w.pool) && w.pool.vaultAmount <= w.balance
  }

  /** The shares of each sub-pool are those of all accounts together. */
  ghost predicate SharesAccounted(w: World) {
    w.pool.bonded.shares == Sum(BondedShares(w)) && w.pool.unbonding.shares == Sum(UnbondingShares(w))
  }

  function UnbondingOf(w: World, id: Id): nat {
    if id in w.accounts then w.accounts[id].unbondingShares else 0
  }

  /** Each account's unbonding shares are those of its open records. */
  ghost predicate RecordsAccounted(w: World) {
    forall id: Id :: UnbondingOf(w, id) == Sum(RecordShares(w.records, id))
  }

  ghost predicate Accounted(w: World) {
    VaultAccounted(w) && SharesAccounted(w) && RecordsAccounted(w)
  }

  lemma RecordAdded(records: map<Id, Record>, r: Id, rec: Record, owner: Id)
    requires r !in records
    ensures Sum(RecordShares(records[r := rec], owner)) ==
            Sum(RecordShares(records, owner)) + (if rec.owner == owner then rec.shares else 0)
  {
    if rec.owner == owner {
      assert RecordShares(records[r := rec], owner) == RecordShares(records, owner)[r := rec.shares];
      SumUpdate(RecordShares(records, owner), r, rec.shares);
    } else {
      assert RecordShares(records[r := rec], owner) == RecordShares(records, owner);
    }
  }

  lemma RecordRemoved(records: map<Id, Record>, r: Id, owner: Id)
    requires r in records
    ensures Sum(RecordShares(records, owner)) ==
            Sum(RecordShares(records - {r}, owner)) + (if records[r].owner == owner then records[r].shares else 0)
  {
    var rest := records - {r};
    assert records == rest[r := records[r]];
    RecordAdded(rest, r, records[r], owner);
  }

  /** Accepting the vault's balance never aborts, and credits the bonded stake. */
  lemma VaultUpdateSucceeds(w: World)
    requires VaultAccounted(w)
    ensures var b := w.pool.bonded;
            AfterVaultUpdate(w.pool, w.balance) ==
              Some(Stake(w.balance, SubPool(b.tokens + w.balance - w.pool.vaultAmount, b.shares), w.pool.unbonding))
  {
  }

  lemma UnbondKeepsBacking(p: Stake, a: Account, tokens: Option<u64>)
    requires Backed(p) && AfterUnbond(p, a, tokens).Ok?
    ensures var p' := AfterUnbond(p, a, tokens).value.pool; Backed(p') && p'.vaultAmount == p.vaultAmount
  {
  }

  lemma RebondKeepsBacking(p: Stake, a: Account, shares: u64)
    requires Backed(p) && AfterRebond(p, a, shares).Some?
    ensures var p' := AfterRebond(p, a, shares).value.0; Backed(p') && p'.vaultAmount == p.vaultAmount
  {
  }

  /** Every instruction keeps the vault's books. */
  lemma StepKeepsVault(w: World, step: Step)
    requires VaultAccounted(w)
    ensures VaultAccounted(Next(w, step))
  {
    VaultUpdateSucceeds(w);
    var p := AfterVaultUpdate(w.pool, w.balance).value;
    if Effect(w, step).Some? {
      match step
      case UnbondStake(id, _, amount) => UnbondKeepsBacking(p, w.accounts[id], amount);
      case CancelUnbond(r) => RebondKeepsBacking(p, w.accounts[w.records[r].owner], w.records[r].shares);
      case WithdrawBonded(amount) => WithdrawBondedExactly(p, amount);
      case _ =>
    }
  }

  /** The account an instruction works on, if it works on one. */
  function Subject(w: World, step: Step): Option<Id> {
    match step
    case OpenAccount(id) => Some(id)
    case CloseAccount(id) => Some(id)
    case AddStake(id, _) => Some(id)
    case UnbondStake(id, _, _) => Some(id)
    case CancelUnbond(record) => if record in w.records then Some(w.records[record].owner) else None
    case WithdrawUnbonded(record) => if record in w.records then Some(w.records[record].owner) else None
    case _ => None
  }

  function AccountOf(w: World, id: Id): Account {
    if id in w.accounts then w.accounts[id] else Account(0, 0)
  }

  /** The shares of both sub-pools change by what the account's do. */
  predicate MovesTogether(p: Stake, a: Account, p': Stake, a': Account) {
    p'.bonded.shares - p.bonded.shares == a'.bondedShares - a.bondedShares &&
    p'.unbonding.shares - p.unbonding.shares == a'.unbondingShares - a.unbondingShares
  }

  lemma DepositMoves(p: Stake, a: Account, tokens: u64)
    requires AfterDeposit(p, a, tokens).Some?
    ensures var r := AfterDeposit(p, a, tokens).value; MovesTogether(p, a, r.0, r.1)
  {
  }

  lemma UnbondMoves(p: Stake, a: Account, tokens: Option<u64>)
    requires AfterUnbond(p, a, tokens).Ok?
    ensures var u := AfterUnbond(p, a, tokens).value; MovesTogether(p, a, u.pool, u.account)
  {
  }

  lemma WithdrawUnbondedMoves(p: Stake, a: Account, shares: u64)
    requires AfterWithdrawUnbonded(p, a, shares).Some?
    ensures var r := AfterWithdrawUnbonded(p, a, shares).value; MovesTogether(p, a, r.0, r.1)
  {
  }

  lemma RebondMoves(p: Stake, a: Account, shares: u64)
    requires AfterRebond(p, a, shares).Some?
    ensures var r := AfterRebond(p, a, shares).value; MovesTogether(p, a, r.0, r.1)
  {
    var (p1, a1, full) := AfterWithdrawUnbonded(p, a, shares).value;
    WithdrawUnbondedMoves(p, a, shares);
    DepositMoves(p1, a1, full.tokenAmount);
  }

  /** A sub-pool's shares change by what one account's do, and no other account changes. */
  lemma StepMovesOneAccount(w: World, step: Step)
    requires Effect(w, step).Some?
    ensures var w' := Effect(w, step).value;
            match Subject(w, step)
            case None => w'.accounts == w.accounts && w'.pool.bonded.shares == w.pool.bonded.shares &&
                         w'.pool.unbonding.shares == w.pool.unbonding.shares
            case Some(id) =>
              w'.accounts - {id} == w.accounts - {id} &&
              MovesTogether(w.pool, AccountOf(w, id), w'.pool, AccountOf(w', id))
  {
    var p := AfterVaultUpdate(w.pool, w.balance);
    match step
    case AddStake(id, tokens) => DepositMoves(p.value, w.accounts[id], tokens);
    case UnbondStake(id, _, amount) => UnbondMoves(p.value, w.accounts[id], amount);
    case CancelUnbond(r) => RebondMoves(p.value, AccountOf(w, w.records[r].owner), w.records[r].shares);
    case WithdrawUnbonded(r) => WithdrawUnbondedMoves(p.value, AccountOf(w, w.records[r].owner), w.records[r].shares);
    case _ =>
  }

  /** Every instruction keeps the shares of the sub-pools the sums over all accounts. */
  lemma StepKeepsShares(w: World, step: Step)
    requires SharesAccounted(w)
    ensures SharesAccounted(Next(w, step))
  {
    if Effect(w, step).Some? {
      var w' := Effect(w, step).value;
      StepMovesOneAccount(w, step);
      match Subject(w, step)
      case None =>
        assert BondedShares(w') == BondedShares(w) && UnbondingShares(w') == UnbondingShares(w);
      case Some(id) =>
        SumsOverOthers(w, id);
        SumsOverOthers(w', id);
        assert BondedShares(w') - {id} == BondedShares(w) - {id} by { OtherAccounts(w, w', id); }
        assert UnbondingShares(w') - {id} == UnbondingShares(w) - {id} by { OtherAccounts(w, w', id); }
    }
  }

  lemma OtherAccounts(w: World, w': World, id: Id)
    requires w'.accounts - {id} == w.accounts - {id}
    ensures BondedShares(w') - {id} == BondedShares(w) - {id}
    ensures UnbondingShares(w') - {id} == UnbondingShares(w) - {id}
  {
    assert BondedShares(w) - {id} == (map k | k in w.accounts - {id} :: (w.accounts - {id})[k].bondedShares);
    assert BondedShares(w') - {id} == (map k | k in w'.accounts - {id} :: (w'.accounts - {id})[k].bondedShares);
    assert UnbondingShares(w) - {id} == (map k | k in w.accounts - {id} :: (w.accounts - {id})[k].unbondingShares);
    assert UnbondingShares(w') - {id} == (map k | k in w'.accounts - {id} :: (w'.accounts - {id})[k].unbondingShares);
  }

  lemma SumsOverOthers(w: World, id: Id)
    ensures Sum(BondedShares(w)) == AccountOf(w, id).bondedShares + Sum(BondedShares(w) - {id})
    ensures Sum(UnbondingShares(w)) == AccountOf(w, id).unbondingShares + Sum(UnbondingShares(w) - {id})
  {
    if id in w.accounts {
      SumWithout(BondedShares(w), id);
      SumWithout(UnbondingShares(w), id);
    } else {
      assert BondedShares(w) - {id} == BondedShares(w);
      assert UnbondingShares(w) - {id} == UnbondingShares(w);
    }
  }

  /** Every instruction keeps each account's unbonding shares in step with its records. */
  lemma StepKeepsRecords(w: World, step: Step)
    requires RecordsAccounted(w)
    ensures RecordsAccounted(Next(w, step))
  {
    if Effect(w, step).Some? {
      var w' := Effect(w, step).value;
      StepMovesRecords(w, step);
      forall id: Id
        ensures UnbondingOf(w', id) == Sum(RecordShares(w'.records, id))
      {
        assert UnbondingOf(w, id) == Sum(RecordShares(w.records, id));
        match step
        case UnbondStake(_, r, _) => RecordAdded(w.records, r, w'.records[r], id);
        case CancelUnbond(r) => RecordRemoved(w.records, r, id);
        case WithdrawUnbonded(r) => RecordRemoved(w.records, r, id);
        case _ =>
      }
    }
  }

  /** Records come and go with the unbonding shares of their owners. */
  lemma StepMovesRecords(w: World, step: Step)
    requires Effect(w, step).Some?
    ensures var w' := Effect(w, step).value;
            match step
            case UnbondStake(id, r, _) =>
              r !in w.records && r in w'.records && w'.records == w.records[r := w'.records[r]] &&
              w'.records[r].owner == id &&
              forall k: Id :: UnbondingOf(w', k) == UnbondingOf(w, k) + if k == id then w'.records[r].shares else 0
            case CancelUnbond(r) =>
              r in w.records && w'.records == w.records - {r} &&
              forall k: Id :: UnbondingOf(w', k) ==
                              UnbondingOf(w, k) - if k == w.records[r].owner then w.records[r].shares else 0
            case WithdrawUnbonded(r) =>
              r in w.records && w'.records == w.records - {r} &&
              forall k: Id :: UnbondingOf(w', k) ==
                              UnbondingOf(w, k) - if k == w.records[r].owner then w.records[r].shares else 0
            case _ =>
              w'.records == w.records && forall k: Id :: UnbondingOf(w', k) == UnbondingOf(w, k)
  {
  }

  lemma StepKeepsBooks(w: World, step: Step)
    requires Accounted(w)
    ensures Accounted(Next(w, step))
  {
    StepKeepsVault(w, step);
    StepKeepsShares(w, step);
    StepKeepsRecords(w, step);
  }

  lemma {:induction false} RunKeepsBooks(w: World, steps: seq<Step>)
    requires Accounted(w)
    ensures Accounted(Run(w, steps))
    decreases |steps|
  {
    if steps != [] {
      StepKeepsBooks(w, steps[0]);
      RunKeepsBooks(Next(w, steps[0]), steps[1..]);
    }
  }

  /**
   Every reachable state is fully accounted for: the vault by the two sub-pools,
   the shares by the accounts, and the accounts' unbonding shares by records.
   */
  lemma ReachableIsAccounted(steps: seq<Step>)
    ensures Accounted(Run(EMPTY_WORLD, steps))
  {
    EmptyIsAccounted();
    RunKeepsBooks(EMPTY_WORLD, steps);
  }

  lemma EmptyIsAccounted()
    ensures Accounted(EMPTY_WORLD)
  {
    assert BondedShares(EMPTY_WORLD) == map[] && UnbondingShares(EMPTY_WORLD) == map[];
    forall id: Id
      ensures UnbondingOf(EMPTY_WORLD, id) == Sum(RecordShares(EMPTY_WORLD.records, id))
    {
      assert RecordShares(EMPTY_WORLD.records, id) == map[];
    }
  }

  // -------------------------------------------------- unbonding pays in full

  /** Ten unbonding shares for every unbonding token. */
  predicate Undiluted(w: World) {
    w.pool.unbonding.shares == 10 * w.pool.unbonding.tokens
  }

  lemma TenForOneIn(s: SubPool, tokens: u64)
    requires AddTokens(s, tokens).Some? && s.shares == 10 * s.tokens
    ensures var (s', full) := AddTokens(s, tokens).value;
            full.shareAmount == 10 * tokens && s' == SubPool(s.tokens + tokens, s.shares + 10 * tokens)
  {
    var f := PoolAmount(s);
    ProportionIsRounded(Down, tokens, f.allShares, f.allTokens);
    assert tokens * f.allShares == (10 * tokens) * f.allTokens;
    DivOfMultiple(10 * tokens, f.allTokens);
  }

  lemma TenForOneOut(s: SubPool, shares: u64)
    requires s.shares == 10 * s.tokens
    ensures TakeShares(s, shares).Some? ==>
              var (s', full) := TakeShares(s, shares).value;
              full.shareAmount == shares == 10 * full.tokenAmount + shares % 10 &&
              s' == SubPool(s.tokens - full.tokenAmount, s.shares - shares)
    ensures shares % 10 == 0 && shares <= s.shares ==> TakeShares(s, shares).Some?
  {
    var f := PoolAmount(s);
    ProportionIsRounded(Down, shares, f.allTokens, f.allShares);
    DivCancel(shares, 10, f.allTokens);
    assert shares * f.allTokens / f.allShares == shares / 10;
    NoIntermediateOverflow(shares, f.allTokens, f.allShares);
  }

  /** Every record holds a whole number of tokens' worth of shares. */
  predicate WholeRecords(w: World) {
    forall r <- w.records :: w.records[r].shares % 10 == 0
  }

  /** Until the owner withdraws, every instruction keeps ten shares per unbonding token. */
  lemma StepKeepsTenForOne(w: World, step: Step)
    requires Undiluted(w) && WholeRecords(w) && !step.WithdrawBonded?
    ensures Undiluted(Next(w, step)) && WholeRecords(Next(w, step))
  {
    match step
    case UnbondStake(id, record, amount) =>
      if Effect(w, step).Some? { UnbondKeepsTenForOne(w, id, record, amount); }
    case CancelUnbond(record) => if record in w.records { RedeemKeepsTenForOne(w, record); }
    case WithdrawUnbonded(record) => if record in w.records { RedeemKeepsTenForOne(w, record); }
    case _ => OthersKeepUnbonding(w, step);
  }

  lemma OthersKeepUnbonding(w: World, step: Step)
    requires step.OpenAccount? || step.CloseAccount? || step.Transfer? || step.AddStake?
    ensures Next(w, step).pool.unbonding == w.pool.unbonding && Next(w, step).records == w.records
  {
  }

  lemma RedeemKeepsTenForOne(w: World, record: Id)
    requires Undiluted(w) && record in w.records && w.records[record].shares % 10 == 0
    ensures var w' := Next(w, CancelUnbond(record)); Undiluted(w') && w'.records.Items <= w.records.Items
    ensures var w' := Next(w, WithdrawUnbonded(record)); Undiluted(w') && w'.records.Items <= w.records.Items
  {
    TenForOneOut(w.pool.unbonding, w.records[record].shares);
  }

  lemma UnbondKeepsTenForOne(w: World, id: Id, record: Id, amount: Option<u64>)
    requires Effect(w, UnbondStake(id, record, amount)).Some? && Undiluted(w)
    ensures var w' := Effect(w, UnbondStake(id, record, amount)).value;
            var moved := w'.pool.unbonding.tokens - w.pool.unbonding.tokens;
            Undiluted(w') && moved >= 0 && w'.records == w.records[record := Record(id, 10 * moved)]
  {
    var u := AfterUnbond(AfterVaultUpdate(w.pool, w.balance).value, w.accounts[id], amount).value;
    TenForOneIn(w.pool.unbonding, u.full.tokenAmount);
  }

  /** In an undiluted state every open record that holds something can be redeemed, in full. */
  lemma RecordPaysInFull(w: World, record: Id, tokens: nat)
    requires Accounted(w) && Undiluted(w) && tokens > 0
    requires record in w.records && w.records[record].shares == 10 * tokens
    ensures Effect(w, WithdrawUnbonded(record)).Some?
    ensures var w' := Effect(w, WithdrawUnbonded(record)).value;
            w.balance - w'.balance == tokens == w.pool.unbonding.tokens - w'.pool.unbonding.tokens
  {
    var rec := w.records[record];
    var p := AfterVaultUpdate(w.pool, w.balance).value;
    RecordIsBacked(w, record);
    VaultUpdateSucceeds(w);
    SharesPayInFull(p, w.accounts[rec.owner], tokens);
    assert Effect(w, WithdrawUnbonded(record)).Some?;
  }

  lemma SharesPayInFull(p: Stake, a: Account, tokens: nat)
    requires Backed(p) && p.unbonding.shares == 10 * p.unbonding.tokens
    requires 10 * tokens <= a.unbondingShares <= p.unbonding.shares
    ensures var paid := AfterWithdrawUnbonded(p, a, 10 * tokens);
            paid.Some? && paid.value.2.tokenAmount == tokens <= p.vaultAmount &&
            paid.value.0.unbonding.tokens == p.unbonding.tokens - tokens
  {
    TenForOneOut(p.unbonding, 10 * tokens);
  }

  /** The shares of a record are among its owner's, and those among the sub-pool's. */
  lemma RecordIsBacked(w: World, record: Id)
    requires Accounted(w) && record in w.records && w.records[record].shares > 0
    ensures var rec := w.records[record];
            rec.owner in w.accounts &&
            rec.shares <= w.accounts[rec.owner].unbondingShares <= w.pool.unbonding.shares
  {
    var rec := w.records[record];
    assert UnbondingOf(w, rec.owner) == Sum(RecordShares(w.records, rec.owner));
    SumIsAtLeast(RecordShares(w.records, rec.owner), record);
    SumIsAtLeast(UnbondingShares(w), rec.owner);
  }

  /** None of the steps dilutes the stake or uses up the record. */
  predicate Leaves(record: Id, steps: seq<Step>) {
    forall i :: 0 <= i < |steps| ==>
      !steps[i].WithdrawBonded? && steps[i] != CancelUnbond(record) && steps[i] != WithdrawUnbonded(record)
  }

  lemma {:induction false} RunKeepsRecord(w: World, record: Id, steps: seq<Step>)
    requires Accounted(w) && Undiluted(w) && WholeRecords(w) && record in w.records && Leaves(record, steps)
    ensures var w' := Run(w, steps);
            Accounted(w') && Undiluted(w') && record in w'.records && w'.records[record] == w.records[record]
    decreases |steps|
  {
    if steps != [] {
      StepKeepsBooks(w, steps[0]);
      StepKeepsTenForOne(w, steps[0]);
      RunKeepsRecord(Next(w, steps[0]), record, steps[1..]);
    }
  }

  /**
   Until the owner withdraws, redeeming an unbonding record succeeds and pays
   exactly the tokens its unbonding moved, whatever anyone deposits, transfers,
   unbonds, cancels or redeems in between.
   */
  lemma UnbondingPaysExactly(w: World, id: Id, record: Id, amount: Option<u64>, steps: seq<Step>)
    requires Accounted(w) && Undiluted(w) && WholeRecords(w)
    requires Effect(w, UnbondStake(id, record, amount)).Some? && Leaves(record, steps)
    ensures var w1 := Effect(w, UnbondStake(id, record, amount)).value;
            var moved := w1.pool.unbonding.tokens - w.pool.unbonding.tokens;
            var w2 := Run(w1, steps);
            0 <= moved &&
            (moved > 0 ==>
              Effect(w2, WithdrawUnbonded(record)).Some? &&
              w2.balance - Effect(w2, WithdrawUnbonded(record)).value.balance == moved)
  {
    var step := UnbondStake(id, record, amount);
    var w1 := Effect(w, step).value;
    var moved := w1.pool.unbonding.tokens - w.pool.unbonding.tokens;
    UnbondKeepsTenForOne(w, id, record, amount);
    StepKeepsBooks(w, step);
    StepKeepsTenForOne(w, step);
    RunKeepsRecord(w1, record, steps);
    if moved > 0 { RecordPaysInFull(Run(w1, steps), record, moved); }
  }

  /** No step of the run is an owner's withdrawal. */
  predicate NoneWithdrawn(steps: seq<Step>) {
    forall i :: 0 <= i < |steps| ==> !steps[i].WithdrawBonded?
  }

  /** Whatever is reached before the owner's first withdrawal is undiluted. */
  lemma {:induction false} UndilutedUntilWithdrawal(w: World, steps: seq<Step>)
    requires Undiluted(w) && WholeRecords(w) && NoneWithdrawn(steps)
    ensures Undiluted(Run(w, steps)) && WholeRecords(Run(w, steps))
    decreases |steps|
  {
    if steps != [] {
      StepKeepsTenForOne(w, steps[0]);
      UndilutedUntilWithdrawal(Next(w, steps[0]), steps[1..]);
    }
  }

  /**
   So in every history that starts with an empty pool, an unbonding before the
   owner's first withdrawal is paid out exactly, as long as there is none until
   it is redeemed.
   */
  lemma EveryUnbondingPaysExactly(before: seq<Step>, id: Id, record: Id, amount: Option<u64>, steps: seq<Step>)
    requires NoneWithdrawn(before) && Leaves(record, steps)
    requires Effect(Run(EMPTY_WORLD, before), UnbondStake(id, record, amount)).Some?
    ensures var w := Run(EMPTY_WORLD, before);
            var w1 := Effect(w, UnbondStake(id, record, amount)).value;
            var moved := w1.pool.unbonding.tokens - w.pool.unbonding.tokens;
            var w2 := Run(w1, steps);
            moved > 0 ==>
              Effect(w2, WithdrawUnbonded(record)).Some? &&
              w2.balance - Effect(w2, WithdrawUnbonded(record)).value.balance == moved
  {
    ReachableIsAccounted(before);
    UndilutedUntilWithdrawal(EMPTY_WORLD, before);
    UnbondingPaysExactly(Run(EMPTY_WORLD, before), id, record, amount, steps);
  }

  // --------------------------------------------------- a holding keeps its value

  /** The instruction neither dilutes the stake nor works on the bonded shares of the account. */
  predicate ByOthers(w: World, step: Step, id: Id) {
    && !step.WithdrawBonded?
    && (step.AddStake? || step.UnbondStake? || step.CancelUnbond? ==> Subject(w, step) != Some(id))
  }

  lemma VaultUpdateKeepsPrice(p: Stake, balance: u64)
    requires AfterVaultUpdate(p, balance).Some?
    ensures PriceKept(p.bonded, AfterVaultUpdate(p, balance).value.bonded)
  {
    MulMono(p.bonded.tokens, AfterVaultUpdate(p, balance).value.bonded.tokens, p.bonded.shares);
  }

  lemma DepositKeepsPrice(p: Stake, a: Account, tokens: u64)
    requires AfterDeposit(p, a, tokens).Some? && p.bonded.tokens > 0
    ensures PriceKept(p.bonded, AfterDeposit(p, a, tokens).value.0.bonded)
    ensures AfterDeposit(p, a, tokens).value.0.bonded.tokens > 0
  {
    AddTokensKeepsPrice(p.bonded, tokens);
  }

  /** What an instruction of others does to the price of bonded shares. */
  lemma StepKeepsPrice(w: World, step: Step)
    requires w.pool.bonded.tokens > 0 && !step.WithdrawBonded?
    ensures var w' := Next(w, step);
            PriceKept(w.pool.bonded, w'.pool.bonded) && (w'.pool.bonded.shares > 0 ==> w'.pool.bonded.tokens > 0)
  {
    if Effect(w, step).Some? {
      var w' := Effect(w, step).value;
      var p := AfterVaultUpdate(w.pool, w.balance);
      if p.Some? { VaultUpdateKeepsPrice(w.pool, w.balance); }
      match step
      case AddStake(id, tokens) =>
        DepositKeepsPrice(p.value, w.accounts[id], tokens);
        PriceKeptTransitive(w.pool.bonded, p.value.bonded, w'.pool.bonded);
      case UnbondStake(id, record, amount) =>
        UnbondTakes(p.value, w.accounts[id], amount);
        TakingKeepsPrice(p.value.bonded, AfterUnbond(p.value, w.accounts[id], amount).value.full);
        PriceKeptTransitive(w.pool.bonded, p.value.bonded, w'.pool.bonded);
      case CancelUnbond(record) =>
        var a := w.accounts[w.records[record].owner];
        var (p1, a1, full) := AfterWithdrawUnbonded(p.value, a, w.records[record].shares).value;
        DepositKeepsPrice(p1, a1, full.tokenAmount);
        PriceKeptTransitive(w.pool.bonded, p.value.bonded, w'.pool.bonded);
      case _ =>
    }
  }

  /** A holding of bonded shares in a pool whose shares are worth something. */
  predicate Holds(w: World, id: Id, shares: nat) {
    id in w.accounts && w.accounts[id].bondedShares == shares > 0 &&
    w.pool.bonded.tokens > 0 && shares <= w.pool.bonded.shares
  }

  lemma StepKeepsHolding(w: World, step: Step, id: Id, shares: nat)
    requires Accounted(w) && Holds(w, id, shares) && ByOthers(w, step, id)
    ensures var w' := Next(w, step);
            Holds(w', id, shares) &&
            Redeemable(w.pool.bonded, shares) <= Redeemable(w'.pool.bonded, shares)
  {
    var w' := Next(w, step);
    StepKeepsBooks(w, step);
    StepKeepsPrice(w, step);
    assert id in w'.accounts && w'.accounts[id].bondedShares == shares;
    SumIsAtLeast(BondedShares(w'), id);
    PriceCarriesValue(w.pool.bonded, w'.pool.bonded, shares);
  }

  /** Every step of the run is by others. */
  predicate AllByOthers(w: World, steps: seq<Step>, id: Id)
    decreases |steps|
  {
    steps != [] ==> ByOthers(w, steps[0], id) && AllByOthers(Next(w, steps[0]), steps[1..], id)
  }

  /**
   Over every run of other users' instructions, transfers and vault updates
   without an owner's withdrawal, an untouched holding keeps its shares, the
   pool stays funded, and what the holding redeems for never falls.
   */
  lemma {:induction false} HoldingNeverLosesValue(w: World, steps: seq<Step>, id: Id, shares: nat)
    requires Accounted(w) && Holds(w, id, shares) && AllByOthers(w, steps, id)
    ensures var w' := Run(w, steps);
            Holds(w', id, shares) &&
            Redeemable(w.pool.bonded, shares) <= Redeemable(w'.pool.bonded, shares)
    decreases |steps|
  {
    if steps != [] {
      StepKeepsHolding(w, steps[0], id, shares);
      StepKeepsBooks(w, steps[0]);
      HoldingNeverLosesValue(Next(w, steps[0]), steps[1..], id, shares);
    }
  }

  /** So in every history that starts with an empty pool, from any point at which an account holds funded shares. */
  lemma EveryHoldingKeepsValue(before: seq<Step>, steps: seq<Step>, id: Id, shares: nat)
    requires Holds(Run(EMPTY_WORLD, before), id, shares) && AllByOthers(Run(EMPTY_WORLD, before), steps, id)
    ensures var w := Run(EMPTY_WORLD, before);
            Holds(Run(w, steps), id, shares) &&
            Redeemable(w.pool.bonded, shares) <= Redeemable(Run(w, steps).pool.bonded, shares)
  {
    ReachableIsAccounted(before);
    HoldingNeverLosesValue(Run(EMPTY_WORLD, before), steps, id, shares);
  }
}
