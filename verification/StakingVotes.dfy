/**
 The voter weights that the staking program writes down for governance. Closing
 an account ties it to the record closed with it only by their owner, so an
 owner with accounts in two pools may close either with the other's record.
 */
module StakingVotes {
  import opened Wrappers
  import opened FixedPoint
  import opened Sums
  import opened StakingState
  import opened StakingRuns

  /** The voter weight records of a pool's accounts, and the pool's maximum voter weight record. */
  datatype Weights = Weights(voters: map<Id, nat>, maximum: nat)

  const NO_WEIGHTS: Weights := Weights(map[], 0)

  /** The pool with the records kept for it. */
  datatype Poll = Poll(world: World, weights: Weights)

  const EMPTY_POLL: Poll := Poll(EMPTY_WORLD, NO_WEIGHTS)

  datatype VoteStep =
    | Stakes(step: Step)           // an instruction; an account is closed with its own record
    | CloseKeepingRecord(id: Id)   // an account is closed with a record of another pool
    | Strike(id: Id)               // an account of another pool is closed with a record of this one

  /** Whether the records that the instruction names are there, or, for a new account, not yet there. */
  predicate RecordsFit(p: Poll, step: Step) {
    match step
    case OpenAccount(id) => id !in p.weights.voters
    case CloseAccount(id) => id in p.weights.voters
    case AddStake(id, _) => id in p.weights.voters
    case UnbondStake(id, _, _) => id in p.weights.voters
    case CancelUnbond(record) => record in p.world.records && p.world.records[record].owner in p.weights.voters
    case _ => true
  }

  /** The records that an instruction leaves: only those that can change bonded shares write any. */
  function Recorded(p: Poll, step: Step, world: World): Weights {
    var v := p.weights;
    match step
    case OpenAccount(id) => v.(voters := v.voters[id := AccountOf(world, id).bondedShares])
    case CloseAccount(id) => v.(voters := v.voters - {id})
    case AddStake(id, _) => Refreshed(v, world, id)
    case UnbondStake(id, _, _) => Refreshed(v, world, id)
    case CancelUnbond(r) => if r in p.world.records then Refreshed(v, world, p.world.records[r].owner) else v
    case _ => v
  }

  function Refreshed(v: Weights, world: World, id: Id): Weights {
    Weights(v.voters[id := AccountOf(world, id).bondedShares], world.pool.bonded.shares)
  }

  /** One instruction of this or another pool; one that aborts changes nothing. */
  function NextPoll(p: Poll, step: VoteStep): Poll {
    match step
    case Stakes(s) =>
      if RecordsFit(p, s) && Effect(p.world, s).Some?
      then Poll(Effect(p.world, s).value, Recorded(p, s, Effect(p.world, s).value))
      else p
    case CloseKeepingRecord(id) => p.(world := Next(p.world, CloseAccount(id)))
    case Strike(id) => p.(weights := p.weights.(voters := p.weights.voters - {id}))
  }

  function RunPoll(p: Poll, steps: seq<VoteStep>): Poll
    decreases |steps|
  {
    if steps == [] then p else RunPoll(NextPoll(p, steps[0]), steps[1..])
  }

  // -------------------------------------------------------- records in use

  function BondedOf(w: World, id: Id): nat { AccountOf(w, id).bondedShares }

  /** No record that is there is out of date; one left behind by a closed account counts nothing. */
  ghost predicate UpToDate(p: Poll) {
    p.weights.maximum == p.world.pool.bonded.shares &&
    forall id <- p.weights.voters :: p.weights.voters[id] == BondedOf(p.world, id)
  }

  /** The instructions that refresh no record leave all bonded shares alone. */
  lemma StepKeepsWeights(p: Poll, step: VoteStep)
    requires UpToDate(p)
    ensures UpToDate(NextPoll(p, step))
  {
    match step
    case Stakes(s) =>
      if RecordsFit(p, s) && Effect(p.world, s).Some? { BondedOfOthers(p.world, s); }
    case CloseKeepingRecord(id) =>
      if Effect(p.world, CloseAccount(id)).Some? { BondedOfOthers(p.world, CloseAccount(id)); }
    case Strike(_) =>
  }

  /** What an instruction leaves of bonded shares: those of all accounts but the one it works on. */
  lemma BondedOfOthers(w: World, step: Step)
    requires Effect(w, step).Some?
    ensures var w' := Effect(w, step).value;
            (forall id: Id :: Subject(w, step) != Some(id) ==> (id in w'.accounts <==> id in w.accounts)) &&
            (forall id: Id :: Subject(w, step) != Some(id) ==> BondedOf(w', id) == BondedOf(w, id)) &&
            (step.CloseAccount? ==> BondedOf(w, step.id) == 0 && step.id !in w'.accounts) &&
            (step.WithdrawUnbonded? ==> forall id: Id :: BondedOf(w', id) == BondedOf(w, id)) &&
            (Subject(w, step).None? || step.WithdrawUnbonded? ==> w'.accounts.Keys == w.accounts.Keys) &&
            (Subject(w, step).None? || step.WithdrawUnbonded? || step.OpenAccount? || step.CloseAccount? ==>
              w'.pool.bonded.shares == w.pool.bonded.shares)
  {
    StepMovesOneAccount(w, step);
    var w' := Effect(w, step).value;
    match Subject(w, step)
    case None =>
    case Some(id) =>
      forall k | k != id ensures (k in w'.accounts <==> k in w.accounts) && AccountOf(w', k) == AccountOf(w, k) {
        assert k in w.accounts <==> k in w.accounts - {id};
        assert k in w'.accounts <==> k in w'.accounts - {id};
        if k in w.accounts {
          assert w.accounts[k] == (w.accounts - {id})[k] && w'.accounts[k] == (w'.accounts - {id})[k];
        }
      }
  }

  /** A record is opened and closed with its account, or else only with an account of another pool. */
  lemma RecordsComeAndGo(p: Poll, step: VoteStep)
    ensures var before, after := p.weights.voters.Keys, NextPoll(p, step).weights.voters.Keys;
            var accounts := p.world.accounts;
            match step
            case Stakes(OpenAccount(id)) =>
              after == (if id !in accounts then before + {id} else before) &&
              (NextPoll(p, step) != p <==> id !in accounts && id !in before)
            case Stakes(CloseAccount(id)) =>
              after == if id in accounts && accounts[id] == Account(0, 0) then before - {id} else before
            case Stakes(_) => after == before
            case CloseKeepingRecord(_) => after == before
            case Strike(id) => after == before - {id} && NextPoll(p, step).world == p.world
    ensures match step
            case Stakes(CloseAccount(id)) =>
              id in p.world.accounts && p.world.accounts[id] == Account(0, 0) ==>
                (id !in NextPoll(p, step).world.accounts <==> id in p.weights.voters)
            case _ => true
    ensures step.CloseKeepingRecord? && step.id in p.world.accounts && p.world.accounts[step.id] == Account(0, 0) ==>
              step.id !in NextPoll(p, step).world.accounts
  {
    match step
    case Stakes(OpenAccount(id)) =>
      if id !in p.world.accounts && id !in p.weights.voters {
        assert id in NextPoll(p, step).world.accounts;
      }
    case _ =>
  }

  // ------------------------------------------------- when the weights add up

  /** The bonded shares of the accounts that have lost their record. */
  ghost function Unrecorded(p: Poll): map<Id, nat> {
    map id | id in p.world.accounts && id !in p.weights.voters :: p.world.accounts[id].bondedShares
  }

  /** The weights on record fall short of the maximum by exactly the bonded shares without a record. */
  lemma WeightsFallShort(p: Poll)
    requires UpToDate(p) && SharesAccounted(p.world)
    ensures p.weights.maximum == Sum(p.weights.voters) + Sum(Unrecorded(p))
  {
    var w, voters := p.world, p.weights.voters;
    var all := map id | id in w.accounts.Keys + voters.Keys :: BondedOf(w, id);
    SumInTwo(all, voters);
    assert all - voters.Keys == Unrecorded(p);
    SumInTwo(all, BondedShares(w));
    SumIsZero(all - BondedShares(w).Keys);
  }

  /** No account without a record holds bonded shares. */
  ghost predicate AllRecorded(p: Poll) {
    forall id <- p.world.accounts :: id !in p.weights.voters ==> p.world.accounts[id].bondedShares == 0
  }

  /** The step does not destroy the record of an account that holds bonded shares. */
  predicate Harmless(p: Poll, step: VoteStep) {
    step.Strike? && step.id in p.weights.voters ==> BondedOf(p.world, step.id) == 0
  }

  /**
   Only destroying a record in use leaves bonded shares without one, and nothing
   repairs that: without its record an account can neither stake nor unbond.
   */
  lemma StepKeepsRecordsInUse(p: Poll, step: VoteStep)
    requires UpToDate(p)
    ensures AllRecorded(NextPoll(p, step)) <==> AllRecorded(p) && Harmless(p, step)
  {
    var p' := NextPoll(p, step);
    match step
    case Stakes(s) =>
      if RecordsFit(p, s) && Effect(p.world, s).Some? { UnrecordedAreFrozen(p, s); }
    case CloseKeepingRecord(id) =>
      if Effect(p.world, CloseAccount(id)).Some? { BondedOfOthers(p.world, CloseAccount(id)); }
      forall k ensures BondedOf(p'.world, k) == BondedOf(p.world, k) {
      }
      SameHoldings(p, p');
    case Strike(id) =>
      if id !in p.weights.voters { assert p'.weights.voters == p.weights.voters; }
  }

  lemma SameHoldings(p: Poll, p': Poll)
    requires p'.weights.voters == p.weights.voters
    requires forall id: Id :: BondedOf(p'.world, id) == BondedOf(p.world, id)
    ensures AllRecorded(p') <==> AllRecorded(p)
  {
    forall id: Id ensures id in p.world.accounts && p.world.accounts[id].bondedShares > 0 <==>
                          id in p'.world.accounts && p'.world.accounts[id].bondedShares > 0 {
      assert BondedOf(p'.world, id) == BondedOf(p.world, id);
    }
  }

  /** An instruction changes neither which holdings have no record nor what they are. */
  lemma UnrecordedAreFrozen(p: Poll, step: Step)
    requires UpToDate(p) && RecordsFit(p, step) && Effect(p.world, step).Some?
    ensures var p' := NextPoll(p, Stakes(step));
            forall id: Id :: BondedOf(p.world, id) > 0 && id !in p.weights.voters <==>
                         BondedOf(p'.world, id) > 0 && id !in p'.weights.voters
    ensures AllRecorded(NextPoll(p, Stakes(step))) <==> AllRecorded(p)
  {
    var p' := NextPoll(p, Stakes(step));
    BondedOfOthers(p.world, step);
    assert forall q: Poll :: AllRecorded(q) <==> !exists id: Id :: BondedOf(q.world, id) > 0 && id !in q.weights.voters;
  }

  /** The books and the records of a poll. */
  ghost predicate InOrder(p: Poll) {
    Accounted(p.world) && UpToDate(p)
  }

  lemma StepKeepsOrder(p: Poll, step: VoteStep)
    requires InOrder(p)
    ensures InOrder(NextPoll(p, step))
  {
    StepKeepsWeights(p, step);
    match step
    case Stakes(s) => StepKeepsBooks(p.world, s);
    case CloseKeepingRecord(id) => StepKeepsBooks(p.world, CloseAccount(id));
    case Strike(_) =>
  }

  /** No step of the run destroys a record in use. */
  predicate AllHarmless(p: Poll, steps: seq<VoteStep>)
    decreases |steps|
  {
    steps != [] ==> Harmless(p, steps[0]) && AllHarmless(NextPoll(p, steps[0]), steps[1..])
  }

  lemma {:induction false} RunKeepsOrder(p: Poll, steps: seq<VoteStep>)
    requires InOrder(p)
    ensures InOrder(RunPoll(p, steps))
    ensures AllRecorded(RunPoll(p, steps)) <==> AllRecorded(p) && AllHarmless(p, steps)
    decreases |steps|
  {
    if steps != [] {
      StepKeepsOrder(p, steps[0]);
      StepKeepsRecordsInUse(p, steps[0]);
      RunKeepsOrder(NextPoll(p, steps[0]), steps[1..]);
    }
  }

  lemma NothingUnrecorded(p: Poll)
    ensures Sum(Unrecorded(p)) == 0 <==> AllRecorded(p)
  {
    SumIsZero(Unrecorded(p));
    forall id: Id | id in p.world.accounts && id !in p.weights.voters
      ensures id in Unrecorded(p) && Unrecorded(p)[id] == p.world.accounts[id].bondedShares
    {
    }
  }

  lemma EmptyPollInOrder()
    ensures InOrder(EMPTY_POLL) && AllRecorded(EMPTY_POLL)
  {
    EmptyIsAccounted();
  }

  /**
   In every reachable state the voter weights on record sum to the maximum on
   record if and only if no account that has lost its record holds bonded
   shares, that is, if and only if no record was destroyed while in use.
   */
  lemma WeightsSumToMaximumExactly(steps: seq<VoteStep>)
    ensures var p := RunPoll(EMPTY_POLL, steps);
            (Sum(p.weights.voters) == p.weights.maximum <==> AllRecorded(p)) &&
            (Sum(p.weights.voters) == p.weights.maximum <==> AllHarmless(EMPTY_POLL, steps)) &&
            Sum(p.weights.voters) <= p.weights.maximum
  {
    EmptyPollInOrder();
    RunKeepsOrder(EMPTY_POLL, steps);
    WeightsFallShort(RunPoll(EMPTY_POLL, steps));
    NothingUnrecorded(RunPoll(EMPTY_POLL, steps));
  }

  /** A deposit into an account of a pool whose vault holds nothing unaccounted for. */
  lemma StakeTakesEffect(w: World, id: Id, tokens: u64)
    requires id in w.accounts && w.balance == w.pool.vaultAmount
    requires AfterDeposit(w.pool, w.accounts[id], tokens).Some? && w.balance + tokens < U64_LIMIT
    ensures var (p, a, full) := AfterDeposit(w.pool, w.accounts[id], tokens).value;
            Effect(w, AddStake(id, tokens)) == Some(World(p, w.balance + tokens, w.accounts[id := a], w.records))
  {
    assert AfterVaultUpdate(w.pool, w.balance) == Some(w.pool);
  }

  lemma FirstDeposit(p: Stake, a: Account)
    requires p.bonded == SubPool(0, 0) && p.vaultAmount == 0 && a == Account(0, 0)
    ensures var after := AfterDeposit(p, a, 5);
            after.Some? && after.value.0.bonded == SubPool(5, 50) && after.value.1 == Account(50, 0)
  {
    assert Proportion(Down, 5, INIT_SHARE_SCALE, INIT_TOKEN_SCALE) == Some(50);
  }

  lemma Opened(id: Id)
    ensures var p := NextPoll(EMPTY_POLL, Stakes(OpenAccount(id)));
            p.world == EMPTY_WORLD.(accounts := map[id := Account(0, 0)]) && p.weights == Weights(map[id := 0], 0)
  {
  }

  lemma Staked(p: Poll, id: Id)
    requires p.world == EMPTY_WORLD.(accounts := map[id := Account(0, 0)]) && p.weights == Weights(map[id := 0], 0)
    ensures NextPoll(p, Stakes(AddStake(id, 5))).weights == Weights(map[id := 50], 50)
  {
    FirstDeposit(p.world.pool, Account(0, 0));
    StakeTakesEffect(p.world, id, 5);
    assert p.weights.voters[id := 50] == map[id := 50];
  }

  /** Five tokens are staked, then their record is closed together with an account of another pool. */
  lemma StruckRecord(id: Id)
    ensures var staked := NextPoll(NextPoll(EMPTY_POLL, Stakes(OpenAccount(id))), Stakes(AddStake(id, 5)));
            staked.weights == Weights(map[id := 50], 50) &&
            NextPoll(staked, Strike(id)).weights == Weights(map[], 50)
  {
    Opened(id);
    Staked(NextPoll(EMPTY_POLL, Stakes(OpenAccount(id))), id);
    assert map[id := 50] - {id} == map[];
  }
}
