/**
 The accounting of a stake pool as functions of its state: two sub-pools of
 tokens shared out by shares, one for bonded and one for unbonding stake.
 */
module StakingState {
  import opened Wrappers
  import opened FixedPoint

  const U64_MAX: nat := U64_LIMIT - 1
  const U128_LIMIT: nat := 0x1_0000_0000_0000_0000_0000_0000_0000_0000

  const INIT_TOKEN_SCALE: u64 := 1_000_000_000
  const INIT_SHARE_SCALE: u64 := 10_000_000_000

  datatype Rounding = Up | Down

  /** An exchange of tokens for shares at the rate of a whole sub-pool. */
  datatype FullAmount = FullAmount(tokenAmount: u64, shareAmount: u64, allShares: u64, allTokens: u64)

  datatype SubPool = SubPool(tokens: u64, shares: u64)
  datatype Stake = Stake(vaultAmount: u64, bonded: SubPool, unbonding: SubPool)

  /** The vault total is the two sub-pools'. */
  predicate Backed(p: Stake) {
    p.vaultAmount == p.bonded.tokens + p.unbonding.tokens
  }

  datatype Account = Account(bondedShares: u64, unbondingShares: u64)
  datatype Error = Panic | InsufficientStake

  function Fit128(n: int): Option<nat> {
    if 0 <= n < U128_LIMIT then Some(n) else None
  }

  /** part * all / whole in 128 bits, rounded as told, if it fits 64 bits and is zero only for zero. */
  function Proportion(rounding: Rounding, part: u64, all: u64, whole: u64): Option<u64> {
    if whole == 0 then None
    else
      var roundAmount := if rounding == Up && part > 0 then whole - 1 else 0;
      var product :- Fit128(part * all);
      var total :- Fit128(roundAmount + product);
      var result := total / whole;
      if result < U64_MAX && (result > 0 <==> part > 0) then Fit64(result) else None
  }

  function WithTokens(f: FullAmount, rounding: Rounding, tokens: u64): Option<FullAmount> {
    var shares :- Proportion(rounding, tokens, f.allShares, f.allTokens);
    Some(f.(tokenAmount := tokens, shareAmount := shares))
  }

  function WithShares(f: FullAmount, rounding: Rounding, shares: u64): Option<FullAmount> {
    var tokens :- Proportion(rounding, shares, f.allTokens, f.allShares);
    Some(f.(tokenAmount := tokens, shareAmount := shares))
  }

  // ---------------------------------------------------------------- sub-pools

  /** The exchange rate; a pool without tokens falls back to the initial one. */
  function PoolAmount(s: SubPool): FullAmount {
    if s.tokens == 0 then FullAmount(0, 0, INIT_SHARE_SCALE, INIT_TOKEN_SCALE)
    else FullAmount(0, 0, s.shares, s.tokens)
  }

  function AddTokens(s: SubPool, tokens: u64): Option<(SubPool, FullAmount)> {
    var full :- WithTokens(PoolAmount(s), Down, tokens);
    var newShares :- Fit64(s.shares + full.shareAmount);
    var newTokens :- Fit64(s.tokens + full.tokenAmount);
    Some((SubPool(newTokens, newShares), full))
  }

  function Remove(s: SubPool, full: FullAmount): Option<SubPool> {
    var newShares :- Fit64(s.shares - full.shareAmount);
    var newTokens :- Fit64(s.tokens - full.tokenAmount);
    Some(SubPool(newTokens, newShares))
  }

  function TakeShares(s: SubPool, shares: u64): Option<(SubPool, FullAmount)> {
    var full :- WithShares(PoolAmount(s), Down, shares);
    var s' :- Remove(s, full);
    Some((s', full))
  }

  function TakeTokens(s: SubPool, tokens: u64): Option<(SubPool, FullAmount)> {
    var full :- WithTokens(PoolAmount(s), Up, tokens);
    var s' :- Remove(s, full);
    Some((s', full))
  }

  function Donated(s: SubPool, tokens: u64): Option<SubPool> {
    var newTokens :- Fit64(s.tokens + tokens);
    Some(s.(tokens := newTokens))
  }

  function Diluted(s: SubPool, tokens: u64): Option<SubPool> {
    var newTokens :- Fit64(s.tokens - tokens);
    Some(s.(tokens := newTokens))
  }

  // --------------------------------------------------------------- stake pool

  function AfterVaultUpdate(p: Stake, vaultAmount: u64): Option<Stake> {
    var gift :- Fit64(vaultAmount - p.vaultAmount);
    var bonded :- Donated(p.bonded, gift);
    Some(p.(bonded := bonded, vaultAmount := vaultAmount))
  }

  function AfterDeposit(p: Stake, a: Account, tokens: u64): Option<(Stake, Account, FullAmount)> {
    var (bonded, full) :- AddTokens(p.bonded, tokens);
    var vault :- Fit64(p.vaultAmount + full.tokenAmount);
    var shares :- Fit64(a.bondedShares + full.shareAmount);
    Some((p.(bonded := bonded, vaultAmount := vault), a.(bondedShares := shares), full))
  }

  /** What unbonding makes of the pool and the account, and the shares noted on the unbonding record. */
  datatype Unbonded = Unbonded(pool: Stake, account: Account, recordShares: u64, full: FullAmount)

  function AfterUnbond(p: Stake, a: Account, tokens: Option<u64>): Result<Unbonded, Error> {
    var (bonded, full) :- OkOr(
      match tokens
      case Some(n) => TakeTokens(p.bonded, n)
      case None => TakeShares(p.bonded, a.bondedShares),
      Panic);
    var (unbonding, issued) :- OkOr(AddTokens(p.unbonding, full.tokenAmount), Panic);
    if a.bondedShares < full.shareAmount then Err(InsufficientStake)
    else
      var unbondingShares :- OkOr(Fit64(a.unbondingShares + issued.shareAmount), Panic);
      Ok(Unbonded(p.(bonded := bonded, unbonding := unbonding),
                  Account(a.bondedShares - full.shareAmount, unbondingShares), issued.shareAmount, full))
  }

  function AfterWithdrawUnbonded(p: Stake, a: Account, recordShares: u64): Option<(Stake, Account, FullAmount)> {
    var (unbonding, full) :- TakeShares(p.unbonding, recordShares);
    var shares :- Fit64(a.unbondingShares - full.shareAmount);
    var vault :- Fit64(p.vaultAmount - full.tokenAmount);
    Some((p.(unbonding := unbonding, vaultAmount := vault), a.(unbondingShares := shares), full))
  }

  function AfterRebond(p: Stake, a: Account, recordShares: u64): Option<(Stake, Account, FullAmount)> {
    var (p1, a1, full) :- AfterWithdrawUnbonded(p, a, recordShares);
    var (p2, a2, _) :- AfterDeposit(p1, a1, full.tokenAmount);
    Some((p2, a2, full))
  }

  function AfterWithdrawBonded(p: Stake, amount: u64): Option<Stake> {
    var product :- Fit128(amount * p.bonded.tokens);
    if p.vaultAmount == 0 then None
    else
      var fromBonded :- Fit64(product / p.vaultAmount);
      var fromUnbonding :- Fit64(amount - fromBonded);
      var bonded :- Diluted(p.bonded, fromBonded);
      var unbonding :- Diluted(p.unbonding, fromUnbonding);
      var vault :- Fit64(p.vaultAmount - amount);
      Some(Stake(vault, bonded, unbonding))
  }
}
