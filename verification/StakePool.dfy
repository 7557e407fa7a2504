/**
 Stake pools, stake accounts and unbonding records, updated in place. An
 operation that fails leaves everything as it was, because the failed
 transaction is rolled back.
 */
module StakePoolAccounts {
  import opened Wrappers
  import opened FixedPoint
  import opened StakingState

  class SharedTokenPool {
    var tokens: u64
    var shares: u64

    function State(): SubPool
      reads this
    {
      SubPool(tokens, shares)
    }

    constructor ()
      ensures State() == SubPool(0, 0)
    {
      tokens, shares := 0, 0;
    }

    /** Add tokens and mint shares in proportion. */
    method Deposit(amount: u64) returns (r: Option<FullAmount>)
      modifies this
      ensures match AddTokens(old(State()), amount)
              case Some((s, full)) => r == Some(full) && State() == s
              case None => r == None && State() == old(State())
    {
      r := WithTokens(PoolAmount(State()), Down, amount);
      if r.None? { return; }
      var newShares := Fit64(shares + r.value.shareAmount);
      var newTokens := Fit64(tokens + r.value.tokenAmount);
      if newShares.None? || newTokens.None? { return None; }
      shares, tokens := newShares.value, newTokens.value;
    }

    /** Burn shares and remove tokens in proportion. */
    method Withdraw(amount: u64) returns (r: Option<FullAmount>)
      modifies this
      ensures match TakeShares(old(State()), amount)
              case Some((s, full)) => r == Some(full) && State() == s
              case None => r == None && State() == old(State())
    {
      r := WithShares(PoolAmount(State()), Down, amount);
      if r.None? { return; }
      var ok := WithdrawFullAmount(r.value);
      if !ok { r := None; }
    }

    /** Remove tokens and burn shares in proportion. */
    method WithdrawTokens(amount: u64) returns (r: Option<FullAmount>)
      modifies this
      ensures match TakeTokens(old(State()), amount)
              case Some((s, full)) => r == Some(full) && State() == s
              case None => r == None && State() == old(State())
    {
      r := WithTokens(PoolAmount(State()), Up, amount);
      if r.None? { return; }
      var ok := WithdrawFullAmount(r.value);
      if !ok { r := None; }
    }

    method WithdrawFullAmount(full: FullAmount) returns (ok: bool)
      modifies this
      ensures match Remove(old(State()), full)
              case Some(s) => ok && State() == s
              case None => !ok && State() == old(State())
    {
      if shares < full.shareAmount || tokens < full.tokenAmount { return false; }
      shares := shares - full.shareAmount;
      tokens := tokens - full.tokenAmount;
      ok := true;
    }

    /** Add tokens without minting shares. */
    method Donate(amount: u64) returns (ok: bool)
      modifies this
      ensures match Donated(old(State()), amount)
              case Some(s) => ok && State() == s
              case None => !ok && State() == old(State())
    {
      if tokens + amount >= U64_LIMIT { return false; }
      tokens := tokens + amount;
      ok := true;
    }

    /** Remove tokens without burning shares. */
    method Dilute(amount: u64) returns (ok: bool)
      modifies this
      ensures match Diluted(old(State()), amount)
              case Some(s) => ok && State() == s
              case None => !ok && State() == old(State())
    {
      if tokens < amount { return false; }
      tokens := tokens - amount;
      ok := true;
    }

    method Restore(before: SubPool)
      modifies this
      ensures State() == before
    {
      tokens, shares := before.tokens, before.shares;
    }
  }

  class StakeAccount {
    var bondedShares: u64
    var unbondingShares: u64

    function State(): Account
      reads this
    {
      Account(bondedShares, unbondingShares)
    }

    constructor ()
      ensures State() == Account(0, 0)
    {
      bondedShares, unbondingShares := 0, 0;
    }

    method Deposit(shares: u64) returns (ok: bool)
      modifies this
      ensures ok <==> old(bondedShares) + shares < U64_LIMIT
      ensures State() == if ok then Account(old(bondedShares) + shares, old(unbondingShares)) else old(State())
    {
      ok := bondedShares + shares < U64_LIMIT;
      if ok { bondedShares := bondedShares + shares; }
    }

    method Unbond(toBurn: u64, toAward: u64) returns (r: Result<(), Error>)
      modifies this
      ensures r.Ok? <==> toBurn <= old(bondedShares) && old(unbondingShares) + toAward < U64_LIMIT
      ensures r.Err? ==> r == Err(if old(bondedShares) < toBurn then InsufficientStake else Panic)
      ensures State() ==
              if r.Ok? then Account(old(bondedShares) - toBurn, old(unbondingShares) + toAward) else old(State())
    {
      if bondedShares < toBurn { return Err(InsufficientStake); }
      if unbondingShares + toAward >= U64_LIMIT { return Err(Panic); }
      bondedShares := bondedShares - toBurn;
      unbondingShares := unbondingShares + toAward;
      r := Ok(());
    }

    method WithdrawUnbonded(shares: u64) returns (ok: bool)
      modifies this
      ensures ok <==> shares <= old(unbondingShares)
      ensures State() == if ok then Account(old(bondedShares), old(unbondingShares) - shares) else old(State())
    {
      ok := shares <= unbondingShares;
      if ok { unbondingShares := unbondingShares - shares; }
    }

    method Restore(before: Account)
      modifies this
      ensures State() == before
    {
      bondedShares, unbondingShares := before.bondedShares, before.unbondingShares;
    }
  }

  class UnbondingAccount {
    var shares: u64

    constructor ()
      ensures shares == 0
    {
      shares := 0;
    }
  }

  class StakePool {
    var vaultAmount: u64
    const bonded: SharedTokenPool
    const unbonding: SharedTokenPool

    ghost predicate Valid() { bonded != unbonding }

    function State(): Stake
      reads this, bonded, unbonding
    {
      Stake(vaultAmount, bonded.State(), unbonding.State())
    }

    constructor ()
      ensures Valid() && fresh(bonded) && fresh(unbonding)
      ensures State() == Stake(0, SubPool(0, 0), SubPool(0, 0))
    {
      vaultAmount := 0;
      var b := new SharedTokenPool();
      var u := new SharedTokenPool();
      bonded, unbonding := b, u;
    }

    /** Credit what the vault has gained to the bonded sub-pool. */
    method UpdateVault(amount: u64) returns (ok: bool)
      requires Valid()
      modifies this, bonded
      ensures match AfterVaultUpdate(old(State()), amount)
              case Some(p) => ok && State() == p
              case None => !ok && State() == old(State())
    {
      if amount < vaultAmount { return false; }
      ok := bonded.Donate(amount - vaultAmount);
      if ok { vaultAmount := amount; }
    }

    /** Bond tokens for an account. */
    method Deposit(account: StakeAccount, tokens: u64) returns (r: Option<FullAmount>)
      requires Valid()
      modifies this, bonded, account
      ensures match AfterDeposit(old(State()), old(account.State()), tokens)
              case Some((p, a, full)) => r == Some(full) && State() == p && account.State() == a
              case None => r == None && State() == old(State()) && account.State() == old(account.State())
    {
      var before := bonded.State();
      r := bonded.Deposit(tokens);
      if r.None? { return; }
      var vault := Fit64(vaultAmount + r.value.tokenAmount);
      var ok := false;
      if vault.Some? { ok := account.Deposit(r.value.shareAmount); }
      if !ok {
        bonded.Restore(before);
        return None;
      }
      vaultAmount := vault.value;
    }

    /** Move tokens, or all of an account's stake, from the bonded to the unbonding sub-pool. */
    method Unbond(account: StakeAccount, record: UnbondingAccount, tokens: Option<u64>)
      returns (r: Result<FullAmount, Error>)
      requires Valid()
      modifies bonded, unbonding, account, record
      ensures match AfterUnbond(old(State()), old(account.State()), tokens)
              case Ok(u) =>
                r == Ok(u.full) && State() == u.pool && account.State() == u.account && record.shares == u.recordShares
              case Err(e) => r == Err(e) && State() == old(State()) && account.State() == old(account.State()) &&
                             record.shares == old(record.shares)
    {
      var bondedBefore, unbondingBefore := bonded.State(), unbonding.State();
      var taken: Option<FullAmount>;
      match tokens {
        case Some(n) => taken := bonded.WithdrawTokens(n);
        case None => taken := bonded.Withdraw(account.bondedShares);
      }
      if taken.None? { return Err(Panic); }
      var issued := unbonding.Deposit(taken.value.tokenAmount);
      if issued.None? {
        bonded.Restore(bondedBefore);
        return Err(Panic);
      }
      var moved := account.Unbond(taken.value.shareAmount, issued.value.shareAmount);
      if moved.Err? {
        bonded.Restore(bondedBefore);
        unbonding.Restore(unbondingBefore);
        return Err(moved.error);
      }
      record.shares := issued.value.shareAmount;
      r := Ok(taken.value);
    }

    /** Redeem the shares of an unbonding record. */
    method WithdrawUnbonded(account: StakeAccount, record: UnbondingAccount) returns (r: Option<FullAmount>)
      requires Valid()
      modifies this, unbonding, account
      ensures match AfterWithdrawUnbonded(old(State()), old(account.State()), record.shares)
              case Some((p, a, full)) => r == Some(full) && State() == p && account.State() == a
              case None => r == None && State() == old(State()) && account.State() == old(account.State())
    {
      var before := unbonding.State();
      r := unbonding.Withdraw(record.shares);
      if r.None? { return; }
      var vault := Fit64(vaultAmount - r.value.tokenAmount);
      var ok := false;
      if vault.Some? { ok := account.WithdrawUnbonded(r.value.shareAmount); }
      if !ok {
        unbonding.Restore(before);
        return None;
      }
      vaultAmount := vault.value;
    }

    /** Return the tokens of an unbonding record to the bonded sub-pool. */
    method Rebond(account: StakeAccount, record: UnbondingAccount) returns (r: Option<FullAmount>)
      requires Valid()
      modifies this, bonded, unbonding, account
      ensures match AfterRebond(old(State()), old(account.State()), record.shares)
              case Some((p, a, full)) => r == Some(full) && State() == p && account.State() == a
              case None => r == None && State() == old(State()) && account.State() == old(account.State())
    {
      var poolBefore, accountBefore := State(), account.State();
      r := WithdrawUnbonded(account, record);
      if r.None? { return; }
      var bondedAgain := Deposit(account, r.value.tokenAmount);
      if bondedAgain.None? {
        vaultAmount := poolBefore.vaultAmount;
        unbonding.Restore(poolBefore.unbonding);
        account.Restore(accountBefore);
        return None;
      }
    }

    /** Withdraw tokens from under the shares of both sub-pools. */
    method WithdrawBonded(amount: u64) returns (ok: bool)
      requires Valid()
      modifies this, bonded, unbonding
      ensures match AfterWithdrawBonded(old(State()), amount)
              case Some(p) => ok && State() == p
              case None => !ok && State() == old(State())
    {
      var bondedBefore, unbondingBefore := bonded.State(), unbonding.State();
      var product := Fit128(amount * bonded.tokens);
      if product.None? || vaultAmount == 0 { return false; }
      var fromBonded := Fit64(product.value / vaultAmount);
      if fromBonded.None? || amount < fromBonded.value { return false; }
      ok := bonded.Dilute(fromBonded.value);
      if !ok { return; }
      ok := unbonding.Dilute(amount - fromBonded.value);
      if !ok || vaultAmount < amount {
        bonded.Restore(bondedBefore);
        unbonding.Restore(unbondingBefore);
        return false;
      }
      vaultAmount := vaultAmount - amount;
    }
  }
}
