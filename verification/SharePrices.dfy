/** How the price of a share moves under the operations of a sub-pool. */
module SharePrices {
  import opened Wrappers
  import opened FixedPoint
  import opened Arithmetic
  import opened StakingState

  /** No 128-bit intermediate of a conversion can overflow, whatever the 64-bit inputs. */
  lemma NoIntermediateOverflow(part: u64, all: u64, whole: u64)
    requires whole > 0
    ensures part * all < U128_LIMIT && whole - 1 + part * all < U128_LIMIT
  {
    MulMono(part, U64_MAX, all);
    MulMono(all, U64_MAX, U64_MAX);
  }

  /** What a conversion computes: the exact proportion, rounded once in the direction asked for. */
  lemma ProportionIsRounded(rounding: Rounding, part: u64, all: u64, whole: u64)
    ensures Proportion(rounding, part, all, whole).Some? ==>
              var r := Proportion(rounding, part, all, whole).value;
              whole > 0 && (r > 0 <==> part > 0) &&
              (rounding == Down ==> r == part * all / whole && r * whole <= part * all < r * whole + whole) &&
              (rounding == Up ==> r == CeilDiv(part * all, whole) && part * all <= r * whole < part * all + whole)
  {
    if whole > 0 {
      NoIntermediateOverflow(part, all, whole);
      DivBounds(part * all, whole);
      CeilBounds(part * all, whole);
      if part == 0 { DivUnique(whole - 1, whole, 0); }
    }
  }

  /** The price of a share in s' is at least that in s. */
  predicate PriceKept(s: SubPool, s': SubPool) {
    s.tokens * s'.shares <= s'.tokens * s.shares
  }

  lemma AddTokensKeepsPrice(s: SubPool, tokens: u64)
    requires AddTokens(s, tokens).Some? && s.tokens > 0
    ensures PriceKept(s, AddTokens(s, tokens).value.0)
  {
    ProportionIsRounded(Down, tokens, s.shares, s.tokens);
    var issued := AddTokens(s, tokens).value.1.shareAmount;
    assert s.tokens * (s.shares + issued) == s.tokens * s.shares + issued * s.tokens;
    assert (s.tokens + tokens) * s.shares == s.tokens * s.shares + tokens * s.shares;
  }

  /** Taking tokens out keeps the price, and leaves tokens wherever it leaves shares. */
  lemma TakingKeepsPrice(s: SubPool, full: FullAmount)
    requires s.tokens > 0 && Remove(s, full).Some? && full.tokenAmount * s.shares <= full.shareAmount * s.tokens
    ensures var s' := Remove(s, full).value; PriceKept(s, s') && (s'.shares > 0 ==> s'.tokens > 0)
  {
    var s' := Remove(s, full).value;
    assert s.tokens * (s.shares - full.shareAmount) == s.tokens * s.shares - full.shareAmount * s.tokens;
    assert (s.tokens - full.tokenAmount) * s.shares == s.tokens * s.shares - full.tokenAmount * s.shares;
    if s'.shares > 0 { MulMono(1, s'.shares, s.tokens); }
  }

  lemma TakeSharesIsFair(s: SubPool, shares: u64)
    requires TakeShares(s, shares).Some? && s.tokens > 0
    ensures var (s', full) := TakeShares(s, shares).value;
            full.shareAmount == shares && full.tokenAmount * s.shares <= shares * s.tokens &&
            shares * s.tokens < full.tokenAmount * s.shares + s.shares &&
            PriceKept(s, s') && (s'.shares > 0 ==> s'.tokens > 0)
  {
    ProportionIsRounded(Down, shares, s.tokens, s.shares);
    TakingKeepsPrice(s, TakeShares(s, shares).value.1);
  }

  lemma TakeTokensIsFair(s: SubPool, tokens: u64)
    requires TakeTokens(s, tokens).Some? && s.tokens > 0
    ensures var (s', full) := TakeTokens(s, tokens).value;
            full.tokenAmount == tokens && tokens * s.shares <= full.shareAmount * s.tokens &&
            PriceKept(s, s') && (s'.shares > 0 ==> s'.tokens > 0)
  {
    ProportionIsRounded(Up, tokens, s.shares, s.tokens);
    TakingKeepsPrice(s, TakeTokens(s, tokens).value.1);
  }

  lemma PriceKeptTransitive(s: SubPool, t: SubPool, u: SubPool)
    requires PriceKept(s, t) && PriceKept(t, u) && t.tokens > 0
    ensures PriceKept(s, u)
  {
    CrossCancel(s.tokens, s.shares, t.tokens, t.shares, u.tokens, u.shares);
  }

  lemma CrossCancel(a: nat, x: nat, b: nat, y: nat, c: nat, z: nat)
    requires a * y <= b * x && b * z <= c * y && b > 0
    ensures a * z <= c * x
  {
    if y > 0 {
      MulMono(a * y, b * x, z);
      MulMono(b * z, c * y, x);
      SwapFactors(a, z, y);
      SwapFactors(b, x, z);
      SwapFactors(c, y, x);
      MulCancel(a * z, c * x, y);
    } else if z > 0 {
      MulMono(1, z, b);
      assert false;
    }
  }

  lemma SwapFactors(a: nat, b: nat, c: nat)
    ensures (a * b) * c == (a * c) * b
  {
  }

  /** What a holding of shares redeems for, rounded down. */
  function Redeemable(s: SubPool, shares: nat): nat
    requires s.shares > 0
  {
    DivNat(shares * s.tokens, s.shares);
    shares * s.tokens / s.shares
  }

  /** A higher price never lowers what a holding redeems for. */
  lemma PriceCarriesValue(s: SubPool, s': SubPool, shares: nat)
    requires PriceKept(s, s') && s.shares > 0 && s'.shares > 0
    ensures Redeemable(s, shares) <= Redeemable(s', shares)
  {
    var v := Redeemable(s, shares);
    DivBounds(shares * s.tokens, s.shares);
    MulMono(v * s.shares, shares * s.tokens, s'.shares);
    MulMono(s.tokens * s'.shares, s'.tokens * s.shares, shares);
    assert (v * s'.shares) * s.shares == (v * s.shares) * s'.shares;
    assert (shares * s.tokens) * s'.shares == shares * (s.tokens * s'.shares);
    assert shares * (s'.tokens * s.shares) == (shares * s'.tokens) * s.shares;
    MulCancel(v * s'.shares, shares * s'.tokens, s.shares);
    DivGalois(shares * s'.tokens, s'.shares, v);
  }

  // ------------------------------------------------------------- round trips

  /** Tokens put in and taken out again through the shares issued for them. */
  predicate RoundTrips(s: SubPool, tokens: u64) {
    AddTokens(s, tokens).Some? &&
    TakeShares(AddTokens(s, tokens).value.0, AddTokens(s, tokens).value.1.shareAmount).Some?
  }

  function Returned(s: SubPool, tokens: u64): nat
    requires RoundTrips(s, tokens)
  {
    TakeShares(AddTokens(s, tokens).value.0, AddTokens(s, tokens).value.1.shareAmount).value.1.tokenAmount
  }

  /**
   A deposit and its withdrawal return at most the deposit. From a pool with at
   least as many shares as tokens, at most one token is lost; in general at
   most one more than a share is worth afterwards. Nothing is lost from empty.
   */
  lemma DepositRoundTrip(s: SubPool, tokens: u64)
    requires RoundTrips(s, tokens)
    ensures Returned(s, tokens) <= tokens
    ensures s.tokens > 0 && tokens > 0 ==>
              var s' := AddTokens(s, tokens).value.0;
              tokens - Returned(s, tokens) <= 1 + s.tokens / s'.shares
    ensures 0 < s.tokens <= s.shares ==> tokens <= Returned(s, tokens) + 1
    ensures s == SubPool(0, 0) ==> Returned(s, tokens) == tokens
  {
    TripInNumbers(s, tokens);
    var issued := AddTokens(s, tokens).value.1.shareAmount;
    if tokens == 0 {
    } else if s.tokens > 0 {
      ReturnedWithin(s.tokens, s.shares, tokens, issued);
      if s.tokens <= s.shares { DivUnique(s.tokens, s.shares + issued, 0); }
    } else {
      FreshStart(s.shares, tokens, issued);
    }
  }

  lemma TripInNumbers(s: SubPool, tokens: u64)
    requires RoundTrips(s, tokens)
    ensures var (s', full) := AddTokens(s, tokens).value;
            var issued := full.shareAmount;
            (issued > 0 <==> tokens > 0) && s' == SubPool(s.tokens + tokens, s.shares + issued) &&
            (tokens > 0 ==> Returned(s, tokens) == issued * (s.tokens + tokens) / (s.shares + issued)) &&
            (tokens == 0 ==> Returned(s, tokens) == 0) &&
            (if s.tokens > 0 then issued * s.tokens <= tokens * s.shares < issued * s.tokens + s.tokens
             else issued == 10 * tokens)
  {
    var (s', full) := AddTokens(s, tokens).value;
    ProportionIsRounded(Down, tokens, PoolAmount(s).allShares, PoolAmount(s).allTokens);
    ProportionIsRounded(Down, full.shareAmount, PoolAmount(s').allTokens, PoolAmount(s').allShares);
  }

  lemma FreshStart(shares: nat, tokens: nat, issued: nat)
    requires tokens > 0 && issued == 10 * tokens
    ensures issued * tokens / (shares + issued) <= tokens
    ensures shares == 0 ==> issued * tokens / (shares + issued) == tokens
  {
    MulMono(issued, shares + issued, tokens);
    DivMono(issued * tokens, tokens * (shares + issued), shares + issued);
    DivOfMultiple(tokens, shares + issued);
  }

  lemma ReturnedWithin(t: nat, s: nat, tokens: nat, issued: nat)
    requires t > 0 && issued > 0 && issued * t <= tokens * s < issued * t + t
    ensures issued * (t + tokens) / (s + issued) <= tokens
    ensures tokens - issued * (t + tokens) / (s + issued) <= 1 + t / (s + issued)
  {
    var back := issued * (t + tokens);
    var whole := s + issued;
    assert back == issued * t + issued * tokens;
    assert tokens * whole == tokens * s + issued * tokens;
    DivGalois(back, whole, tokens + 1);
    assert (tokens + 1) * whole == tokens * whole + whole;
    var k := t / whole;
    DivBounds(t, whole);
    assert (tokens - 1 - k) * whole == tokens * whole - whole - k * whole;
    DivGalois(back, whole, tokens - 1 - k);
  }

  /** The tokens that unbonding takes from the bonded sub-pool. */
  lemma UnbondTakes(p: Stake, a: Account, tokens: Option<u64>)
    requires AfterUnbond(p, a, tokens).Ok? && p.bonded.tokens > 0
    ensures var u := AfterUnbond(p, a, tokens).value;
            Remove(p.bonded, u.full) == Some(u.pool.bonded) &&
            u.full.tokenAmount * p.bonded.shares <= u.full.shareAmount * p.bonded.tokens &&
            AddTokens(p.unbonding, u.full.tokenAmount).Some? &&
            AddTokens(p.unbonding, u.full.tokenAmount).value.0 == u.pool.unbonding &&
            AddTokens(p.unbonding, u.full.tokenAmount).value.1.shareAmount == u.recordShares &&
            u.account == Account(a.bondedShares - u.full.shareAmount, a.unbondingShares + u.recordShares)
  {
    match tokens
    case Some(n) => TakeTokensIsFair(p.bonded, n);
    case None => TakeSharesIsFair(p.bonded, a.bondedShares);
  }

  /** The unbonding asks for every bonded token. */
  predicate TakesAll(p: Stake, a: Account, tokens: Option<u64>) {
    match tokens
    case Some(n) => n == p.bonded.tokens
    case None => a.bondedShares == p.bonded.shares
  }

  /** It is served with all tokens exactly then, and burns every share. */
  lemma TakingAll(p: Stake, a: Account, tokens: Option<u64>)
    requires AfterUnbond(p, a, tokens).Ok? && p.bonded.tokens > 0
    ensures var u := AfterUnbond(p, a, tokens).value;
            (u.pool.bonded.tokens == 0 <==> TakesAll(p, a, tokens)) &&
            (TakesAll(p, a, tokens) ==>
              u.full.tokenAmount == p.bonded.tokens && u.full.shareAmount == p.bonded.shares)
  {
    UnbondTakes(p, a, tokens);
    match tokens
    case Some(n) =>
      ProportionIsRounded(Up, n, p.bonded.shares, p.bonded.tokens);
      CeilOfMultiple(p.bonded.shares, p.bonded.tokens);
    case None =>
      ProportionIsRounded(Down, a.bondedShares, p.bonded.tokens, p.bonded.shares);
      DivOfMultiple(p.bonded.tokens, p.bonded.shares);
      DivGalois(a.bondedShares * p.bonded.tokens, p.bonded.shares, p.bonded.tokens);
      MulCancel(p.bonded.shares, a.bondedShares, p.bonded.tokens);
  }

  lemma CeilOfMultiple(a: nat, b: nat)
    requires b > 0
    ensures CeilDiv(b * a, b) == a
  {
    CeilGalois(b * a, b, a);
    CeilGalois(b * a, b, a - 1);
  }

  /**
   Unbonding and cancelling it at once gains bonded shares exactly when every
   bonded token is taken, so that the tokens come back at the initial rate, and
   ten times what the unbonding sub-pool gives back for them exceed the shares
   that were bonded.
   */
  lemma UnbondThenRebond(p: Stake, a: Account, tokens: Option<u64>)
    requires AfterUnbond(p, a, tokens).Ok? && p.bonded.tokens > 0
    requires var u := AfterUnbond(p, a, tokens).value; AfterRebond(u.pool, u.account, u.recordShares).Some?
    ensures var u := AfterUnbond(p, a, tokens).value;
            var (p', a', full) := AfterRebond(u.pool, u.account, u.recordShares).value;
            RoundTrips(p.unbonding, u.full.tokenAmount) && full.tokenAmount <= u.full.tokenAmount &&
            (TakesAll(p, a, tokens) ==> u.full.tokenAmount == p.bonded.tokens) &&
            (a'.bondedShares > a.bondedShares <==>
             TakesAll(p, a, tokens) && 10 * Returned(p.unbonding, p.bonded.tokens) > p.bonded.shares)
  {
    UnbondTakes(p, a, tokens);
    TakingAll(p, a, tokens);
    var u := AfterUnbond(p, a, tokens).value;
    var (p', a', full) := AfterRebond(u.pool, u.account, u.recordShares).value;
    DepositRoundTrip(p.unbonding, u.full.tokenAmount);
    RebondGives(u.pool, u.account, u.recordShares);
    if u.pool.bonded.tokens > 0 {
      SharesBack(p.bonded.tokens, p.bonded.shares, u.full.tokenAmount, u.full.shareAmount,
                 full.tokenAmount, a'.bondedShares - u.account.bondedShares);
    }
  }

  /** The only staker of a pool at one share a token unbonds, cancels, and holds ten times the shares. */
  lemma RebondAtInitialRate()
    ensures var p := Stake(100, SubPool(100, 100), SubPool(0, 0));
            var u := AfterUnbond(p, Account(100, 0), None);
            u.Ok? && u.value.recordShares == 1_000 && u.value.account == Account(0, 1_000) &&
            AfterRebond(u.value.pool, u.value.account, 1_000).Some? &&
            AfterRebond(u.value.pool, u.value.account, 1_000).value.1 == Account(1_000, 0)
  {
    UnbondsAll();
    RebondsAll();
  }

  lemma UnbondsAll()
    ensures var p := Stake(100, SubPool(100, 100), SubPool(0, 0));
            var full := FullAmount(100, 100, 100, 100);
            AfterUnbond(p, Account(100, 0), None) ==
              Ok(Unbonded(Stake(100, SubPool(0, 0), SubPool(100, 1_000)), Account(0, 1_000), 1_000, full))
  {
    assert Proportion(Down, 100, 100, 100) == Some(100);
    assert Proportion(Down, 100, INIT_SHARE_SCALE, INIT_TOKEN_SCALE) == Some(1_000);
  }

  lemma RebondsAll()
    ensures var p := Stake(100, SubPool(0, 0), SubPool(100, 1_000));
            AfterRebond(p, Account(0, 1_000), 1_000).Some? &&
            AfterRebond(p, Account(0, 1_000), 1_000).value.1 == Account(1_000, 0)
  {
    assert Proportion(Down, 1_000, 100, 1_000) == Some(100);
    assert Proportion(Down, 100, INIT_SHARE_SCALE, INIT_TOKEN_SCALE) == Some(1_000);
  }

  lemma RebondGives(p: Stake, a: Account, recordShares: u64)
    requires AfterRebond(p, a, recordShares).Some?
    ensures var (p', a', full) := AfterRebond(p, a, recordShares).value;
            TakeShares(p.unbonding, recordShares).Some? &&
            full == TakeShares(p.unbonding, recordShares).value.1 &&
            a'.bondedShares >= a.bondedShares &&
            (if p.bonded.tokens > 0
             then (a'.bondedShares - a.bondedShares) * p.bonded.tokens <= full.tokenAmount * p.bonded.shares
             else a'.bondedShares - a.bondedShares == 10 * full.tokenAmount)
  {
    var tokens := AfterRebond(p, a, recordShares).value.2.tokenAmount;
    ProportionIsRounded(Down, tokens, PoolAmount(p.bonded).allShares, PoolAmount(p.bonded).allTokens);
  }

  lemma SharesBack(t: nat, s: nat, tokens: nat, burnt: nat, returned: nat, back: nat)
    requires tokens < t && burnt <= s && returned <= tokens && tokens * s <= burnt * t
    requires back * (t - tokens) <= returned * (s - burnt)
    ensures back <= burnt
  {
    MulMono(returned, tokens, s - burnt);
    assert tokens * (s - burnt) == tokens * s - tokens * burnt;
    assert burnt * (t - tokens) == burnt * t - burnt * tokens;
    MulCancel(back, burnt, t - tokens);
  }

  // --------------------------------------------------------------- dilution

  /** The bonded sub-pool's proportion of an owner's withdrawal, rounded down. */
  function FromBonded(p: Stake, amount: u64): nat
    requires p.vaultAmount > 0
  {
    DivNat(amount * p.bonded.tokens, p.vaultAmount);
    amount * p.bonded.tokens / p.vaultAmount
  }

  /** The unbonding sub-pool's proportion, rounded up. */
  function FromUnbonding(p: Stake, amount: u64): nat
    requires p.vaultAmount > 0
  {
    CeilOf(amount * p.unbonding.tokens, p.vaultAmount)
  }

  /**
   Where the vault is accounted for, the owner's withdrawal succeeds exactly
   for amounts within a non-empty vault, and charges each sub-pool its
   proportion: the bonded one rounded down, the unbonding one rounded up.
   */
  lemma WithdrawBondedExactly(p: Stake, amount: u64)
    requires Backed(p)
    ensures AfterWithdrawBonded(p, amount).Some? <==> 0 < p.vaultAmount && amount <= p.vaultAmount
    ensures AfterWithdrawBonded(p, amount).Some? ==>
              var p' := AfterWithdrawBonded(p, amount).value;
              p'.vaultAmount == p.vaultAmount - amount &&
              FromBonded(p, amount) + FromUnbonding(p, amount) == amount &&
              p'.bonded.tokens == p.bonded.tokens - FromBonded(p, amount) &&
              p'.unbonding.tokens == p.unbonding.tokens - FromUnbonding(p, amount) &&
              p'.bonded.shares == p.bonded.shares && p'.unbonding.shares == p.unbonding.shares
  {
    if 0 < p.vaultAmount && amount <= p.vaultAmount {
      NoIntermediateOverflow(amount, p.bonded.tokens, 1);
      ProportionalParts(amount, p.bonded.tokens, p.unbonding.tokens, p.vaultAmount);
    }
  }

  lemma ProportionalParts(amount: nat, b: nat, u: nat, v: nat)
    requires v == b + u && 0 < v && amount <= v
    ensures 0 <= amount * b / v <= Min(amount, b) && CeilDiv(amount * u, v) <= u
    ensures amount * b / v + CeilDiv(amount * u, v) == amount
  {
    assert amount * b + amount * u == amount * v;
    Complement(amount * b, amount * u, v, amount);
    ShareOfPart(amount, b, v);
    MulMono(amount, v, u);
    CeilGalois(amount * u, v, u);
  }

  lemma ShareOfPart(amount: nat, part: nat, whole: nat)
    requires amount <= whole && part <= whole && 0 < whole
    ensures 0 <= amount * part / whole <= Min(amount, part)
  {
    DivNat(amount * part, whole);
    MulMono(amount, whole, part);
    DivMono(amount * part, part * whole, whole);
    DivOfMultiple(part, whole);
    MulMono(part, whole, amount);
    DivMono(amount * part, amount * whole, whole);
    DivOfMultiple(amount, whole);
  }

  lemma Complement(x: nat, y: nat, v: nat, n: nat)
    requires v > 0 && x + y == n * v
    ensures x / v + CeilDiv(y, v) == n
  {
    var f := x / v;
    DivBounds(x, v);
    assert (n - f) * v == n * v - f * v;
    assert (n - f - 1) * v == n * v - f * v - v;
    CeilGalois(y, v, n - f);
    CeilGalois(y, v, n - f - 1);
  }

  // ------------------------------------------------------------ corner states

  /** Tokens given to a pool without shares block every later deposit but the empty one. */
  lemma DonationIntoEmptyBlocksDeposits(s: SubPool, tokens: u64)
    requires s.tokens > 0 && s.shares == 0 && s.tokens + tokens < U64_LIMIT
    ensures AddTokens(s, tokens).Some? <==> tokens == 0
  {
    ProportionIsRounded(Down, tokens, s.shares, s.tokens);
    assert tokens * s.shares == 0;
    DivUnique(0, s.tokens, 0);
  }

  /**
   Taking tokens burns the last share while tokens remain exactly when less than
   all tokens are taken and they are worth more than all shares but one: only
   where a share is worth more than a token.
   */
  lemma LastShareBurntEarly(s: SubPool, tokens: u64)
    requires TakeTokens(s, tokens).Some? && s.tokens > 0 && s.shares > 0
    ensures var s' := TakeTokens(s, tokens).value.0;
            (s'.shares == 0 && s'.tokens > 0 <==>
             tokens < s.tokens && (s.shares - 1) * s.tokens < tokens * s.shares) &&
            (s'.shares == 0 && s'.tokens > 0 ==> s.shares < s.tokens)
  {
    ProportionIsRounded(Up, tokens, s.shares, s.tokens);
    AllSharesForSome(tokens, s.shares, s.tokens);
  }

  lemma AllSharesForSome(tokens: nat, shares: nat, all: nat)
    requires tokens <= all && 0 < all && 0 < shares
    ensures CeilDiv(tokens * shares, all) >= shares <==> (shares - 1) * all < tokens * shares
    ensures tokens < all && (shares - 1) * all < tokens * shares ==> shares < all
  {
    CeilGalois(tokens * shares, all, shares - 1);
    if tokens < all {
      MulMono(tokens + 1, all, shares);
      assert (tokens + 1) * shares == tokens * shares + shares;
      assert (shares - 1) * all == shares * all - all;
    }
  }

  /** Five of nine tokens take both shares; of the four that stay behind, no deposit can get a share again. */
  lemma StrandedTokens(tokens: u64)
    requires 4 + tokens < U64_LIMIT
    ensures var s := TakeTokens(SubPool(9, 2), 5);
            s.Some? && s.value.0 == SubPool(4, 0) &&
            (AddTokens(s.value.0, tokens).Some? <==> tokens == 0)
  {
    DonationIntoEmptyBlocksDeposits(SubPool(4, 0), tokens);
  }

  /** Where dilution took every token but left shares, a new deposit loses part of itself to them. */
  lemma FallbackRateDilutesDeposits(s: SubPool, tokens: u64)
    requires s.tokens == 0 && s.shares > 0 && tokens > 0 && RoundTrips(s, tokens)
    ensures Returned(s, tokens) < tokens
  {
    TripInNumbers(s, tokens);
    SharedWithOthers(s.shares, tokens, 10 * tokens);
  }

  lemma SharedWithOthers(shares: nat, tokens: nat, issued: nat)
    requires shares > 0 && tokens > 0
    ensures issued * tokens / (shares + issued) < tokens
  {
    MulMono(1, shares, tokens);
    DivGalois(issued * tokens, shares + issued, tokens);
    assert tokens * (shares + issued) == tokens * shares + issued * tokens;
  }
}
