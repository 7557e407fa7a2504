/** Filling the lookup tables of a registry with the addresses of two programs. */
module RegistryUpdate {
  import opened Arithmetic
  import opened LookupTables

  class Registry {
    var tables: seq<Entry>

    constructor (tables: seq<Entry>)
      ensures this.tables == tables
    {
      this.tables := tables;
    }
  }

  class Plan {
    var entries: seq<PlanStep>

    constructor ()
      ensures entries == []
    {
      entries := [];
    }
  }

  class AddressSet {
    var items: set<Pubkey>

    constructor (items: set<Pubkey>)
      ensures this.items == items
    {
      this.items := items;
    }
  }

  /** The addresses that tables created from the given one on receive are new. */
  ghost predicate Fresh(newLookup: nat -> Pubkey, first: nat, tables: seq<Entry>) {
    && (forall k, i :: first <= k && 0 <= i < |tables| ==> newLookup(k) != tables[i].lookupAddress)
    && (forall k, l :: first <= k < l ==> newLookup(k) != newLookup(l))
  }

  lemma FreshAfterRound(newLookup: nat -> Pubkey, first: nat, tables: seq<Entry>, tables': seq<Entry>, created: bool)
    requires Fresh(newLookup, first, tables) && Grown(tables, tables')
    requires |tables'| == |tables| + if created then 1 else 0
    requires created ==> tables'[|tables|].lookupAddress == newLookup(first)
    ensures Fresh(newLookup, if created then first + 1 else first, tables')
  {
  }

  lemma OneMore(planned: seq<PlanStep>, steps: seq<PlanStep>, step: PlanStep)
    ensures planned + steps + [step] == planned + (steps + [step])
  {
  }

  /** Some n elements of a set, in the arbitrary order in which a hash set yields them. */
  method TakeSome(items: set<Pubkey>, n: nat) returns (taken: seq<Pubkey>)
    requires n <= |items|
    ensures |taken| == n
    ensures Members(taken) <= items
    ensures |items - Members(taken)| == |items| - n
  {
    taken := [];
    var rest := items;
    while |taken| < n
      invariant |taken| <= n
      invariant rest == items - Members(taken)
      invariant Members(taken) <= items
      invariant |rest| == |items| - |taken|
    {
      var a :| a in rest;
      rest := rest - {a};
      taken := taken + [a];
    }
  }

  /** One transaction that extends a table that has room. */
  method FillEntry(plan: Plan, addresses: AddressSet, registry: Registry, i: nat) returns (taken: seq<Pubkey>)
    requires i < |registry.tables| && |registry.tables[i].addresses| < CAPACITY && addresses.items != {}
    modifies plan, addresses, registry
    ensures |taken| == Min(Min(255 - |old(registry.tables)[i].addresses|, |old(addresses.items)|), 28) > 0
    ensures Members(taken) <= old(addresses.items)
    ensures addresses.items == old(addresses.items) - Members(taken)
    ensures |addresses.items| == |old(addresses.items)| - |taken|
    ensures registry.tables == old(registry.tables)[i := Extend(old(registry.tables)[i], taken)]
    ensures plan.entries == old(plan.entries) + [AppendTo(old(registry.tables)[i].lookupAddress, taken)]
  {
    var entry := registry.tables[i];
    var n := Min(Min(CAPACITY - |entry.addresses|, |addresses.items|), MAX_APPEND);
    taken := TakeSome(addresses.items, n);
    addresses.items := addresses.items - Members(taken);
    registry.tables := registry.tables[i := Extend(entry, taken)];
    plan.entries := plan.entries + [AppendTo(entry.lookupAddress, taken)];
  }

  // ------------------------------------------------------------- rounds

  /**
   One transaction of the packer, when some addresses are left: the first table
   with room takes as many of them as it holds and one transaction carries; a
   table, with both tags, is created only where none has room.
   */
  ghost predicate RoundOf(tables: seq<Entry>, left: set<Pubkey>, step: PlanStep, program: Pubkey, airspace: Pubkey) {
    var i := FirstEligible(tables, program, airspace);
    match step
    case CreateTable(lookup, addresses) =>
      left != {} && i == |tables| && addresses == [program, airspace] && forall e <- tables :: e.lookupAddress != lookup
    case AppendTo(lookup, taken) =>
      i < |tables| && lookup == tables[i].lookupAddress &&
      |taken| == Min(Min(255 - |tables[i].addresses|, |left|), 28) > 0 &&
      Members(taken) <= left && |Members(taken)| == |taken|
  }

  /** The addresses that a plan leaves over. */
  function Left(wanted: set<Pubkey>, steps: seq<PlanStep>): set<Pubkey> {
    if steps == [] then wanted
    else
      var earlier, last := Left(wanted, steps[..|steps| - 1]), steps[|steps| - 1];
      if last.AppendTo? then earlier - Members(last.addresses) else earlier
  }

  /** The plan is a run of the packer from the given tables and wanted addresses. */
  ghost predicate Packs(before: seq<Entry>, wanted: set<Pubkey>, steps: seq<PlanStep>, program: Pubkey,
                        airspace: Pubkey)
  {
    steps != [] ==>
      var earlier := steps[..|steps| - 1];
      Packs(before, wanted, earlier, program, airspace) &&
      RoundOf(Replay(before, earlier), Left(wanted, earlier), steps[|steps| - 1], program, airspace)
  }

  lemma PacksOneMore(before: seq<Entry>, wanted: set<Pubkey>, steps: seq<PlanStep>, step: PlanStep,
                     program: Pubkey, airspace: Pubkey)
    requires Packs(before, wanted, steps, program, airspace)
    requires RoundOf(Replay(before, steps), Left(wanted, steps), step, program, airspace)
    ensures Packs(before, wanted, steps + [step], program, airspace)
    ensures Replay(before, steps + [step]) == Execute(Replay(before, steps), step)
    ensures Left(wanted, steps + [step]) ==
            if step.AppendTo? then Left(wanted, steps) - Members(step.addresses) else Left(wanted, steps)
  {
    assert (steps + [step])[..|steps|] == steps;
  }

  /**
   What the packer has made of a registry when some of the wanted addresses are
   still left: tables only grew, within capacity; what is new in them is exactly
   the addresses no longer left, once each; the tables created so far and those
   still needed add up to the least possible; and the plan replays to it, and
   appends exactly those addresses.
   */
  ghost predicate Filling(before: seq<Entry>, tables: seq<Entry>, wanted: set<Pubkey>, left: set<Pubkey>,
                           steps: seq<PlanStep>, program: Pubkey, airspace: Pubkey)
  {
    && Kept(before, tables, program, airspace)
    && Counted(before, tables, |wanted|, |left|, program, airspace)
    && left <= wanted
    && Placed(before, tables, program, airspace, wanted - left)
    && Planned(before, tables, steps, program, airspace)
    && multiset(AppendedBy(steps)) == multiset(wanted - left)
  }

  /** Every run of the packer does so. */
  lemma {:induction false} PackingFills(before: seq<Entry>, wanted: set<Pubkey>, steps: seq<PlanStep>,
                                        program: Pubkey, airspace: Pubkey)
    requires DistinctLookups(before) && Packs(before, wanted, steps, program, airspace)
    ensures Filling(before, Replay(before, steps), wanted, Left(wanted, steps), steps, program, airspace)
  {
    if steps == [] {
      NothingAdded(before);
      assert wanted - wanted == {};
    } else {
      var earlier, step := steps[..|steps| - 1], steps[|steps| - 1];
      assert steps == earlier + [step];
      PackingFills(before, wanted, earlier, program, airspace);
      RoundFills(before, Replay(before, earlier), wanted, Left(wanted, earlier), earlier, step, program, airspace);
    }
  }

  lemma RoundFills(before: seq<Entry>, tables: seq<Entry>, wanted: set<Pubkey>, left: set<Pubkey>,
                   steps: seq<PlanStep>, step: PlanStep, program: Pubkey, airspace: Pubkey)
    requires Filling(before, tables, wanted, left, steps, program, airspace)
    requires RoundOf(tables, left, step, program, airspace)
    ensures var left' := if step.AppendTo? then left - Members(step.addresses) else left;
            Filling(before, Execute(tables, step), wanted, left', steps + [step], program, airspace)
  {
    match step
    case CreateTable(lookup, _) =>
      FillingAfterCreation(before, tables, wanted, left, steps, program, airspace, lookup);
    case AppendTo(_, taken) =>
      var i := FirstEligible(tables, program, airspace);
      RemovedOnce(left, taken);
      AppendFindsItsTable(tables, i, taken);
      FillingAfterAppend(before, tables, wanted, left, steps, program, airspace, i, taken, left - Members(taken));
  }

  lemma RemovedOnce(left: set<Pubkey>, taken: seq<Pubkey>)
    requires Members(taken) <= left && |Members(taken)| == |taken|
    ensures |left - Members(taken)| == |left| - |taken|
  {
    CountOfRest(left, Members(taken));
  }

  lemma PlacedSoFar(wanted: set<Pubkey>, left: set<Pubkey>, taken: set<Pubkey>, left': set<Pubkey>)
    requires left <= wanted && taken <= left && left' == left - taken
    ensures left' <= wanted && wanted - left' == wanted - left + taken
  {
  }

  lemma AppendedSoFar(wanted: set<Pubkey>, left: set<Pubkey>, steps: seq<PlanStep>, lookup: Pubkey,
                      taken: seq<Pubkey>, left': set<Pubkey>)
    requires multiset(AppendedBy(steps)) == multiset(wanted - left) && left <= wanted && Members(taken) <= left
    requires left' == left - Members(taken) && |left'| == |left| - |taken|
    ensures multiset(AppendedBy(steps + [AppendTo(lookup, taken)])) == multiset(wanted - left')
  {
    AppendedByOneMore(steps, AppendTo(lookup, taken));
    TakenOnce(left, left', taken);
    assert multiset(wanted - left') == multiset(wanted - left) + multiset(left - left');
    assert multiset(AppendedBy(steps) + taken) == multiset(AppendedBy(steps)) + multiset(taken);
  }

  lemma FillingAfterAppend(before: seq<Entry>, tables: seq<Entry>, wanted: set<Pubkey>, left: set<Pubkey>,
                            steps: seq<PlanStep>, program: Pubkey, airspace: Pubkey,
                            i: nat, taken: seq<Pubkey>, left': set<Pubkey>)
    requires Filling(before, tables, wanted, left, steps, program, airspace)
    requires i < |tables| && Eligible(tables[i], program, airspace)
    requires 1 <= |taken| <= Min(CAPACITY - |tables[i].addresses|, MAX_APPEND)
    requires Members(taken) <= left
    requires left' == left - Members(taken) && |left'| == |left| - |taken|
    ensures Filling(before, tables[i := Extend(tables[i], taken)], wanted, left',
                     steps + [AppendTo(tables[i].lookupAddress, taken)], program, airspace)
  {
    KeptByAppend(before, tables, program, airspace, i, taken);
    CountedByAppend(before, tables, |wanted|, |left|, program, airspace, i, taken);
    PlacedSoFar(wanted, left, Members(taken), left');
    PlacedByAppend(before, tables, wanted - left, program, airspace, i, taken, wanted - left');
    AppendFindsItsTable(tables, i, taken);
    PlannedOneMore(before, tables, steps, AppendTo(tables[i].lookupAddress, taken), program, airspace);
    AppendedSoFar(wanted, left, steps, tables[i].lookupAddress, taken, left');
  }

  lemma FillingAfterCreation(before: seq<Entry>, tables: seq<Entry>, wanted: set<Pubkey>, left: set<Pubkey>,
                              steps: seq<PlanStep>, program: Pubkey, airspace: Pubkey, lookup: Pubkey)
    requires Filling(before, tables, wanted, left, steps, program, airspace) && left != {}
    requires FirstEligible(tables, program, airspace) == |tables| && forall e <- tables :: e.lookupAddress != lookup
    ensures Filling(before, tables + [Entry(0, lookup, [program, airspace])], wanted, left,
                     steps + [CreateTable(lookup, [program, airspace])], program, airspace)
  {
    var step := CreateTable(lookup, [program, airspace]);
    KeptByCreation(before, tables, program, airspace, lookup);
    CountedByCreation(before, tables, |wanted|, |left|, program, airspace, lookup);
    PlacedByCreation(before, tables, wanted - left, program, airspace, lookup);
    PlannedOneMore(before, tables, steps, step, program, airspace);
    AppendedByOneMore(steps, step);
    assert AppendedBy(steps) + [] == AppendedBy(steps);
  }

  lemma NewTableIsEligible(tables: seq<Entry>, program: Pubkey, airspace: Pubkey, lookup: Pubkey)
    ensures var tables' := tables + [Entry(0, lookup, [program, airspace])];
            FirstEligible(tables', program, airspace) < |tables'|
  {
    var tables' := tables + [Entry(0, lookup, [program, airspace])];
    assert Eligible(tables'[|tables|], program, airspace);
  }

  lemma ExtendedIsGrown(tables: seq<Entry>, i: nat, taken: seq<Pubkey>)
    requires i < |tables|
    ensures Grown(tables, tables[i := Extend(tables[i], taken)])
  {
  }

  /** The registry and the set of addresses stand where the plan so far has brought them. */
  ghost predicate StandsAt(registry: Registry, addresses: AddressSet, before: seq<Entry>, wanted: set<Pubkey>,
                           steps: seq<PlanStep>, program: Pubkey, airspace: Pubkey)
    reads registry, addresses
  {
    && registry.tables == Replay(before, steps)
    && addresses.items == Left(wanted, steps)
    && Packs(before, wanted, steps, program, airspace)
  }

  /** A round that extends a table with room. */
  method AppendRound(plan: Plan, addresses: AddressSet, registry: Registry, i: nat,
                     ghost program: Pubkey, ghost airspace: Pubkey,
                     ghost before: seq<Entry>, ghost wanted: set<Pubkey>, ghost steps: seq<PlanStep>)
    returns (ghost step: PlanStep)
    requires addresses.items != {} && DistinctLookups(registry.tables)
    requires i == FirstEligible(registry.tables, program, airspace) < |registry.tables|
    requires StandsAt(registry, addresses, before, wanted, steps, program, airspace)
    modifies plan, addresses, registry
    ensures plan.entries == old(plan.entries) + [step]
    ensures StandsAt(registry, addresses, before, wanted, steps + [step], program, airspace)
    ensures |addresses.items| < |old(addresses.items)|
    ensures |registry.tables| == |old(registry.tables)| && Grown(old(registry.tables), registry.tables)
    ensures DistinctLookups(registry.tables)
  {
    ghost var tables, left := registry.tables, addresses.items;
    var taken := FillEntry(plan, addresses, registry, i);
    step := AppendTo(tables[i].lookupAddress, taken);
    OnceTaken(left, addresses.items, taken);
    PacksOneMore(before, wanted, steps, step, program, airspace);
    AppendFindsItsTable(tables, i, taken);
    ExtendedIsGrown(tables, i, taken);
  }

  lemma OnceTaken(left: set<Pubkey>, left': set<Pubkey>, taken: seq<Pubkey>)
    requires Members(taken) <= left
    requires left' == left - Members(taken) && |left'| == |left| - |taken|
    ensures |Members(taken)| == |taken|
  {
    CountOfRest(left, Members(taken));
  }

  /** A round that creates a table. */
  method CreateRound(plan: Plan, addresses: AddressSet, registry: Registry, program: Pubkey, airspace: Pubkey,
                     lookup: Pubkey,
                     ghost before: seq<Entry>, ghost wanted: set<Pubkey>, ghost steps: seq<PlanStep>)
    returns (ghost step: PlanStep)
    requires addresses.items != {} && DistinctLookups(registry.tables)
    requires FirstEligible(registry.tables, program, airspace) == |registry.tables|
    requires forall e <- registry.tables :: e.lookupAddress != lookup
    requires StandsAt(registry, addresses, before, wanted, steps, program, airspace)
    modifies plan, registry
    ensures plan.entries == old(plan.entries) + [step]
    ensures StandsAt(registry, addresses, before, wanted, steps + [step], program, airspace)
    ensures registry.tables == old(registry.tables) + [Entry(0, lookup, [program, airspace])]
    ensures FirstEligible(registry.tables, program, airspace) < |registry.tables|
    ensures DistinctLookups(registry.tables)
  {
    ghost var tables := registry.tables;
    step := CreateTable(lookup, [program, airspace]);
    plan.entries := plan.entries + [CreateTable(lookup, [program, airspace])];
    registry.tables := registry.tables + [Entry(0, lookup, [program, airspace])];
    PacksOneMore(before, wanted, steps, step, program, airspace);
    NewTableIsEligible(tables, program, airspace, lookup);
  }

  /**
   Append the addresses of a program to tables tagged with the program and the
   airspace, creating such tables when none has room. newLookup(k) is the
   address of the k-th table ever created.
   */
  method AddToRegistry(plan: Plan, addresses: AddressSet, registry: Registry, program: Pubkey, airspace: Pubkey,
                       newLookup: nat -> Pubkey, first: nat)
    returns (next: nat)
    requires DistinctLookups(registry.tables) && Fresh(newLookup, first, registry.tables)
    modifies plan, addresses, registry
    ensures addresses.items == {}
    ensures old(plan.entries) <= plan.entries
    ensures StandsAt(registry, addresses, old(registry.tables), old(addresses.items),
                     plan.entries[|old(plan.entries)|..], program, airspace)
    ensures DistinctLookups(registry.tables)
    ensures next == first + |registry.tables| - |old(registry.tables)| && Fresh(newLookup, next, registry.tables)
    ensures old(addresses.items) == {} ==> plan.entries == old(plan.entries)
  {
    next := first;
    ghost var before, wanted, planned := registry.tables, addresses.items, plan.entries;
    ghost var steps: seq<PlanStep> := [];
    while addresses.items != {}
      invariant wanted == {} ==> steps == []
      invariant StandsAt(registry, addresses, before, wanted, steps, program, airspace)
      invariant plan.entries == planned + steps
      invariant next == first + |registry.tables| - |before|
      invariant DistinctLookups(registry.tables) && Fresh(newLookup, next, registry.tables)
      decreases |addresses.items|,
                if FirstEligible(registry.tables, program, airspace) == |registry.tables| then 1 else 0
    {
      ghost var tables := registry.tables;
      ghost var step: PlanStep;
      var i := FirstEligible(registry.tables, program, airspace);
      if i < |registry.tables| {
        step := AppendRound(plan, addresses, registry, i, program, airspace, before, wanted, steps);
        FreshAfterRound(newLookup, next, tables, registry.tables, false);
      } else {
        step := CreateRound(plan, addresses, registry, program, airspace, newLookup(next), before, wanted, steps);
        FreshAfterRound(newLookup, next, tables, registry.tables, true);
        next := next + 1;
      }
      OneMore(planned, steps, step);
      steps := steps + [step];
    }
  }

  /** The address stands in a table that holds the program and the airspace. */
  predicate StandsInTaggedTable(tables: seq<Entry>, program: Pubkey, airspace: Pubkey, a: Pubkey) {
    exists i :: 0 <= i < |tables| && a in tables[i].addresses &&
                program in tables[i].addresses && airspace in tables[i].addresses
  }

  lemma PlacedInTaggedTables(before: seq<Entry>, tables: seq<Entry>, program: Pubkey, airspace: Pubkey,
                             wanted: set<Pubkey>)
    requires Placed(before, tables, program, airspace, wanted)
    ensures forall a <- wanted :: StandsInTaggedTable(tables, program, airspace, a)
  {
    forall a | a in wanted ensures StandsInTaggedTable(tables, program, airspace, a) {
      assert PlacedIn(before, tables, program, airspace, a);
      var i :| 0 <= i < |tables| && Tagged(tables[i], program, airspace) && a in NewPart(before, tables, i);
      assert a in tables[i].addresses;
    }
  }

  /** The plan is a run of the packer that leaves nothing over. */
  ghost predicate Fills(before: seq<Entry>, wanted: set<Pubkey>, steps: seq<PlanStep>, program: Pubkey,
                        airspace: Pubkey)
  {
    DistinctLookups(before) && Packs(before, wanted, steps, program, airspace) && Left(wanted, steps) == {}
  }

  /**
   Such a run creates the fewest possible tables, makes exactly the wanted
   addresses, once each, new in tables with both tags, and appends just those.
   */
  lemma FilledExactly(before: seq<Entry>, wanted: set<Pubkey>, steps: seq<PlanStep>, program: Pubkey, airspace: Pubkey)
    requires Fills(before, wanted, steps, program, airspace)
    ensures var tables := Replay(before, steps);
            |tables| - |before| == NewTables(|wanted|, Spare(before, program, airspace)) &&
            Kept(before, tables, program, airspace) &&
            Placed(before, tables, program, airspace, wanted) &&
            multiset(Flatten(NewParts(before, tables))) == multiset(wanted) &&
            multiset(AppendedBy(steps)) == multiset(wanted) &&
            forall a <- wanted :: StandsInTaggedTable(tables, program, airspace, a)
    ensures forall other: seq<Entry> ::
              Packing(before, other, program, airspace) && Added(before, other) == |wanted| ==>
                |Replay(before, steps)| <= |other|
    ensures forall s <- steps :: FitsTransaction(s, program, airspace)
  {
    PackingFills(before, wanted, steps, program, airspace);
    assert wanted - {} == wanted;
    PlacedOnce(before, Replay(before, steps), program, airspace, wanted);
    PlacedInTaggedTables(before, Replay(before, steps), program, airspace, wanted);
    forall other: seq<Entry> | Packing(before, other, program, airspace) && Added(before, other) == |wanted|
      ensures |Replay(before, steps)| <= |other|
    {
      NoPackingUsesFewer(before, other, program, airspace);
    }
  }

  /** Strike out the addresses that tables tagged with the program already hold. */
  method RemoveExisting(tables: seq<Entry>, fixedTerm: AddressSet, marginPool: AddressSet,
                        fixedTermId: Pubkey, marginPoolId: Pubkey)
    requires fixedTerm != marginPool
    modifies fixedTerm, marginPool
    ensures fixedTerm.items == Missing(tables, fixedTermId, old(fixedTerm.items))
    ensures marginPool.items == Missing(tables, marginPoolId, old(marginPool.items))
  {
    for t := 0 to |tables|
      invariant fixedTerm.items == set a | a in old(fixedTerm.items) && !CoveredBy(tables[..t], fixedTermId, a)
      invariant marginPool.items == set a | a in old(marginPool.items) && !CoveredBy(tables[..t], marginPoolId, a)
    {
      if fixedTermId in tables[t].addresses { RemoveAll(fixedTerm, tables[t].addresses); }
      if marginPoolId in tables[t].addresses { RemoveAll(marginPool, tables[t].addresses); }
      CoverageOfOneMore(tables, t, fixedTermId);
      CoverageOfOneMore(tables, t, marginPoolId);
    }
    assert tables[..|tables|] == tables;
  }

  lemma CoverageOfOneMore(tables: seq<Entry>, t: nat, program: Pubkey)
    requires t < |tables|
    ensures forall a :: CoveredBy(tables[..t + 1], program, a) <==>
                        CoveredBy(tables[..t], program, a) ||
                        (program in tables[t].addresses && a in tables[t].addresses)
  {
    forall a
      ensures CoveredBy(tables[..t + 1], program, a) <==>
              CoveredBy(tables[..t], program, a) || (program in tables[t].addresses && a in tables[t].addresses)
    {
      if CoveredBy(tables[..t], program, a) {
        var i :| 0 <= i < t && program in tables[..t][i].addresses && a in tables[..t][i].addresses;
        assert tables[..t + 1][i] == tables[..t][i];
      }
      if program in tables[t].addresses && a in tables[t].addresses {
        assert tables[..t + 1][t] == tables[t];
      }
      if CoveredBy(tables[..t + 1], program, a) && !(program in tables[t].addresses && a in tables[t].addresses) {
        var i :| 0 <= i < t + 1 && program in tables[..t + 1][i].addresses && a in tables[..t + 1][i].addresses;
        assert i != t && tables[..t][i] == tables[..t + 1][i];
      }
    }
  }

  method RemoveAll(from: AddressSet, addresses: seq<Pubkey>)
    modifies from
    ensures from.items == old(from.items) - Members(addresses)
  {
    for i := 0 to |addresses|
      invariant from.items == old(from.items) - Members(addresses[..i])
    {
      from.items := from.items - {addresses[i]};
      assert addresses[..i + 1] == addresses[..i] + [addresses[i]];
    }
    assert addresses[..|addresses|] == addresses;
  }

  /** The wanted addresses that no table tagged with the program holds. */
  ghost function Missing(tables: seq<Entry>, program: Pubkey, wanted: set<Pubkey>): set<Pubkey> {
    set a | a in wanted && !CoveredBy(tables, program, a)
  }

  /** The first n transactions fill the tables with some addresses of one program, the others with some of the other. */
  ghost predicate FilledAt(start: seq<Entry>, entries: seq<PlanStep>, n: nat, airspace: Pubkey,
                           fixedTermId: Pubkey, fixedTerm: set<Pubkey>, marginPoolId: Pubkey, marginPool: set<Pubkey>)
    requires n <= |entries|
  {
    Fills(start, fixedTerm, entries[..n], fixedTermId, airspace) &&
    Fills(Replay(start, entries[..n]), marginPool, entries[n..], marginPoolId, airspace)
  }

  ghost predicate FilledInTurn(start: seq<Entry>, entries: seq<PlanStep>, airspace: Pubkey,
                               fixedTermId: Pubkey, fixedTerm: set<Pubkey>,
                               marginPoolId: Pubkey, marginPool: set<Pubkey>)
  {
    exists n: nat :: n <= |entries| &&
      FilledAt(start, entries, n, airspace, fixedTermId, fixedTerm, marginPoolId, marginPool)
  }

  /** So the plan appends exactly those addresses, each once for each program that misses it. */
  lemma AppendsWhatIsMissing(start: seq<Entry>, entries: seq<PlanStep>, airspace: Pubkey,
                             fixedTermId: Pubkey, fixedTerm: set<Pubkey>,
                             marginPoolId: Pubkey, marginPool: set<Pubkey>)
    requires FilledInTurn(start, entries, airspace, fixedTermId, fixedTerm, marginPoolId, marginPool)
    ensures multiset(AppendedBy(entries)) == multiset(fixedTerm) + multiset(marginPool)
  {
    var n: nat :| n <= |entries| &&
      FilledAt(start, entries, n, airspace, fixedTermId, fixedTerm, marginPoolId, marginPool);
    AppendsBoth(start, entries[..n], entries[n..], airspace, fixedTermId, fixedTerm, marginPoolId, marginPool);
    InTwo(entries, n);
  }

  lemma InTwo(entries: seq<PlanStep>, n: nat)
    requires n <= |entries|
    ensures entries[..n] + entries[n..] == entries
  {
  }

  lemma AppendsBoth(start: seq<Entry>, first: seq<PlanStep>, second: seq<PlanStep>, airspace: Pubkey,
                    fixedTermId: Pubkey, fixedTerm: set<Pubkey>, marginPoolId: Pubkey, marginPool: set<Pubkey>)
    requires Fills(start, fixedTerm, first, fixedTermId, airspace)
    requires Fills(Replay(start, first), marginPool, second, marginPoolId, airspace)
    ensures multiset(AppendedBy(first + second)) == multiset(fixedTerm) + multiset(marginPool)
  {
    AppendsAll(start, fixedTerm, first, fixedTermId, airspace);
    AppendsAll(Replay(start, first), marginPool, second, marginPoolId, airspace);
    AppendedTogether(first, second, first + second);
  }

  lemma AppendsAll(before: seq<Entry>, wanted: set<Pubkey>, steps: seq<PlanStep>, program: Pubkey, airspace: Pubkey)
    requires Fills(before, wanted, steps, program, airspace)
    ensures multiset(AppendedBy(steps)) == multiset(wanted)
  {
    FilledExactly(before, wanted, steps, program, airspace);
  }

  lemma AppendedTogether(first: seq<PlanStep>, second: seq<PlanStep>, entries: seq<PlanStep>)
    requires entries == first + second
    ensures multiset(AppendedBy(entries)) == multiset(AppendedBy(first)) + multiset(AppendedBy(second))
  {
    AppendedInTwoParts(first, second);
    MultisetOfBoth(AppendedBy(first), AppendedBy(second));
  }

  lemma MultisetOfBoth(s: seq<Pubkey>, t: seq<Pubkey>)
    ensures multiset(s + t) == multiset(s) + multiset(t)
  {
  }

  lemma {:induction false} AppendedInTwoParts(first: seq<PlanStep>, second: seq<PlanStep>)
    ensures AppendedBy(first + second) == AppendedBy(first) + AppendedBy(second)
  {
    if second == [] {
      assert first + second == first;
    } else {
      var rest, last := second[..|second| - 1], second[|second| - 1];
      assert first + second == (first + rest) + [last];
      AppendedByOneMore(first + rest, last);
      AppendedInTwoParts(first, rest);
    }
  }

  /**
   Bring a registry up to date with the addresses wanted for both programs. The
   plan appends exactly those that no table tagged with their program held.
   Afterwards every wanted address is in a table tagged with its program; where
   that was so before, the plan is empty and the registry unchanged.
   */
  method UpdateRegistry(registry: Registry, fixedTerm: AddressSet, marginPool: AddressSet,
                        fixedTermId: Pubkey, marginPoolId: Pubkey, airspace: Pubkey,
                        newLookup: nat -> Pubkey, first: nat)
    returns (plan: Plan, next: nat)
    requires fixedTerm != marginPool
    requires DistinctLookups(registry.tables) && Fresh(newLookup, first, registry.tables)
    modifies registry, fixedTerm, marginPool
    ensures fresh(plan)
    ensures fixedTerm.items == {} && marginPool.items == {}
    ensures Grown(old(registry.tables), registry.tables)
    ensures AllCovered(registry.tables, fixedTermId, old(fixedTerm.items))
    ensures AllCovered(registry.tables, marginPoolId, old(marginPool.items))
    ensures Replay(old(registry.tables), plan.entries) == registry.tables
    ensures AllCovered(old(registry.tables), fixedTermId, old(fixedTerm.items)) &&
            AllCovered(old(registry.tables), marginPoolId, old(marginPool.items)) ==>
              plan.entries == [] && registry.tables == old(registry.tables)
    ensures DistinctLookups(registry.tables) && Fresh(newLookup, next, registry.tables)
    ensures FilledInTurn(old(registry.tables), plan.entries, airspace,
                         fixedTermId, Missing(old(registry.tables), fixedTermId, old(fixedTerm.items)),
                         marginPoolId, Missing(old(registry.tables), marginPoolId, old(marginPool.items)))
  {
    ghost var wantedFixed, wantedPool := fixedTerm.items, marginPool.items;
    var start := registry.tables;
    RemoveExisting(start, fixedTerm, marginPool, fixedTermId, marginPoolId);
    plan, next := FillBoth(registry, fixedTerm, marginPool, fixedTermId, marginPoolId, airspace, newLookup, first);
    UpdateIsComplete(start, plan.entries, airspace, fixedTermId, wantedFixed, marginPoolId, wantedPool);
  }

  /** Add what is left of the addresses of both programs, one program after the other. */
  method FillBoth(registry: Registry, fixedTerm: AddressSet, marginPool: AddressSet,
                  fixedTermId: Pubkey, marginPoolId: Pubkey, airspace: Pubkey,
                  newLookup: nat -> Pubkey, first: nat)
    returns (plan: Plan, next: nat)
    requires fixedTerm != marginPool
    requires DistinctLookups(registry.tables) && Fresh(newLookup, first, registry.tables)
    modifies registry, fixedTerm, marginPool
    ensures fresh(plan) && fixedTerm.items == {} && marginPool.items == {}
    ensures DistinctLookups(registry.tables) && Fresh(newLookup, next, registry.tables)
    ensures Replay(old(registry.tables), plan.entries) == registry.tables
    ensures FilledInTurn(old(registry.tables), plan.entries, airspace,
                         fixedTermId, old(fixedTerm.items), marginPoolId, old(marginPool.items))
    ensures old(fixedTerm.items) == {} && old(marginPool.items) == {} ==> plan.entries == []
  {
    plan := new Plan();
    ghost var start, leftFixed, leftPool := registry.tables, fixedTerm.items, marginPool.items;
    next := AddToRegistry(plan, fixedTerm, registry, fixedTermId, airspace, newLookup, first);
    ghost var middle, firstPart := registry.tables, plan.entries;
    next := AddToRegistry(plan, marginPool, registry, marginPoolId, airspace, newLookup, next);
    ghost var secondPart := plan.entries[|firstPart|..];
    assert plan.entries == firstPart + secondPart;
    assert plan.entries[..|firstPart|] == firstPart && plan.entries[|firstPart|..] == secondPart;
    assert FilledAt(start, plan.entries, |firstPart|, airspace, fixedTermId, leftFixed, marginPoolId, leftPool);
    ReplayInTwoParts(start, firstPart, secondPart);
  }

  lemma UpdateIsComplete(start: seq<Entry>, entries: seq<PlanStep>, airspace: Pubkey,
                         fixedTermId: Pubkey, wantedFixed: set<Pubkey>, marginPoolId: Pubkey, wantedPool: set<Pubkey>)
    requires FilledInTurn(start, entries, airspace, fixedTermId, Missing(start, fixedTermId, wantedFixed),
                          marginPoolId, Missing(start, marginPoolId, wantedPool))
    ensures var end := Replay(start, entries);
            Grown(start, end) && AllCovered(end, fixedTermId, wantedFixed) && AllCovered(end, marginPoolId, wantedPool)
    ensures AllCovered(start, fixedTermId, wantedFixed) ==> Missing(start, fixedTermId, wantedFixed) == {}
    ensures AllCovered(start, marginPoolId, wantedPool) ==> Missing(start, marginPoolId, wantedPool) == {}
  {
    var n: nat :| n <= |entries| &&
      FilledAt(start, entries, n, airspace, fixedTermId, Missing(start, fixedTermId, wantedFixed),
               marginPoolId, Missing(start, marginPoolId, wantedPool));
    InTwo(entries, n);
    BothAreComplete(start, wantedFixed, entries[..n], fixedTermId, wantedPool, entries[n..], marginPoolId, airspace);
  }

  lemma BothAreComplete(start: seq<Entry>,
                        wantedFixed: set<Pubkey>, firstPart: seq<PlanStep>, fixedTermId: Pubkey,
                        wantedPool: set<Pubkey>, secondPart: seq<PlanStep>, marginPoolId: Pubkey, airspace: Pubkey)
    requires Fills(start, Missing(start, fixedTermId, wantedFixed), firstPart, fixedTermId, airspace)
    requires Fills(Replay(start, firstPart), Missing(start, marginPoolId, wantedPool), secondPart, marginPoolId,
                   airspace)
    ensures var end := Replay(start, firstPart + secondPart);
            Grown(start, end) && AllCovered(end, fixedTermId, wantedFixed) && AllCovered(end, marginPoolId, wantedPool)
    ensures AllCovered(start, fixedTermId, wantedFixed) ==> Missing(start, fixedTermId, wantedFixed) == {}
    ensures AllCovered(start, marginPoolId, wantedPool) ==> Missing(start, marginPoolId, wantedPool) == {}
  {
    var leftFixed, leftPool := Missing(start, fixedTermId, wantedFixed), Missing(start, marginPoolId, wantedPool);
    var middle := Replay(start, firstPart);
    var end := Replay(middle, secondPart);
    ReplayInTwoParts(start, firstPart, secondPart);
    FilledExactly(start, leftFixed, firstPart, fixedTermId, airspace);
    FilledExactly(middle, leftPool, secondPart, marginPoolId, airspace);
    StillCovered(start, middle, end, fixedTermId, wantedFixed, leftFixed);
    PlacedIsCovered(start, middle, fixedTermId, airspace, leftFixed);
    GrownKeepsCoverage(middle, end, fixedTermId, leftFixed);
    CoveredInParts(end, fixedTermId, wantedFixed, leftFixed);
    StillCovered(start, middle, end, marginPoolId, wantedPool, leftPool);
    PlacedIsCovered(middle, end, marginPoolId, airspace, leftPool);
    CoveredInParts(end, marginPoolId, wantedPool, leftPool);
  }

  lemma StillCovered(start: seq<Entry>, middle: seq<Entry>, end: seq<Entry>, program: Pubkey,
                     wanted: set<Pubkey>, left: set<Pubkey>)
    requires Grown(start, middle) && Grown(middle, end)
    requires left == Missing(start, program, wanted)
    ensures Grown(start, end) && AllCovered(end, program, wanted - left)
    ensures AllCovered(start, program, wanted) ==> left == {}
  {
    assert AllCovered(start, program, wanted - left);
    GrownKeepsCoverage(start, middle, program, wanted - left);
    GrownKeepsCoverage(middle, end, program, wanted - left);
  }

  lemma PlacedIsCovered(before: seq<Entry>, tables: seq<Entry>, program: Pubkey, airspace: Pubkey, wanted: set<Pubkey>)
    requires Placed(before, tables, program, airspace, wanted)
    ensures AllCovered(tables, program, wanted)
  {
    forall a | a in wanted ensures CoveredBy(tables, program, a) {
      assert PlacedIn(before, tables, program, airspace, a);
    }
  }

  lemma CoveredInParts(tables: seq<Entry>, program: Pubkey, wanted: set<Pubkey>, left: set<Pubkey>)
    requires AllCovered(tables, program, wanted - left) && AllCovered(tables, program, left)
    ensures AllCovered(tables, program, wanted)
  {
    forall a | a in wanted ensures CoveredBy(tables, program, a) {
      if a in left { assert a in left; } else { assert a in wanted - left; }
    }
  }

  /** Updating again with the same wanted addresses plans nothing. */
  method UpdateTwice(registry: Registry, fixedTerm: set<Pubkey>, marginPool: set<Pubkey>,
                     fixedTermId: Pubkey, marginPoolId: Pubkey, airspace: Pubkey,
                     newLookup: nat -> Pubkey, first: nat)
    returns (plan: Plan, again: Plan)
    requires DistinctLookups(registry.tables) && Fresh(newLookup, first, registry.tables)
    modifies registry
    ensures Replay(old(registry.tables), plan.entries) == registry.tables
    ensures again.entries == []
  {
    var f := new AddressSet(fixedTerm);
    var m := new AddressSet(marginPool);
    var next;
    plan, next := UpdateRegistry(registry, f, m, fixedTermId, marginPoolId, airspace, newLookup, first);
    f := new AddressSet(fixedTerm);
    m := new AddressSet(marginPool);
    again, next := UpdateRegistry(registry, f, m, fixedTermId, marginPoolId, airspace, newLookup, next);
  }
}
