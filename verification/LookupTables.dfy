/** Lookup tables of a registry, the plans that fill them, and how many tables are needed. */
module LookupTables {
  import opened Arithmetic

  type Pubkey = nat

  const CAPACITY: nat := 255
  const MAX_APPEND: nat := 28

  datatype Entry = Entry(discriminator: nat, lookupAddress: Pubkey, addresses: seq<Pubkey>)

  /** One transaction of a plan: create a table with its first addresses, or extend a table. */
  datatype PlanStep =
    | CreateTable(lookupAddress: Pubkey, addresses: seq<Pubkey>)
    | AppendTo(lookupAddress: Pubkey, addresses: seq<Pubkey>)

  function Members(s: seq<Pubkey>): set<Pubkey> { set a | a in s }

  predicate Tagged(e: Entry, program: Pubkey, airspace: Pubkey) {
    program in e.addresses && airspace in e.addresses
  }

  predicate Eligible(e: Entry, program: Pubkey, airspace: Pubkey) {
    Tagged(e, program, airspace) && |e.addresses| < CAPACITY
  }

  /** The first eligible table, or the number of tables if there is none. */
  function FirstEligible(tables: seq<Entry>, program: Pubkey, airspace: Pubkey): (i: nat)
    ensures i <= |tables|
    ensures i < |tables| ==> Eligible(tables[i], program, airspace)
    ensures forall j :: 0 <= j < i ==> !Eligible(tables[j], program, airspace)
  {
    if tables == [] || Eligible(tables[0], program, airspace) then 0
    else 1 + FirstEligible(tables[1..], program, airspace)
  }

  /** It is the first table with both tags and fewer than 255 addresses. */
  lemma FirstWithRoom(tables: seq<Entry>, program: Pubkey, airspace: Pubkey)
    ensures var i := FirstEligible(tables, program, airspace);
            (i < |tables| ==> HasRoom(tables[i].addresses, program, airspace)) &&
            forall j :: 0 <= j < i ==> !HasRoom(tables[j].addresses, program, airspace)
  {
  }

  predicate HasRoom(addresses: seq<Pubkey>, program: Pubkey, airspace: Pubkey) {
    program in addresses && airspace in addresses && |addresses| < 255
  }

  // ------------------------------------------------------------------- replay

  /** Table addresses are accounts, so no two tables share one. */
  predicate DistinctLookups(tables: seq<Entry>) {
    forall i, j :: 0 <= i < j < |tables| ==> tables[i].lookupAddress != tables[j].lookupAddress
  }

  function IndexOf(tables: seq<Entry>, lookup: Pubkey): (i: nat)
    ensures i <= |tables|
    ensures i < |tables| ==> tables[i].lookupAddress == lookup
    ensures forall j :: 0 <= j < i ==> tables[j].lookupAddress != lookup
  {
    if tables == [] || tables[0].lookupAddress == lookup then 0
    else 1 + IndexOf(tables[1..], lookup)
  }

  function Extend(e: Entry, addresses: seq<Pubkey>): Entry {
    e.(addresses := e.addresses + addresses)
  }

  /** The registry after one transaction, seen from the chain: tables are found by their address. */
  function Execute(tables: seq<Entry>, step: PlanStep): seq<Entry> {
    match step
    case CreateTable(lookup, addresses) => tables + [Entry(0, lookup, addresses)]
    case AppendTo(lookup, addresses) =>
      var i := IndexOf(tables, lookup);
      if i < |tables| then tables[i := Extend(tables[i], addresses)] else tables
  }

  function Replay(tables: seq<Entry>, steps: seq<PlanStep>): seq<Entry> {
    if steps == [] then tables
    else Execute(Replay(tables, steps[..|steps| - 1]), steps[|steps| - 1])
  }

  lemma ReplayMore(tables: seq<Entry>, steps: seq<PlanStep>, step: PlanStep)
    ensures Replay(tables, steps + [step]) == Execute(Replay(tables, steps), step)
  {
    assert (steps + [step])[..|steps|] == steps;
  }

  lemma AppendFindsItsTable(tables: seq<Entry>, i: nat, addresses: seq<Pubkey>)
    requires DistinctLookups(tables) && i < |tables|
    ensures Execute(tables, AppendTo(tables[i].lookupAddress, addresses)) == tables[i := Extend(tables[i], addresses)]
  {
    var j := IndexOf(tables, tables[i].lookupAddress);
    assert j == i;
  }

  lemma {:induction false} ReplayInTwoParts(tables: seq<Entry>, first: seq<PlanStep>, second: seq<PlanStep>)
    ensures Replay(tables, first + second) == Replay(Replay(tables, first), second)
  {
    if second == [] {
      assert first + second == first;
    } else {
      var rest, last := second[..|second| - 1], second[|second| - 1];
      assert first + second == (first + rest) + [last];
      ReplayMore(tables, first + rest, last);
      ReplayInTwoParts(tables, first, rest);
    }
  }

  /** What the program allows one transaction to carry. */
  predicate FitsTransaction(step: PlanStep, program: Pubkey, airspace: Pubkey) {
    match step
    case CreateTable(_, addresses) => addresses == [program, airspace]
    case AppendTo(_, addresses) => 1 <= |addresses| <= MAX_APPEND
  }

  /** The addresses that a plan appends, in its order. */
  function AppendedBy(steps: seq<PlanStep>): seq<Pubkey> {
    if steps == [] then []
    else
      var last := steps[|steps| - 1];
      AppendedBy(steps[..|steps| - 1]) + if last.AppendTo? then last.addresses else []
  }

  lemma AppendedByOneMore(steps: seq<PlanStep>, step: PlanStep)
    ensures AppendedBy(steps + [step]) == AppendedBy(steps) + if step.AppendTo? then step.addresses else []
  {
    assert (steps + [step])[..|steps|] == steps;
  }

  // ------------------------------------------------------------------ packing

  function Room(e: Entry, program: Pubkey, airspace: Pubkey): nat {
    if Eligible(e, program, airspace) then CAPACITY - |e.addresses| else 0
  }

  /** The free room of the eligible tables together. */
  function Spare(tables: seq<Entry>, program: Pubkey, airspace: Pubkey): nat {
    if tables == [] then 0
    else Spare(tables[..|tables| - 1], program, airspace) + Room(tables[|tables| - 1], program, airspace)
  }

  lemma SpareOfOneMore(tables: seq<Entry>, e: Entry, program: Pubkey, airspace: Pubkey)
    ensures Spare(tables + [e], program, airspace) == Spare(tables, program, airspace) + Room(e, program, airspace)
  {
    assert (tables + [e])[..|tables|] == tables;
  }

  lemma {:induction false} SpareAfterChange(tables: seq<Entry>, i: nat, e: Entry, program: Pubkey, airspace: Pubkey)
    requires i < |tables|
    ensures Spare(tables[i := e], program, airspace) ==
            Spare(tables, program, airspace) - Room(tables[i], program, airspace) + Room(e, program, airspace)
  {
    var last := |tables| - 1;
    if i < last {
      assert tables[i := e][..last] == tables[..last][i := e];
      SpareAfterChange(tables[..last], i, e, program, airspace);
    } else {
      assert tables[i := e][..last] == tables[..last];
    }
  }

  lemma {:induction false} NoSpareWithoutEligible(tables: seq<Entry>, program: Pubkey, airspace: Pubkey)
    requires forall j :: 0 <= j < |tables| ==> !Eligible(tables[j], program, airspace)
    ensures Spare(tables, program, airspace) == 0
  {
    if tables != [] { NoSpareWithoutEligible(tables[..|tables| - 1], program, airspace); }
  }

  /** The number of new tables that n addresses need. */
  function NewTables(n: nat, spare: nat): nat {
    CeilDiv(Max(0, n - spare), CAPACITY - 2)
  }

  lemma OneTableLess(n: nat)
    requires n > 0
    ensures NewTables(n, 0) == 1 + NewTables(n, CAPACITY - 2)
  {
  }

  /** How many addresses the tables hold beyond those of before, not counting the two tags of a new table. */
  function Added(before: seq<Entry>, result: seq<Entry>): int
    requires |before| <= |result|
  {
    if result == [] then 0
    else
      var last := |result| - 1;
      if |before| == |result| then
        Added(before[..last], result[..last]) + |result[last].addresses| - |before[last].addresses|
      else
        Added(before, result[..last]) + |result[last].addresses| - 2
  }

  /** A way to grow a registry: tagged tables within capacity, others untouched, new ones tagged. */
  predicate Packing(before: seq<Entry>, result: seq<Entry>, program: Pubkey, airspace: Pubkey) {
    && |before| <= |result|
    && (forall i :: 0 <= i < |before| ==>
          if Eligible(before[i], program, airspace)
          then before[i].addresses <= result[i].addresses && |result[i].addresses| <= CAPACITY
          else result[i] == before[i])
    && (forall i :: |before| <= i < |result| ==>
          Tagged(result[i], program, airspace) && 2 <= |result[i].addresses| <= CAPACITY)
  }

  /** No packing adds more addresses than the spare room and its new tables hold. */
  lemma {:induction false} PackingIsBounded(before: seq<Entry>, result: seq<Entry>, program: Pubkey, airspace: Pubkey)
    requires Packing(before, result, program, airspace)
    ensures Added(before, result) <= Spare(before, program, airspace) + (CAPACITY - 2) * (|result| - |before|)
    decreases |result|
  {
    if result != [] {
      var last := |result| - 1;
      if |before| == |result| {
        PackingIsBounded(before[..last], result[..last], program, airspace);
      } else {
        PackingIsBounded(before, result[..last], program, airspace);
      }
    }
  }

  /** No packing that places n addresses creates fewer tables than the formula says. */
  lemma NoPackingUsesFewer(before: seq<Entry>, result: seq<Entry>, program: Pubkey, airspace: Pubkey)
    requires Packing(before, result, program, airspace)
    ensures NewTables(Max(0, Added(before, result)), Spare(before, program, airspace)) <= |result| - |before|
  {
    PackingIsBounded(before, result, program, airspace);
    var n := Max(0, Max(0, Added(before, result)) - Spare(before, program, airspace));
    CeilGalois(n, CAPACITY - 2, |result| - |before|);
  }

  lemma {:induction false} AddedByChange(before: seq<Entry>, result: seq<Entry>, i: nat, e: Entry)
    requires |before| <= |result| && i < |result|
    ensures Added(before, result[i := e]) == Added(before, result) + |e.addresses| - |result[i].addresses|
    decreases |result|
  {
    var last := |result| - 1;
    if i < last {
      assert result[i := e][..last] == result[..last][i := e];
      if |before| == |result| {
        AddedByChange(before[..last], result[..last], i, e);
      } else {
        AddedByChange(before, result[..last], i, e);
      }
    } else {
      assert result[i := e][..last] == result[..last];
    }
  }

  lemma AddedByTable(before: seq<Entry>, result: seq<Entry>, e: Entry)
    requires |before| <= |result|
    ensures Added(before, result + [e]) == Added(before, result) + |e.addresses| - 2
  {
    assert (result + [e])[..|result|] == result;
  }

  lemma {:induction false} NothingAdded(tables: seq<Entry>)
    ensures Added(tables, tables) == 0
  {
    if tables != [] { NothingAdded(tables[..|tables| - 1]); }
  }

  // ----------------------------------------------------------------- coverage

  /** Some table that carries the program's tag holds the address. */
  predicate CoveredBy(tables: seq<Entry>, program: Pubkey, address: Pubkey) {
    exists i :: 0 <= i < |tables| && program in tables[i].addresses && address in tables[i].addresses
  }

  predicate AllCovered(tables: seq<Entry>, program: Pubkey, wanted: set<Pubkey>) {
    forall a <- wanted :: CoveredBy(tables, program, a)
  }

  /** Every table is kept and only ever extended at its end. */
  predicate Grown(before: seq<Entry>, after: seq<Entry>) {
    && |before| <= |after|
    && forall i :: 0 <= i < |before| ==>
         before[i].lookupAddress == after[i].lookupAddress && before[i].addresses <= after[i].addresses
  }

  lemma GrownKeepsCoverage(before: seq<Entry>, after: seq<Entry>, program: Pubkey, wanted: set<Pubkey>)
    requires Grown(before, after) && AllCovered(before, program, wanted)
    ensures AllCovered(after, program, wanted)
  {
    forall a | a in wanted ensures CoveredBy(after, program, a) {
      assert CoveredBy(before, program, a);
      var i :| 0 <= i < |before| && program in before[i].addresses && a in before[i].addresses;
      assert program in after[i].addresses && a in after[i].addresses;
    }
  }

  /** What a table holds beyond what it held before, or beyond its two tags if it is new. */
  function NewPart(before: seq<Entry>, tables: seq<Entry>, i: nat): seq<Pubkey>
    requires i < |tables|
  {
    var held := if i < |before| then |before[i].addresses| else 2;
    if held <= |tables[i].addresses| then tables[i].addresses[held..] else []
  }

  /** All parts, one after the other. */
  function Flatten(parts: seq<seq<Pubkey>>): seq<Pubkey> {
    if parts == [] then [] else Flatten(parts[..|parts| - 1]) + parts[|parts| - 1]
  }

  lemma {:induction false} InFlatten(parts: seq<seq<Pubkey>>, i: nat, a: Pubkey)
    requires i < |parts| && a in parts[i]
    ensures a in Flatten(parts)
  {
    if i < |parts| - 1 { InFlatten(parts[..|parts| - 1], i, a); }
  }

  /** What is new in the tables, table by table. */
  function NewParts(before: seq<Entry>, tables: seq<Entry>): (parts: seq<seq<Pubkey>>)
    ensures |parts| == |tables|
  {
    seq(|tables|, i requires 0 <= i < |tables| => NewPart(before, tables, i))
  }

  /** It is as much as the tables have grown. */
  lemma {:induction false} NewPartsAreAdded(before: seq<Entry>, tables: seq<Entry>, program: Pubkey, airspace: Pubkey)
    requires Packing(before, tables, program, airspace)
    ensures |Flatten(NewParts(before, tables))| == Added(before, tables)
    decreases |tables|
  {
    if tables != [] {
      var last := |tables| - 1;
      var shorter := if |before| == |tables| then before[..last] else before;
      LastNewPart(before, tables, program, airspace);
      NewPartsAreAdded(shorter, tables[..last], program, airspace);
    }
  }

  lemma LastNewPart(before: seq<Entry>, tables: seq<Entry>, program: Pubkey, airspace: Pubkey)
    requires Packing(before, tables, program, airspace) && tables != []
    ensures var last := |tables| - 1;
            var shorter := if |before| == |tables| then before[..last] else before;
            Packing(shorter, tables[..last], program, airspace) &&
            NewParts(before, tables)[..last] == NewParts(shorter, tables[..last]) &&
            |NewPart(before, tables, last)| ==
              |tables[last].addresses| - if |before| == |tables| then |before[last].addresses| else 2
  {
    var last := |tables| - 1;
    var shorter := if |before| == |tables| then before[..last] else before;
    forall i | 0 <= i < last ensures NewPart(before, tables, i) == NewPart(shorter, tables[..last], i) {
    }
  }

  /** As many entries as there are members: each occurs once. */
  lemma OnceEach(s: seq<Pubkey>, members: set<Pubkey>)
    requires |s| == |members| && forall a <- members :: a in s
    ensures multiset(s) == multiset(members)
  {
    assert multiset(members) <= multiset(s);
    var extra := multiset(s) - multiset(members);
    assert multiset(s) == multiset(members) + extra;
    assert |multiset(s)| == |s| && |multiset(members)| == |members|;
    assert extra == multiset{};
  }

  /** Where what is new is exactly the given addresses, as many as the tables have grown, each is there once. */
  lemma PlacedOnce(before: seq<Entry>, tables: seq<Entry>, program: Pubkey, airspace: Pubkey, addresses: set<Pubkey>)
    requires Packing(before, tables, program, airspace)
    requires Placed(before, tables, program, airspace, addresses) && Added(before, tables) == |addresses|
    ensures multiset(Flatten(NewParts(before, tables))) == multiset(addresses)
  {
    NewPartsAreAdded(before, tables, program, airspace);
    forall a | a in addresses ensures a in Flatten(NewParts(before, tables)) {
      assert PlacedIn(before, tables, program, airspace, a);
      var i :| 0 <= i < |tables| && Tagged(tables[i], program, airspace) && a in NewPart(before, tables, i);
      InFlatten(NewParts(before, tables), i, a);
    }
    OnceEach(Flatten(NewParts(before, tables)), addresses);
  }

  /** The address is new in some table that carries both tags. */
  predicate PlacedIn(before: seq<Entry>, tables: seq<Entry>, program: Pubkey, airspace: Pubkey, address: Pubkey) {
    exists i :: 0 <= i < |tables| && Tagged(tables[i], program, airspace) && address in NewPart(before, tables, i)
  }

  /** What is new in the tables is exactly the given addresses, and all of it in tables that carry both tags. */
  predicate Placed(before: seq<Entry>, tables: seq<Entry>, program: Pubkey, airspace: Pubkey, addresses: set<Pubkey>) {
    && (forall a <- addresses :: PlacedIn(before, tables, program, airspace, a))
    && (forall i :: 0 <= i < |tables| ==> forall a <- NewPart(before, tables, i) :: a in addresses)
  }

  // ----------------------------------------------------- the state of the packer

  /** The registry has only grown, within capacity. */
  predicate Kept(before: seq<Entry>, tables: seq<Entry>, program: Pubkey, airspace: Pubkey) {
    DistinctLookups(tables) && Packing(before, tables, program, airspace) && Grown(before, tables)
  }

  /** The addresses placed and the tables still to create add up. */
  predicate Counted(before: seq<Entry>, tables: seq<Entry>, wanted: nat, left: nat, program: Pubkey, airspace: Pubkey) {
    && |before| <= |tables|
    && Added(before, tables) == wanted - left
    && |tables| - |before| + NewTables(left, Spare(tables, program, airspace)) ==
       NewTables(wanted, Spare(before, program, airspace))
  }

  /** The plan so far does on the chain what was done in memory. */
  predicate Planned(before: seq<Entry>, tables: seq<Entry>, steps: seq<PlanStep>, program: Pubkey, airspace: Pubkey) {
    Replay(before, steps) == tables && forall s <- steps :: FitsTransaction(s, program, airspace)
  }

  lemma CountOfRest(s: set<Pubkey>, t: set<Pubkey>)
    requires t <= s
    ensures |s - t| == |s| - |t|
  {
    assert s == (s - t) + t;
  }

  lemma TakenOnce(left: set<Pubkey>, left': set<Pubkey>, taken: seq<Pubkey>)
    requires Members(taken) <= left
    requires left' == left - Members(taken) && |left'| == |left| - |taken|
    ensures multiset(taken) == multiset(left - left')
  {
    assert left - left' == Members(taken);
    assert left == left' + (left - left');
    OnceEach(taken, left - left');
  }

  lemma KeptByAppend(before: seq<Entry>, tables: seq<Entry>, program: Pubkey, airspace: Pubkey, i: nat,
                     taken: seq<Pubkey>)
    requires Kept(before, tables, program, airspace)
    requires i < |tables| && Eligible(tables[i], program, airspace) && |taken| <= CAPACITY - |tables[i].addresses|
    ensures Kept(before, tables[i := Extend(tables[i], taken)], program, airspace)
    ensures Grown(tables, tables[i := Extend(tables[i], taken)])
  {
  }

  lemma KeptByCreation(before: seq<Entry>, tables: seq<Entry>, program: Pubkey, airspace: Pubkey, lookup: Pubkey)
    requires Kept(before, tables, program, airspace) && forall e <- tables :: e.lookupAddress != lookup
    ensures Kept(before, tables + [Entry(0, lookup, [program, airspace])], program, airspace)
    ensures Grown(tables, tables + [Entry(0, lookup, [program, airspace])])
  {
  }

  lemma CountedByAppend(before: seq<Entry>, tables: seq<Entry>, wanted: nat, left: nat,
                        program: Pubkey, airspace: Pubkey, i: nat, taken: seq<Pubkey>)
    requires Counted(before, tables, wanted, left, program, airspace) && |taken| <= left
    requires i < |tables| && Eligible(tables[i], program, airspace) && |taken| <= CAPACITY - |tables[i].addresses|
    ensures Counted(before, tables[i := Extend(tables[i], taken)], wanted, left - |taken|, program, airspace)
  {
    SpareAfterChange(tables, i, Extend(tables[i], taken), program, airspace);
    AddedByChange(before, tables, i, Extend(tables[i], taken));
  }

  lemma CountedByCreation(before: seq<Entry>, tables: seq<Entry>, wanted: nat, left: nat,
                          program: Pubkey, airspace: Pubkey, lookup: Pubkey)
    requires Counted(before, tables, wanted, left, program, airspace) && left > 0
    requires FirstEligible(tables, program, airspace) == |tables|
    ensures Counted(before, tables + [Entry(0, lookup, [program, airspace])], wanted, left, program, airspace)
  {
    var e := Entry(0, lookup, [program, airspace]);
    NoSpareWithoutEligible(tables, program, airspace);
    SpareOfOneMore(tables, e, program, airspace);
    OneTableLess(left);
    AddedByTable(before, tables, e);
  }

  lemma NewPartAfterAppend(before: seq<Entry>, tables: seq<Entry>, program: Pubkey, airspace: Pubkey,
                           i: nat, taken: seq<Pubkey>)
    requires Kept(before, tables, program, airspace) && i < |tables|
    ensures var tables' := tables[i := Extend(tables[i], taken)];
            forall j :: 0 <= j < |tables| ==>
              NewPart(before, tables', j) == NewPart(before, tables, j) + (if j == i then taken else [])
  {
  }

  lemma PlacedByAppend(before: seq<Entry>, tables: seq<Entry>, placed: set<Pubkey>, program: Pubkey, airspace: Pubkey,
                       i: nat, taken: seq<Pubkey>, placed': set<Pubkey>)
    requires Kept(before, tables, program, airspace) && Placed(before, tables, program, airspace, placed)
    requires i < |tables| && Eligible(tables[i], program, airspace)
    requires placed' == placed + Members(taken)
    ensures Placed(before, tables[i := Extend(tables[i], taken)], program, airspace, placed')
  {
    var tables' := tables[i := Extend(tables[i], taken)];
    NewPartAfterAppend(before, tables, program, airspace, i, taken);
    forall a | a in placed' ensures PlacedIn(before, tables', program, airspace, a) {
      if a in placed {
        StaysPlaced(before, tables, tables', program, airspace, a);
      } else {
        assert Tagged(tables'[i], program, airspace) && a in NewPart(before, tables', i);
      }
    }
  }

  lemma StaysPlaced(before: seq<Entry>, tables: seq<Entry>, tables': seq<Entry>, program: Pubkey, airspace: Pubkey,
                    a: Pubkey)
    requires PlacedIn(before, tables, program, airspace, a) && |tables| <= |tables'|
    requires forall j :: 0 <= j < |tables| ==>
               tables[j].addresses <= tables'[j].addresses && NewPart(before, tables, j) <= NewPart(before, tables', j)
    ensures PlacedIn(before, tables', program, airspace, a)
  {
    var j :| 0 <= j < |tables| && Tagged(tables[j], program, airspace) && a in NewPart(before, tables, j);
    assert Tagged(tables'[j], program, airspace) && a in NewPart(before, tables', j);
  }

  lemma PlacedByCreation(before: seq<Entry>, tables: seq<Entry>, placed: set<Pubkey>, program: Pubkey, airspace: Pubkey,
                         lookup: Pubkey)
    requires |before| <= |tables| && Placed(before, tables, program, airspace, placed)
    ensures Placed(before, tables + [Entry(0, lookup, [program, airspace])], program, airspace, placed)
  {
    var tables' := tables + [Entry(0, lookup, [program, airspace])];
    assert forall j | 0 <= j < |tables| :: NewPart(before, tables', j) == NewPart(before, tables, j);
    forall a | a in placed ensures PlacedIn(before, tables', program, airspace, a) {
      StaysPlaced(before, tables, tables', program, airspace, a);
    }
  }

  lemma PlannedOneMore(before: seq<Entry>, tables: seq<Entry>, steps: seq<PlanStep>, step: PlanStep,
                       program: Pubkey, airspace: Pubkey)
    requires Planned(before, tables, steps, program, airspace) && FitsTransaction(step, program, airspace)
    ensures Planned(before, Execute(tables, step), steps + [step], program, airspace)
  {
    ReplayMore(before, steps, step);
  }
}
