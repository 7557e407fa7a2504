/**
 Program invocations as a state machine over the call stack, and as executions
 of whole call trees, with the marks the margin program keeps in its accounts.
 */
module CallStacks {
  import opened InvocationMarks

  type AccountId = nat

  /** A running or plainly calling instruction, or a margin instruction inside its adapter call. */
  datatype Frame = Running | Invoking(account: AccountId)

  /** The frame at height h is stack[h - 1]; an account not in the map has never been marked. */
  datatype Machine = Machine(stack: seq<Frame>, marks: map<AccountId, bv8>)

  datatype Step =
    | Call
    | InvokeAdapter(account: AccountId)
    | Return

  /** The deepest stack of which every height fits the marks and their look-up. */
  const MAX_HEIGHT: nat := 8

  function MarksOf(s: Machine, a: AccountId): bv8 {
    if a in s.marks then s.marks[a] else 0
  }

  function Top(s: Machine): nat
    requires s.stack != []
  {
    |s.stack| - 1
  }

  /** One step of a runtime with the given height limit, or None when the transaction aborts. */
  datatype Outcome = Aborted | Proceeds(next: Machine)

  function Effect(s: Machine, step: Step, limit: nat): Outcome {
    if s.stack == [] then Aborted
    else match step
      case Call =>
        if |s.stack| >= limit then Aborted
        else Proceeds(s.(stack := s.stack + [Running]))
      case InvokeAdapter(a) =>
        var height := |s.stack|;
        if !(Byte(height) <= 7) || height >= limit then Aborted
        else Proceeds(Machine(s.stack[Top(s) := Invoking(a)] + [Running],
                              s.marks[a := Insert(MarksOf(s, a), Byte(height))]))
      case Return =>
        if |s.stack| == 1 then Proceeds(s.(stack := []))
        else
          var caller := |s.stack| - 1;
          match s.stack[caller - 1]
          case Running => Proceeds(s.(stack := s.stack[..caller]))
          case Invoking(a) =>
            Proceeds(Machine(s.stack[..caller][caller - 1 := Running],
                             s.marks[a := Remove(MarksOf(s, a), Byte(caller))]))
  }

  /** The machine after a run, or Aborted. */
  function Run(s: Machine, steps: seq<Step>, limit: nat): Outcome
    decreases |steps|
  {
    if steps == [] then Proceeds(s)
    else
      match Effect(s, steps[0], limit)
      case Aborted => Aborted
      case Proceeds(next) => Run(next, steps[1..], limit)
  }

  /** A transaction starts with one instruction and no marks. */
  const START: Machine := Machine([Running], map[])

  /** The frame of the given height is inside an adapter call through the account. */
  predicate InvokingAt(s: Machine, a: AccountId, height: nat) {
    1 <= height <= |s.stack| && s.stack[height - 1] == Invoking(a)
  }

  /** An account's marks are set exactly at the heights of its adapter calls. */
  ghost predicate MarksAgree(s: Machine) {
    forall a: AccountId, h: nat :: h < 8 ==> (Marked(MarksOf(s, a), h) <==> InvokingAt(s, a, h))
  }

  /** The top frame runs, and the stack is within the limit. */
  predicate WellFormed(s: Machine, limit: nat) {
    |s.stack| <= limit && (s.stack != [] ==> s.stack[|s.stack| - 1] == Running)
  }

  /**
   A call needs a height to spare and puts a frame on the stack; an adapter call
   also needs a height that can be marked, and says so in the frame it leaves; a
   return always succeeds and takes a frame off, ending the call that made it.
   */
  lemma StepSucceedsExactly(s: Machine, step: Step, limit: nat)
    requires s.stack != [] && s.stack[Top(s)] == Running && limit <= 256
    ensures match step
            case Call =>
              (Effect(s, step, limit).Proceeds? <==> |s.stack| < limit) &&
              (|s.stack| < limit ==> Effect(s, step, limit).next == Machine(s.stack + [Running], s.marks))
            case InvokeAdapter(a) =>
              (Effect(s, step, limit).Proceeds? <==> |s.stack| < limit && |s.stack| <= 7) &&
              (|s.stack| < limit && |s.stack| <= 7 ==>
                var s' := Effect(s, step, limit).next;
                s'.stack == s.stack[..Top(s)] + [Invoking(a), Running] &&
                forall b :: b != a ==> MarksOf(s', b) == MarksOf(s, b))
            case Return =>
              Effect(s, step, limit).Proceeds? &&
              var s' := Effect(s, step, limit).next;
              |s'.stack| == Top(s) && (Top(s) > 0 ==> s'.stack == s.stack[..Top(s) - 1] + [Running])
  {
    if step.InvokeAdapter? && |s.stack| < limit {
      ByteOfHeight(|s.stack|);
      assert s.stack[Top(s) := Invoking(step.account)] == s.stack[..Top(s)] + [Invoking(step.account)];
    }
  }

  lemma ByteOfHeight(height: nat)
    requires height < 256
    ensures Byte(height) <= 7 <==> height <= 7
  {
  }

  lemma StepKeepsAgreement(s: Machine, step: Step, limit: nat)
    requires MarksAgree(s) && WellFormed(s, limit) && limit <= MAX_HEIGHT
    requires Effect(s, step, limit).Proceeds?
    ensures var s' := Effect(s, step, limit).next; MarksAgree(s') && WellFormed(s', limit)
  {
    match step
    case Call => AgreementKept(s, Effect(s, step, limit).next);
    case InvokeAdapter(a) => InvokeKeepsAgreement(s, a, limit);
    case Return => ReturnKeepsAgreement(s, limit);
  }

  lemma InvokeKeepsAgreement(s: Machine, a: AccountId, limit: nat)
    requires MarksAgree(s) && WellFormed(s, limit) && limit <= MAX_HEIGHT
    requires Effect(s, InvokeAdapter(a), limit).Proceeds?
    ensures MarksAgree(Effect(s, InvokeAdapter(a), limit).next)
  {
    var height := |s.stack|;
    var s' := Effect(s, InvokeAdapter(a), limit).next;
    ChangedMarks(MarksOf(s, a), height);
    OthersMarked(s, s', a, height, Insert(MarksOf(s, a), Byte(height)));
    OthersInvoking(s, s', height, Invoking(a));
    AgreementAfterChange(s, s', a, height);
  }

  lemma ReturnKeepsAgreement(s: Machine, limit: nat)
    requires MarksAgree(s) && WellFormed(s, limit) && limit <= MAX_HEIGHT
    requires Effect(s, Return, limit).Proceeds?
    ensures MarksAgree(Effect(s, Return, limit).next)
  {
    var height := |s.stack|;
    var s' := Effect(s, Return, limit).next;
    if height >= 2 && s.stack[height - 2].Invoking? {
      ReturnFromAdapter(s, s', s.stack[height - 2].account);
    } else {
      AgreementKept(s, s');
    }
  }

  lemma ReturnFromAdapter(s: Machine, s': Machine, a: AccountId)
    requires MarksAgree(s) && 2 <= |s.stack| <= MAX_HEIGHT && s.stack[Top(s)] == Running
    requires s.stack[Top(s) - 1] == Invoking(a)
    requires s'.stack == s.stack[..Top(s)][Top(s) - 1 := Running]
    requires s'.marks == s.marks[a := Remove(MarksOf(s, a), Byte(Top(s)))]
    ensures MarksAgree(s')
  {
    ChangedMarks(MarksOf(s, a), Top(s));
    OthersMarked(s, s', a, Top(s), Remove(MarksOf(s, a), Byte(Top(s))));
    OthersInvoking(s, s', Top(s), Running);
    AgreementAfterChange(s, s', a, Top(s));
  }

  /** A new byte of one account that differs in one mark changes no other mark of any account. */
  lemma OthersMarked(s: Machine, s': Machine, a: AccountId, height: nat, bits: bv8)
    requires s'.marks == s.marks[a := bits]
    requires forall h: nat :: h < 8 && h != height ==> (Marked(bits, h) <==> Marked(MarksOf(s, a), h))
    ensures forall b: AccountId, h: nat :: h < 8 && (b != a || h != height) ==>
              (Marked(MarksOf(s', b), h) <==> Marked(MarksOf(s, b), h))
  {
    forall b: AccountId, h: nat | h < 8 && (b != a || h != height)
      ensures Marked(MarksOf(s', b), h) <==> Marked(MarksOf(s, b), h)
    {
      assert MarksOf(s', b) == if b == a then bits else MarksOf(s, b);
    }
  }

  /** A new frame at one height, with none but a running one above it before and after, changes no other frame. */
  lemma OthersInvoking(s: Machine, s': Machine, height: nat, frame: Frame)
    requires 1 <= height <= |s.stack| && height <= |s'.stack|
    requires s'.stack[..height] == s.stack[..height][height - 1 := frame]
    requires forall i :: height <= i < |s.stack| ==> s.stack[i] == Running
    requires forall i :: height <= i < |s'.stack| ==> s'.stack[i] == Running
    ensures forall b: AccountId, h: nat :: h != height ==> (InvokingAt(s', b, h) <==> InvokingAt(s, b, h))
  {
    forall b: AccountId, h: nat | h != height
      ensures InvokingAt(s', b, h) <==> InvokingAt(s, b, h)
    {
      if 1 <= h < height {
        assert s'.stack[..height][h - 1] == s.stack[..height][h - 1];
      }
    }
  }

  /** Marks and frames may change together at one height, for one account. */
  lemma AgreementAfterChange(s: Machine, s': Machine, a: AccountId, height: nat)
    requires MarksAgree(s) && 1 <= height < 8
    requires forall b: AccountId, h: nat :: h < 8 && (b != a || h != height) ==>
               (Marked(MarksOf(s', b), h) <==> Marked(MarksOf(s, b), h))
    requires forall b: AccountId, h: nat :: h != height ==> (InvokingAt(s', b, h) <==> InvokingAt(s, b, h))
    requires forall b: AccountId :: b != a ==> !InvokingAt(s', b, height) && !InvokingAt(s, b, height)
    requires Marked(MarksOf(s', a), height) <==> InvokingAt(s', a, height)
    ensures MarksAgree(s')
  {
    forall b: AccountId, h: nat | h < 8
      ensures Marked(MarksOf(s', b), h) <==> InvokingAt(s', b, h)
    {
      assert Marked(MarksOf(s, b), h) <==> InvokingAt(s, b, h);
    }
  }

  /** Running frames may come and go above all others. */
  lemma AgreementKept(s: Machine, s': Machine)
    requires MarksAgree(s) && s'.marks == s.marks
    requires forall b: AccountId, h: nat :: InvokingAt(s', b, h) <==> InvokingAt(s, b, h)
    ensures MarksAgree(s')
  {
    forall b: AccountId, h: nat | h < 8
      ensures Marked(MarksOf(s', b), h) <==> InvokingAt(s', b, h)
    {
      assert Marked(MarksOf(s, b), h) <==> InvokingAt(s, b, h);
    }
  }

  lemma {:induction false} RunKeepsAgreement(s: Machine, steps: seq<Step>, limit: nat)
    requires MarksAgree(s) && WellFormed(s, limit) && limit <= MAX_HEIGHT
    requires Run(s, steps, limit).Proceeds?
    ensures var s' := Run(s, steps, limit).next; MarksAgree(s') && WellFormed(s', limit)
    decreases |steps|
  {
    if steps != [] {
      StepKeepsAgreement(s, steps[0], limit);
      RunKeepsAgreement(Effect(s, steps[0], limit).next, steps[1..], limit);
    }
  }

  /** What an instruction running at the top of the stack reads from an account's marks. */
  predicate ReadsDirectlyInvoked(s: Machine, a: AccountId) {
    |s.stack| != 0 && Contains(MarksOf(s, a), Byte(|s.stack|) - 1)
  }

  lemma StartAgrees()
    ensures MarksAgree(START)
  {
    forall a: AccountId, h: nat | h < 8
      ensures !Marked(MarksOf(START, a), h)
    {
      SmallBytes(h);
      NoMarks(Byte(h));
    }
  }

  lemma NoMarks(n: bv8)
    ensures !Contains(0, n)
  {
  }

  /**
   In every reachable state, the running instruction finds itself directly
   invoked through an account exactly when its caller is inside an adapter call
   through that account, whatever calls are nested above or below.
   */
  lemma DirectlyInvokedIsExact(steps: seq<Step>, limit: nat, a: AccountId)
    requires limit <= MAX_HEIGHT && 1 <= limit
    requires Run(START, steps, limit).Proceeds?
    ensures var s := Run(START, steps, limit).next;
            ReadsDirectlyInvoked(s, a) <==> |s.stack| >= 2 && s.stack[|s.stack| - 2] == Invoking(a)
  {
    StartAgrees();
    RunKeepsAgreement(START, steps, limit);
    ReadingIsExact(Run(START, steps, limit).next, a);
  }

  lemma ReadingIsExact(s: Machine, a: AccountId)
    requires MarksAgree(s) && |s.stack| <= MAX_HEIGHT
    ensures ReadsDirectlyInvoked(s, a) <==> |s.stack| >= 2 && s.stack[|s.stack| - 2] == Invoking(a)
  {
    if s.stack != [] {
      CallerMark(MarksOf(s, a), |s.stack|);
      assert Marked(MarksOf(s, a), |s.stack| - 1) <==> InvokingAt(s, a, |s.stack| - 1);
    }
  }

  /**
   The marks are a function of the stack: any run that comes back to the same
   stack, such as a completed adapter call, has restored every account's byte.
   */
  lemma SameStackSameMarks(s: Machine, steps: seq<Step>, limit: nat, a: AccountId)
    requires MarksAgree(s) && WellFormed(s, limit) && limit <= MAX_HEIGHT
    requires Run(s, steps, limit).Proceeds? && Run(s, steps, limit).next.stack == s.stack
    ensures MarksOf(Run(s, steps, limit).next, a) == MarksOf(s, a)
  {
    RunKeepsAgreement(s, steps, limit);
    var s' := Run(s, steps, limit).next;
    forall h: nat | h < 8
      ensures Marked(MarksOf(s, a), h) <==> Marked(MarksOf(s', a), h)
    {
    }
    MarksDetermineByte(MarksOf(s, a), MarksOf(s', a));
  }

  // ---------------------------------------------------------------- call trees

  /** An instruction and the calls it makes in turn; each may go through the adapter bracket of one margin account. */
  datatype CallTree = CallTree(throughAdapter: bool, calls: seq<CallTree>)

  /** What the instructions of a tree should read on entry and after each of their calls. */
  function Readings(t: CallTree): seq<bool>
    decreases t
  {
    [t.throughAdapter] + ReadingsOfCalls(t.throughAdapter, t.calls)
  }

  function ReadingsOfCalls(direct: bool, calls: seq<CallTree>): seq<bool>
    decreases calls
  {
    if calls == [] then []
    else ReadingsOfCalls(direct, calls[..|calls| - 1]) + Readings(calls[|calls| - 1]) + [direct]
  }

  function Depth(t: CallTree): nat {
    1 + DepthOfCalls(t.calls)
  }

  function DepthOfCalls(calls: seq<CallTree>): nat {
    if calls == [] then 0
    else
      var d, e := DepthOfCalls(calls[..|calls| - 1]), Depth(calls[|calls| - 1]);
      if d >= e then d else e
  }

  /** The marks below a height say who its caller is, and there are none at or above it. */
  ghost predicate MarksFor(bits: bv8, height: nat, direct: bool) {
    1 <= height <= MAX_HEIGHT && (Marked(bits, height - 1) <==> direct) &&
    forall h: nat :: height <= h < 8 ==> !Marked(bits, h)
  }

  /**
   Run an instruction and its calls on a margin account. It fails exactly when
   the tree is too deep; otherwise every reading is the truth and the mark byte
   is left as it was found.
   */
  method Execute(account: Invocation, t: CallTree, height: nat, limit: nat) returns (ok: bool, readings: seq<bool>)
    requires MarksFor(account.callerHeights, height, t.throughAdapter) && height <= limit <= MAX_HEIGHT
    modifies account
    ensures ok <==> height + Depth(t) - 1 <= limit
    ensures ok ==> readings == Readings(t) && account.callerHeights == old(account.callerHeights)
    decreases t, 0
  {
    var direct := Read(account, t.throughAdapter, height);
    readings := [direct];
    for i := 0 to |t.calls|
      invariant account.callerHeights == old(account.callerHeights)
      invariant readings == [direct] + ReadingsOfCalls(direct, t.calls[..i])
      invariant height + DepthOfCalls(t.calls[..i]) <= limit
    {
      CallsOneMore(direct, t.calls, i);
      var nested;
      ok, nested := Perform(account, t.calls[i], height, limit);
      if !ok { return; }
      var again := Read(account, t.throughAdapter, height);
      InOrder([direct], ReadingsOfCalls(direct, t.calls[..i]), nested, [again]);
      readings := readings + nested + [again];
    }
    assert t.calls[..|t.calls|] == t.calls;
    ok := true;
  }

  lemma InOrder(a: seq<bool>, b: seq<bool>, c: seq<bool>, d: seq<bool>)
    ensures a + b + c + d == a + (b + c + d)
  {
  }

  method Read(account: Invocation, ghost direct: bool, height: nat) returns (reading: bool)
    requires MarksFor(account.callerHeights, height, direct)
    ensures reading == direct
  {
    CallerMark(account.callerHeights, height);
    reading := account.DirectlyInvoked(height);
  }

  /** One call: through the adapter it is bracketed by start and end, otherwise it is made as it is. */
  method Perform(account: Invocation, t: CallTree, height: nat, limit: nat) returns (ok: bool, readings: seq<bool>)
    requires 1 <= height <= limit <= MAX_HEIGHT
    requires MarksFor(account.callerHeights, height, Marked(account.callerHeights, height - 1))
    modifies account
    ensures ok <==> height + Depth(t) <= limit
    ensures ok ==> readings == Readings(t) && account.callerHeights == old(account.callerHeights)
    decreases t, 1
  {
    readings := [];
    if height == limit { return false, []; }
    SmallBytes(height);
    if t.throughAdapter {
      Bracket(account.callerHeights, height);
      ok := account.Start(height);
    }
    ok, readings := Execute(account, t, height + 1, limit);
    if ok && t.throughAdapter {
      account.End(height);
    }
  }

  /** Setting the mark of an unmarked height makes the callee direct, and clearing it restores the byte. */
  lemma Bracket(bits: bv8, height: nat)
    requires 1 <= height < MAX_HEIGHT && forall h: nat :: height <= h < 8 ==> !Marked(bits, h)
    ensures MarksFor(Insert(bits, Byte(height)), height + 1, true)
    ensures Remove(Insert(bits, Byte(height)), Byte(height)) == bits
  {
    var during := Insert(bits, Byte(height));
    ChangedMarks(bits, height);
    ChangedMarks(during, height);
    forall h: nat | h < 8
      ensures Marked(Remove(during, Byte(height)), h) <==> Marked(bits, h)
    {
      assert Marked(during, h) <==> h == height || Marked(bits, h);
    }
    MarksDetermineByte(Remove(during, Byte(height)), bits);
  }

  lemma CallsOneMore(direct: bool, calls: seq<CallTree>, i: nat)
    requires i < |calls|
    ensures ReadingsOfCalls(direct, calls[..i + 1]) ==
            ReadingsOfCalls(direct, calls[..i]) + Readings(calls[i]) + [direct]
    ensures DepthOfCalls(calls[..i + 1]) <= DepthOfCalls(calls)
    ensures DepthOfCalls(calls[..i + 1]) ==
            if DepthOfCalls(calls[..i]) >= Depth(calls[i]) then DepthOfCalls(calls[..i]) else Depth(calls[i])
  {
    assert calls[..i + 1][..i] == calls[..i];
    DepthGrows(calls, i + 1);
  }

  lemma {:induction false} DepthGrows(calls: seq<CallTree>, i: nat)
    requires i <= |calls|
    ensures DepthOfCalls(calls[..i]) <= DepthOfCalls(calls)
    decreases |calls| - i
  {
    if i < |calls| {
      assert calls[..i + 1][..i] == calls[..i];
      DepthGrows(calls, i + 1);
    } else {
      assert calls[..i] == calls;
    }
  }
}
