/** internal/engine/engine.go, lines 458-574: one phase runs every step in its own goroutine. */
module Scheduler {
  // A goroutine waits for the `done` channels of its needs, then skips or executes its step,
  // publishes the result by closing its own channel, and returns to the errgroup, which cancels
  // the phase on the first error.  The phase is a transition system; every interleaving of the
  // goroutines is a run of it.

  import opened Steps

  /** What plugin lookup, `run_if`, target resolution and the plugin itself decide for a step. */
  datatype Outcome = Succeeds | ExecuteFails | Skipped | EarlyError
  type Oracle = Name -> Outcome

  predicate Good(o: Outcome) { o.Succeeds? || o.Skipped? }

  datatype Pc =
    | Waiting(k: nat)        // has seen needs 0..k-1 succeed
    | Executing
    | Closing(ok: bool)      // `done` is closed, the goroutine has yet to return
    | Returned(ok: bool)     // the errgroup has the result

  /** `closed` holds the closed channels with whether the published error was nil;
      `parent` says that the context handed to Run was cancelled, `failed` that the
      errgroup has recorded an error; `executed` remembers whose Execute was called. */
  datatype Phase = Phase(
    pcs: seq<Pc>,
    closed: map<Name, bool>,
    parent: bool,
    failed: bool,
    executed: set<Name>
  )

  predicate Cancelled(s: Phase) { s.parent || s.failed }

  datatype Action =
    | Observe(i: nat)              // receive from the channel of the current need
    | Abandon(i: nat)              // receive from egCtx.Done() instead
    | Unknown(i: nat)              // the current need has no state
    | Begin(i: nat)                // all needs seen: skip, execute or report an early error
    | Finish(i: nat, ok: bool)     // Execute came back
    | Return(i: nat)
    | CancelParent

  function Initial(steps: seq<Step>, parent: bool): Phase {
    Phase(seq(|steps|, i => Waiting(0)), map[], parent, false, {})
  }

  /** The need goroutine `i` is waiting for. */
  predicate AtNeed(steps: seq<Step>, s: Phase, i: nat) {
    i < |steps| == |s.pcs| && s.pcs[i].Waiting? && s.pcs[i].k < |steps[i].needs|
  }

  function CurrentNeed(steps: seq<Step>, s: Phase, i: nat): Name
    requires AtNeed(steps, s, i)
  {
    steps[i].needs[s.pcs[i].k]
  }

  predicate PastNeeds(steps: seq<Step>, s: Phase, i: nat) {
    i < |steps| == |s.pcs| && s.pcs[i].Waiting? && s.pcs[i].k == |steps[i].needs|
  }

  predicate Enabled(steps: seq<Step>, oracle: Oracle, s: Phase, a: Action) {
    match a
    case Observe(i) => AtNeed(steps, s, i) && CurrentNeed(steps, s, i) in s.closed
    case Abandon(i) => AtNeed(steps, s, i) && Cancelled(s)
    case Unknown(i) => AtNeed(steps, s, i) && !Declared(steps, CurrentNeed(steps, s, i))
    case Begin(i) => PastNeeds(steps, s, i)
    // a plugin may also give up because the phase was cancelled under it
    case Finish(i, ok) =>
      && i < |steps| == |s.pcs| && s.pcs[i].Executing?
      && (ok == oracle(steps[i].name).Succeeds? || (!ok && Cancelled(s)))
    case Return(i) => i < |steps| == |s.pcs| && s.pcs[i].Closing?
    case CancelParent => !s.parent
  }

  function GiveBack(s: Phase, i: nat, ok: bool): Phase
    requires i < |s.pcs|
  {
    s.(pcs := s.pcs[i := Returned(ok)], failed := s.failed || !ok)
  }

  function Publish(s: Phase, i: nat, n: Name, ok: bool): Phase
    requires i < |s.pcs|
  {
    s.(pcs := s.pcs[i := Closing(ok)], closed := s.closed[n := ok])
  }

  function Apply(steps: seq<Step>, oracle: Oracle, s: Phase, a: Action): Phase
    requires Enabled(steps, oracle, s, a)
  {
    match a
    case Observe(i) =>
      if s.closed[CurrentNeed(steps, s, i)] then s.(pcs := s.pcs[i := Waiting(s.pcs[i].k + 1)])
      else GiveBack(s, i, false)
    case Abandon(i) => GiveBack(s, i, false)
    case Unknown(i) => GiveBack(s, i, false)
    case Begin(i) =>
      (match oracle(steps[i].name)
       case EarlyError => GiveBack(s, i, false)
       case Skipped => Publish(s, i, steps[i].name, true)
       case _ => s.(pcs := s.pcs[i := Executing], executed := s.executed + {steps[i].name}))
    case Finish(i, ok) => Publish(s, i, steps[i].name, ok)
    case Return(i) => GiveBack(s, i, s.pcs[i].ok)
    case CancelParent => s.(parent := true)
  }

  predicate AllReturned(s: Phase) {
    forall i :: 0 <= i < |s.pcs| ==> s.pcs[i].Returned?
  }

  // ---------------------------------------------------------------- runs

  ghost predicate Next(steps: seq<Step>, oracle: Oracle, s: Phase, s': Phase) {
    exists a :: Enabled(steps, oracle, s, a) && s' == Apply(steps, oracle, s, a)
  }

  ghost predicate IsRun(steps: seq<Step>, oracle: Oracle, run: seq<Phase>) {
    && run != []
    && (run[0] == Initial(steps, false) || run[0] == Initial(steps, true))
    && forall t :: 0 <= t < |run| - 1 ==> Next(steps, oracle, run[t], run[t + 1])
  }

  ghost predicate Reachable(steps: seq<Step>, oracle: Oracle, s: Phase) {
    exists run :: IsRun(steps, oracle, run) && run[|run| - 1] == s
  }

  // ---------------------------------------------------------------- the invariant

  ghost predicate NeedsClosedOk(needs: seq<Name>, closed: map<Name, bool>) {
    forall d :: d in needs ==> d in closed && closed[d]
  }

  /** What is known about goroutine `i`. */
  ghost predicate GoroutineInv(steps: seq<Step>, s: Phase, i: nat)
    requires i < |steps| == |s.pcs|
  {
    var n := steps[i].name;
    match s.pcs[i]
    case Waiting(k) => k <= |steps[i].needs| && NeedsClosedOk(steps[i].needs[..k], s.closed) && n !in s.closed && n !in s.executed
    case Executing => NeedsClosedOk(steps[i].needs, s.closed) && n !in s.closed
    case Closing(ok) => NeedsClosedOk(steps[i].needs, s.closed) && n in s.closed && s.closed[n] == ok
    case Returned(ok) =>
      if ok then NeedsClosedOk(steps[i].needs, s.closed) && n in s.closed && s.closed[n]
      else s.failed && (n in s.closed ==> NeedsClosedOk(steps[i].needs, s.closed) && !s.closed[n]) && (n in s.executed ==> n in s.closed)
  }

  ghost predicate Inv(steps: seq<Step>, s: Phase) {
    && |s.pcs| == |steps|
    && (forall i: nat :: i < |steps| ==> GoroutineInv(steps, s, i))
    && (forall n :: n in s.closed ==> Declared(steps, n))
    && (forall n :: n in s.executed ==> Declared(steps, n))
    && (s.failed ==> exists i: nat :: i < |steps| && s.pcs[i] == Returned(false))
  }

  /** Nothing that happens elsewhere disturbs a goroutine. */
  lemma GoroutineStable(steps: seq<Step>, s: Phase, s': Phase, i: nat)
    requires i < |steps| == |s.pcs| == |s'.pcs| && GoroutineInv(steps, s, i)
    requires s'.pcs[i] == s.pcs[i] && (s.failed ==> s'.failed)
    requires forall n :: n in s.closed ==> n in s'.closed && s'.closed[n] == s.closed[n]
    requires (steps[i].name in s'.closed ==> steps[i].name in s.closed)
    requires (steps[i].name in s'.executed ==> steps[i].name in s.executed)
    ensures GoroutineInv(steps, s', i)
  {
  }

  ghost predicate Mover(a: Action, i: nat) {
    match a
    case CancelParent => false
    case Observe(j) => i == j
    case Abandon(j) => i == j
    case Unknown(j) => i == j
    case Begin(j) => i == j
    case Finish(j, _) => i == j
    case Return(j) => i == j
  }

  lemma MoverInv(steps: seq<Step>, oracle: Oracle, s: Phase, a: Action, i: nat)
    requires Inv(steps, s) && Enabled(steps, oracle, s, a) && i < |steps| && Mover(a, i)
    ensures |Apply(steps, oracle, s, a).pcs| == |steps|
    ensures GoroutineInv(steps, Apply(steps, oracle, s, a), i)
  {
    assert GoroutineInv(steps, s, i);
    if a.Observe? {
      var k := s.pcs[i].k;
      assert steps[i].needs[..k + 1] == steps[i].needs[..k] + [steps[i].needs[k]];
    }
    if a.Begin? {
      assert steps[i].needs[..s.pcs[i].k] == steps[i].needs;
    }
  }

  lemma Untouched(steps: seq<Step>, oracle: Oracle, s: Phase, a: Action, i: nat)
    requires DistinctNames(steps) && Inv(steps, s) && Enabled(steps, oracle, s, a) && i < |steps| && !Mover(a, i)
    ensures var s' := Apply(steps, oracle, s, a);
      && |s'.pcs| == |steps| && s'.pcs[i] == s.pcs[i]
      && (steps[i].name in s'.closed ==> steps[i].name in s.closed)
      && (steps[i].name in s'.executed ==> steps[i].name in s.executed)
  {
    if !a.CancelParent? {
      assert Mover(a, a.i) && steps[i].name != steps[a.i].name;
    }
  }

  /** Published results stay, and so do failures and calls. */
  lemma ResultsStay(steps: seq<Step>, oracle: Oracle, s: Phase, a: Action)
    requires Inv(steps, s) && Enabled(steps, oracle, s, a)
    ensures var s' := Apply(steps, oracle, s, a);
      && (s.failed ==> s'.failed) && s.executed <= s'.executed
      && forall n :: n in s.closed ==> n in s'.closed && s'.closed[n] == s.closed[n]
  {
    if !a.CancelParent? { assert GoroutineInv(steps, s, a.i); }
  }

  lemma OthersInv(steps: seq<Step>, oracle: Oracle, s: Phase, a: Action, i: nat)
    requires DistinctNames(steps) && Inv(steps, s) && Enabled(steps, oracle, s, a) && i < |steps| && !Mover(a, i)
    ensures |Apply(steps, oracle, s, a).pcs| == |steps|
    ensures GoroutineInv(steps, Apply(steps, oracle, s, a), i)
  {
    Untouched(steps, oracle, s, a, i);
    ResultsStay(steps, oracle, s, a);
    GoroutineStable(steps, s, Apply(steps, oracle, s, a), i);
  }

  lemma InvStep(steps: seq<Step>, oracle: Oracle, s: Phase, a: Action)
    requires DistinctNames(steps) && Inv(steps, s) && Enabled(steps, oracle, s, a)
    ensures Inv(steps, Apply(steps, oracle, s, a))
  {
    var s' := Apply(steps, oracle, s, a);
    forall i: nat | i < |steps|
      ensures GoroutineInv(steps, s', i)
    {
      if Mover(a, i) { MoverInv(steps, oracle, s, a, i); } else { OthersInv(steps, oracle, s, a, i); }
    }
    if s'.failed {
      if s.failed {
        var i: nat :| i < |steps| && s.pcs[i] == Returned(false);
        assert s'.pcs[i] == Returned(false);
      } else {
        assert s'.pcs[a.i] == Returned(false);
      }
    }
  }

  lemma InitialInv(steps: seq<Step>, parent: bool)
    ensures Inv(steps, Initial(steps, parent))
  {
  }

  lemma RunStep(steps: seq<Step>, oracle: Oracle, run: seq<Phase>, t: nat)
    requires IsRun(steps, oracle, run) && 0 < t < |run|
    ensures Next(steps, oracle, run[t - 1], run[t])
  {
    assert Next(steps, oracle, run[t - 1], run[t - 1 + 1]);
  }

  lemma NextInv(steps: seq<Step>, oracle: Oracle, s: Phase, s': Phase)
    requires DistinctNames(steps) && Inv(steps, s) && Next(steps, oracle, s, s')
    ensures Inv(steps, s')
  {
    var a :| Enabled(steps, oracle, s, a) && s' == Apply(steps, oracle, s, a);
    InvStep(steps, oracle, s, a);
  }

  lemma {:induction false} RunInv(steps: seq<Step>, oracle: Oracle, run: seq<Phase>, t: nat)
    requires DistinctNames(steps) && IsRun(steps, oracle, run) && t < |run|
    ensures Inv(steps, run[t])
  {
    if t == 0 {
      InitialInv(steps, false);
      InitialInv(steps, true);
    } else {
      RunInv(steps, oracle, run, t - 1);
      RunStep(steps, oracle, run, t);
      NextInv(steps, oracle, run[t - 1], run[t]);
    }
  }

  lemma ReachableInv(steps: seq<Step>, oracle: Oracle, s: Phase)
    requires DistinctNames(steps) && Reachable(steps, oracle, s)
    ensures Inv(steps, s)
  {
    var run :| IsRun(steps, oracle, run) && run[|run| - 1] == s;
    RunInv(steps, oracle, run, |run| - 1);
  }

  lemma ReachableNext(steps: seq<Step>, oracle: Oracle, s: Phase, a: Action)
    requires Reachable(steps, oracle, s) && Enabled(steps, oracle, s, a)
    ensures Reachable(steps, oracle, Apply(steps, oracle, s, a))
  {
    var run :| IsRun(steps, oracle, run) && run[|run| - 1] == s;
    var longer := run + [Apply(steps, oracle, s, a)];
    forall t | 0 <= t < |longer| - 1
      ensures Next(steps, oracle, longer[t], longer[t + 1])
    {
      if t < |run| - 1 { assert Next(steps, oracle, run[t], run[t + 1]); }
    }
    assert IsRun(steps, oracle, longer);
  }

  // ---------------------------------------------------------------- dependency safety

  ghost predicate SucceededIn(s: Phase, n: Name) { n in s.closed && s.closed[n] }

  /** A step that succeeded, or whose Execute was called, has only succeeded needs. */
  lemma DirectNeedsSucceeded(steps: seq<Step>, s: Phase, n: Name, d: Name)
    requires DistinctNames(steps) && Inv(steps, s)
    requires SucceededIn(s, n) || n in s.executed
    requires Edge(steps, n, d)
    ensures SucceededIn(s, d)
  {
    var u :| u in steps && u.name == n && d in u.needs;
    var i: nat :| i < |steps| && steps[i] == u;
    assert GoroutineInv(steps, s, i);
  }

  lemma {:induction false} PathNeedsSucceeded(steps: seq<Step>, s: Phase, n: Name, m: Name, p: seq<Name>)
    requires DistinctNames(steps) && Inv(steps, s)
    requires SucceededIn(s, n) || n in s.executed
    requires PathFromTo(steps, p, n, m)
    ensures SucceededIn(s, m)
    decreases |p|
  {
    ReachesFirst(steps, p, n, m);
    DirectNeedsSucceeded(steps, s, n, p[1]);
    if |p| > 2 { PathNeedsSucceeded(steps, s, p[1], m, p[1..]); }
  }

  /** In every interleaving: once Execute of `n` has been called, everything `n` needs,
      however indirectly, has already finished with a nil error; and the steps that
      finished with a nil error are closed under needs. */
  lemma ExecutesAfterNeeds(steps: seq<Step>, oracle: Oracle, s: Phase, n: Name, m: Name)
    requires DistinctNames(steps) && Reachable(steps, oracle, s) && Reaches(steps, n, m)
    requires SucceededIn(s, n) || n in s.executed
    ensures SucceededIn(s, m)
  {
    ReachableInv(steps, oracle, s);
    var p :| PathFromTo(steps, p, n, m);
    PathNeedsSucceeded(steps, s, n, m, p);
  }

  /** The actions that close the channel of their own step. */
  predicate Publishes(steps: seq<Step>, oracle: Oracle, a: Action) {
    a.Finish? || (a.Begin? && a.i < |steps| && oracle(steps[a.i].name).Skipped?)
  }

  /** No channel is closed twice, and a published result is never changed. */
  lemma PublishedOnce(steps: seq<Step>, oracle: Oracle, s: Phase, a: Action)
    requires Reachable(steps, oracle, s) && DistinctNames(steps) && Enabled(steps, oracle, s, a)
    ensures Publishes(steps, oracle, a) ==> steps[a.i].name !in s.closed
    ensures var s' := Apply(steps, oracle, s, a);
      s.executed <= s'.executed && forall n :: n in s.closed ==> n in s'.closed && s'.closed[n] == s.closed[n]
  {
    ReachableInv(steps, oracle, s);
    ResultsStay(steps, oracle, s, a);
    if Publishes(steps, oracle, a) { assert GoroutineInv(steps, s, a.i); }
  }

  // ---------------------------------------------------------------- the verdict

  ghost predicate AllGood(steps: seq<Step>, oracle: Oracle) {
    forall i :: 0 <= i < |steps| ==> Good(oracle(steps[i].name))
  }

  /** Published results and calls agree with the outcomes. */
  ghost predicate Faithful(steps: seq<Step>, oracle: Oracle, s: Phase) {
    && |s.pcs| == |steps|
    && (forall n :: SucceededIn(s, n) ==> Good(oracle(n)) && (oracle(n).Succeeds? ==> n in s.executed))
    && (forall n :: n in s.executed ==> oracle(n).Succeeds? || oracle(n).ExecuteFails?)
    && (forall i :: 0 <= i < |steps| && s.pcs[i].Executing? ==> steps[i].name in s.executed)
  }

  ghost predicate ResultsFit(oracle: Oracle, s: Phase) {
    forall n :: n in s.closed ==> PublishedResult(oracle(n), s.closed[n], n in s.executed, s.parent || s.failed)
  }

  /** What the channel of a step says, by what the step would do: a skipped one reports nil without
      having been executed, an early error is never published. */
  predicate PublishedResult(o: Outcome, ok: bool, executed: bool, cancelled: bool) {
    match o
    case Succeeds => executed && (ok || cancelled)
    case ExecuteFails => executed && !ok
    case Skipped => !executed && ok
    case EarlyError => false
  }

  /** Errors only arise from bad outcomes or from outside. */
  ghost predicate Clean(steps: seq<Step>, oracle: Oracle, s: Phase) {
    AllGood(steps, oracle) && !s.parent ==> !s.failed && forall n :: n in s.closed ==> s.closed[n]
  }

  ghost predicate Consistent(steps: seq<Step>, oracle: Oracle, s: Phase) {
    Faithful(steps, oracle, s) && Clean(steps, oracle, s) && ResultsFit(oracle, s)
  }

  lemma NotUnknown(steps: seq<Step>, s: Phase, i: nat)
    requires NeedsKnown(steps) && AtNeed(steps, s, i)
    ensures Declared(steps, CurrentNeed(steps, s, i))
  {
    assert steps[i] in steps && CurrentNeed(steps, s, i) in steps[i].needs;
  }

  lemma FaithfulStep(steps: seq<Step>, oracle: Oracle, s: Phase, a: Action)
    requires DistinctNames(steps) && Inv(steps, s) && Faithful(steps, oracle, s) && Enabled(steps, oracle, s, a)
    ensures Faithful(steps, oracle, Apply(steps, oracle, s, a))
  {
    if !a.CancelParent? { assert GoroutineInv(steps, s, a.i); }
  }

  lemma ResultsStep(steps: seq<Step>, oracle: Oracle, s: Phase, a: Action)
    requires DistinctNames(steps) && Inv(steps, s) && Faithful(steps, oracle, s) && ResultsFit(oracle, s) && Enabled(steps, oracle, s, a)
    ensures ResultsFit(oracle, Apply(steps, oracle, s, a))
  {
    if !a.CancelParent? { assert GoroutineInv(steps, s, a.i); }
  }

  lemma CleanStep(steps: seq<Step>, oracle: Oracle, s: Phase, a: Action)
    requires NeedsKnown(steps) && Inv(steps, s) && Consistent(steps, oracle, s) && Enabled(steps, oracle, s, a)
    ensures Clean(steps, oracle, Apply(steps, oracle, s, a))
  {
    if !a.CancelParent? {
      assert GoroutineInv(steps, s, a.i);
      if a.Unknown? { NotUnknown(steps, s, a.i); }
    }
  }

  lemma ConsistentStep(steps: seq<Step>, oracle: Oracle, s: Phase, a: Action)
    requires DistinctNames(steps) && NeedsKnown(steps)
    requires Inv(steps, s) && Consistent(steps, oracle, s) && Enabled(steps, oracle, s, a)
    ensures Consistent(steps, oracle, Apply(steps, oracle, s, a))
  {
    FaithfulStep(steps, oracle, s, a);
    ResultsStep(steps, oracle, s, a);
    CleanStep(steps, oracle, s, a);
  }

  lemma NextConsistent(steps: seq<Step>, oracle: Oracle, s: Phase, s': Phase)
    requires DistinctNames(steps) && NeedsKnown(steps)
    requires Inv(steps, s) && Consistent(steps, oracle, s) && Next(steps, oracle, s, s')
    ensures Consistent(steps, oracle, s')
  {
    var a :| Enabled(steps, oracle, s, a) && s' == Apply(steps, oracle, s, a);
    ConsistentStep(steps, oracle, s, a);
  }

  lemma {:induction false} RunConsistent(steps: seq<Step>, oracle: Oracle, run: seq<Phase>, t: nat)
    requires DistinctNames(steps) && NeedsKnown(steps) && IsRun(steps, oracle, run) && t < |run|
    ensures Consistent(steps, oracle, run[t])
  {
    if t > 0 {
      RunConsistent(steps, oracle, run, t - 1);
      RunInv(steps, oracle, run, t - 1);
      RunStep(steps, oracle, run, t);
      NextConsistent(steps, oracle, run[t - 1], run[t]);
    }
  }

  lemma ReachableConsistent(steps: seq<Step>, oracle: Oracle, s: Phase)
    requires DistinctNames(steps) && NeedsKnown(steps) && Reachable(steps, oracle, s)
    ensures Consistent(steps, oracle, s)
  {
    var run :| IsRun(steps, oracle, run) && run[|run| - 1] == s;
    RunConsistent(steps, oracle, run, |run| - 1);
  }

  /** A step downstream of one that fails or errors is never executed, in any interleaving. */
  lemma NothingDownstreamExecutes(steps: seq<Step>, oracle: Oracle, s: Phase, n: Name, m: Name)
    requires DistinctNames(steps) && NeedsKnown(steps) && Reachable(steps, oracle, s)
    requires Reaches(steps, n, m) && !Good(oracle(m))
    ensures n !in s.executed && !SucceededIn(s, n)
  {
    ReachableConsistent(steps, oracle, s);
    if n in s.executed || SucceededIn(s, n) { ExecutesAfterNeeds(steps, oracle, s, n, m); }
  }

  ghost predicate ExecutedExactly(steps: seq<Step>, oracle: Oracle, s: Phase) {
    forall n :: n in s.executed <==> Declared(steps, n) && oracle(n).Succeeds?
  }

  /** The verdict does not depend on the schedule: unless the caller cancels, a finished
      phase reports nil exactly when every step would succeed or be skipped.  With a nil
      verdict every step succeeded, and exactly the steps that were not skipped were executed. */
  lemma VerdictIndependentOfSchedule(steps: seq<Step>, oracle: Oracle, s: Phase)
    requires DistinctNames(steps) && NeedsKnown(steps)
    requires Reachable(steps, oracle, s) && AllReturned(s)
    ensures !s.failed ==> AllGood(steps, oracle)
    ensures !s.parent ==>
      (!s.failed <==> forall i :: 0 <= i < |steps| ==> oracle(steps[i].name).Succeeds? || oracle(steps[i].name).Skipped?)
    ensures !s.failed ==> forall i :: 0 <= i < |steps| ==> SucceededIn(s, steps[i].name)
    ensures !s.failed ==> ExecutedExactly(steps, oracle, s)
  {
    ReachableInv(steps, oracle, s);
    ReachableConsistent(steps, oracle, s);
    if !s.failed {
      forall i: nat | i < |steps|
        ensures SucceededIn(s, steps[i].name)
      {
        assert GoroutineInv(steps, s, i);
      }
      assert ExecutedExactly(steps, oracle, s);
    }
    assert !s.parent ==> (!s.failed <==> AllGood(steps, oracle));
  }

  /** What a published result tells, in every reachable state. */
  lemma ResultsMatchOutcomes(steps: seq<Step>, oracle: Oracle, s: Phase, n: Name)
    requires DistinctNames(steps) && NeedsKnown(steps) && Reachable(steps, oracle, s)
    ensures oracle(n).Skipped? ==> n !in s.executed && (n in s.closed ==> s.closed[n])
    ensures oracle(n).EarlyError? ==> n !in s.executed && n !in s.closed
    ensures oracle(n).ExecuteFails? && n in s.closed ==> n in s.executed && !s.closed[n]
    ensures oracle(n).Succeeds? && n in s.closed ==> n in s.executed && (s.closed[n] || s.parent || s.failed)
  {
    ReachableConsistent(steps, oracle, s);
  }

  // ---------------------------------------------------------------- outside cancellation

  /** A step that does not even wait, and is skipped at once. */
  ghost predicate SkippedAtOnce(steps: seq<Step>, oracle: Oracle, i: nat) {
    i < |steps| && steps[i].needs == [] && oracle(steps[i].name).Skipped?
  }

  /** Nothing has gone wrong in such a phase. */
  ghost predicate Calm(s: Phase) {
    !s.failed && forall i :: 0 <= i < |s.pcs| ==> s.pcs[i] == Waiting(0) || s.pcs[i] == Closing(true) || s.pcs[i] == Returned(true)
  }

  lemma CalmStep(steps: seq<Step>, oracle: Oracle, s: Phase, a: Action)
    requires forall i: nat :: i < |steps| ==> SkippedAtOnce(steps, oracle, i)
    requires Calm(s) && Enabled(steps, oracle, s, a)
    ensures Calm(Apply(steps, oracle, s, a))
  {
    if !a.CancelParent? { assert SkippedAtOnce(steps, oracle, a.i); }
  }

  lemma {:induction false} RunCalm(steps: seq<Step>, oracle: Oracle, run: seq<Phase>, t: nat)
    requires forall i: nat :: i < |steps| ==> SkippedAtOnce(steps, oracle, i)
    requires IsRun(steps, oracle, run) && t < |run|
    ensures Calm(run[t])
  {
    if t > 0 {
      RunCalm(steps, oracle, run, t - 1);
      RunStep(steps, oracle, run, t);
      var a :| Enabled(steps, oracle, run[t - 1], a) && run[t] == Apply(steps, oracle, run[t - 1], a);
      CalmStep(steps, oracle, run[t - 1], a);
    }
  }

  /** The end of a phase that was cancelled before it started. */
  ghost predicate CancelledEnd(steps: seq<Step>, oracle: Oracle, s: Phase) {
    Reachable(steps, oracle, s) && AllReturned(s) && s.parent && s.failed
  }

  lemma {:induction false} CancelOne(steps: seq<Step>, oracle: Oracle, i: nat) returns (s: Phase)
    requires DistinctNames(steps) && Topological(steps) && i < |steps| && !SkippedAtOnce(steps, oracle, i)
    ensures CancelledEnd(steps, oracle, s)
  {
    s := Initial(steps, true);
    InitialReachable(steps, oracle, true);
    if steps[i].needs != [] {
      ReachableNext(steps, oracle, s, Abandon(i));
      s := Apply(steps, oracle, s, Abandon(i));
    } else {
      ReachableNext(steps, oracle, s, Begin(i));
      s := Apply(steps, oracle, s, Begin(i));
      if !oracle(steps[i].name).EarlyError? {
        ReachableNext(steps, oracle, s, Finish(i, false));
        s := Apply(steps, oracle, s, Finish(i, false));
        ReachableNext(steps, oracle, s, Return(i));
        s := Apply(steps, oracle, s, Return(i));
      }
    }
    s := PhaseToEnd(steps, oracle, s);
  }

  /** Cancelling matters, whatever the outcomes: a cancelled phase can fail exactly when some step has
      to wait for another or is not skipped. */
  lemma {:induction false} CancelledFailsIff(steps: seq<Step>, oracle: Oracle)
    requires DistinctNames(steps) && Topological(steps)
    ensures (exists s :: CancelledEnd(steps, oracle, s)) <==>
      exists i :: 0 <= i < |steps| && (steps[i].needs != [] || !oracle(steps[i].name).Skipped?)
  {
    if i :| 0 <= i < |steps| && (steps[i].needs != [] || !oracle(steps[i].name).Skipped?) {
      var s := CancelOne(steps, oracle, i);
    } else if s :| CancelledEnd(steps, oracle, s) {
      var run :| IsRun(steps, oracle, run) && run[|run| - 1] == s;
      RunCalm(steps, oracle, run, |run| - 1);
    }
  }

  // ---------------------------------------------------------------- progress

  /** A moving goroutine other than one blocked in the select. */
  predicate CanMove(steps: seq<Step>, s: Phase, i: nat) {
    && i < |steps| == |s.pcs| && !s.pcs[i].Returned?
    && (AtNeed(steps, s, i) ==> CurrentNeed(steps, s, i) in s.closed || Cancelled(s))
  }

  function Move(steps: seq<Step>, oracle: Oracle, s: Phase, i: nat): Action
    requires CanMove(steps, s, i)
  {
    match s.pcs[i]
    case Waiting(k) =>
      if !AtNeed(steps, s, i) then Begin(i)
      else if CurrentNeed(steps, s, i) in s.closed then Observe(i) else Abandon(i)
    case Executing => Finish(i, oracle(steps[i].name).Succeeds?)
    case _ => Return(i)
  }

  lemma MoveEnabled(steps: seq<Step>, oracle: Oracle, s: Phase, i: nat)
    requires Inv(steps, s) && CanMove(steps, s, i)
    ensures Enabled(steps, oracle, s, Move(steps, oracle, s, i))
  {
    assert GoroutineInv(steps, s, i);
  }

  /** Unless a failure has cancelled the phase, goroutines `0..i` having returned means
      their channels are closed; so the first goroutine that has not returned can move. */
  lemma FirstCanMove(steps: seq<Step>, s: Phase, i: nat)
    requires Topological(steps) && Inv(steps, s)
    requires i < |steps| && !s.pcs[i].Returned? && forall j :: 0 <= j < i ==> s.pcs[j].Returned?
    ensures CanMove(steps, s, i)
  {
    if AtNeed(steps, s, i) && !Cancelled(s) {
      var d := CurrentNeed(steps, s, i);
      assert d in steps[i].needs;
      assert Declared(steps[..i], d);
      var j: nat :| j < i && steps[..i][j].name == d;
      assert GoroutineInv(steps, s, j);
      assert s.pcs[j] != Returned(false);
    }
  }

  lemma {:induction false} FirstUnreturned(s: Phase, i: nat) returns (f: nat)
    requires i < |s.pcs| && !s.pcs[i].Returned?
    ensures f <= i && !s.pcs[f].Returned? && forall j :: 0 <= j < f ==> s.pcs[j].Returned?
  {
    f := i;
    if j: nat :| j < i && !s.pcs[j].Returned? {
      f := FirstUnreturned(s, j);
    }
  }

  /** Deadlock freedom.  Goroutines that return early never close their channel, yet in
      every reachable state of a validated phase some goroutine can move until all have
      returned: such a return cancels everybody who might be waiting for it. */
  lemma DeadlockFree(steps: seq<Step>, oracle: Oracle, s: Phase) returns (i: nat)
    requires DistinctNames(steps) && Topological(steps)
    requires Reachable(steps, oracle, s) && !AllReturned(s)
    ensures CanMove(steps, s, i) && Enabled(steps, oracle, s, Move(steps, oracle, s, i))
  {
    ReachableInv(steps, oracle, s);
    var j: nat :| j < |s.pcs| && !s.pcs[j].Returned?;
    i := FirstUnreturned(s, j);
    FirstCanMove(steps, s, i);
    MoveEnabled(steps, oracle, s, i);
  }

  function Left(steps: seq<Step>, s: Phase, i: nat): nat
    requires i < |steps| == |s.pcs|
  {
    match s.pcs[i]
    case Waiting(k) => 3 + if k <= |steps[i].needs| then |steps[i].needs| - k else 0
    case Executing => 2
    case Closing(_) => 1
    case Returned(_) => 0
  }

  function LeftUpTo(steps: seq<Step>, s: Phase, n: nat): nat
    requires n <= |steps| == |s.pcs|
  {
    if n == 0 then 0 else LeftUpTo(steps, s, n - 1) + Left(steps, s, n - 1)
  }

  /** How many moves remain at most. */
  function Measure(steps: seq<Step>, s: Phase): nat
    requires |steps| == |s.pcs|
  {
    LeftUpTo(steps, s, |steps|) + if s.parent then 0 else 1
  }

  lemma {:induction false} LeftDrops(steps: seq<Step>, s: Phase, s': Phase, i: nat, n: nat)
    requires n <= |steps| == |s.pcs| == |s'.pcs|
    requires forall j :: 0 <= j < |steps| && j != i ==> s'.pcs[j] == s.pcs[j]
    requires i < |steps| ==> Left(steps, s', i) < Left(steps, s, i)
    ensures if i < n then LeftUpTo(steps, s', n) < LeftUpTo(steps, s, n) else LeftUpTo(steps, s', n) == LeftUpTo(steps, s, n)
  {
    if n > 0 { LeftDrops(steps, s, s', i, n - 1); }
  }

  lemma PcDrops(steps: seq<Step>, oracle: Oracle, s: Phase, a: Action)
    requires Inv(steps, s) && Enabled(steps, oracle, s, a) && !a.CancelParent?
    ensures var s' := Apply(steps, oracle, s, a);
      && |s'.pcs| == |s.pcs| && s'.parent == s.parent
      && s'.pcs == s.pcs[a.i := s'.pcs[a.i]] && Left(steps, s', a.i) < Left(steps, s, a.i)
  {
    assert GoroutineInv(steps, s, a.i);
  }

  /** Every action, including outside cancellation, strictly decreases the measure: all runs end. */
  lemma EveryActionProgresses(steps: seq<Step>, oracle: Oracle, s: Phase, a: Action)
    requires DistinctNames(steps) && Reachable(steps, oracle, s) && Enabled(steps, oracle, s, a)
    ensures |Apply(steps, oracle, s, a).pcs| == |steps| == |s.pcs|
    ensures Measure(steps, Apply(steps, oracle, s, a)) < Measure(steps, s)
  {
    ReachableInv(steps, oracle, s);
    var s' := Apply(steps, oracle, s, a);
    if a.CancelParent? {
      LeftSame(steps, s, s', |steps|);
    } else {
      PcDrops(steps, oracle, s, a);
      LeftDrops(steps, s, s', a.i, |steps|);
    }
  }

  lemma LeftSame(steps: seq<Step>, s: Phase, s': Phase, n: nat)
    requires n <= |steps| == |s.pcs| && s'.pcs == s.pcs
    ensures LeftUpTo(steps, s', n) == LeftUpTo(steps, s, n)
  {
  }

  /** Which goroutine moves next, which side of a select wins, when a plugin gives up
      and when the caller cancels are arbitrary. */
  method PickAction(steps: seq<Step>, oracle: Oracle, s: Phase, mayCancel: bool) returns (a: Action)
    requires DistinctNames(steps) && Topological(steps)
    requires Reachable(steps, oracle, s) && !AllReturned(s)
    ensures Enabled(steps, oracle, s, a)
    ensures a.CancelParent? ==> mayCancel
  {
    ghost var first := DeadlockFree(steps, oracle, s);
    ReachableInv(steps, oracle, s);
    var i: nat :| i < |s.pcs| && CanMove(steps, s, i);
    MoveEnabled(steps, oracle, s, i);
    var other: bool := *;
    if !other { return Move(steps, oracle, s, i); }
    if mayCancel && !s.parent { return CancelParent; }
    if Cancelled(s) && AtNeed(steps, s, i) { return Abandon(i); }
    if Cancelled(s) && s.pcs[i].Executing? { return Finish(i, false); }
    return Move(steps, oracle, s, i);
  }

  lemma InitialReachable(steps: seq<Step>, oracle: Oracle, parent: bool)
    ensures Reachable(steps, oracle, Initial(steps, parent))
  {
    assert IsRun(steps, oracle, [Initial(steps, parent)]);
  }

  lemma ParentMonotone(steps: seq<Step>, oracle: Oracle, s: Phase, a: Action)
    requires Enabled(steps, oracle, s, a)
    ensures Apply(steps, oracle, s, a).parent == (s.parent || a.CancelParent?)
  {
  }

  /** From every state of a phase some run leads to the end, without outside cancellation. */
  lemma {:induction false} PhaseToEnd(steps: seq<Step>, oracle: Oracle, s: Phase) returns (s': Phase)
    requires DistinctNames(steps) && Topological(steps) && Reachable(steps, oracle, s) && |s.pcs| == |steps|
    ensures Reachable(steps, oracle, s') && AllReturned(s') && |s'.pcs| == |steps| && s'.parent == s.parent
    ensures (s.failed ==> s'.failed) && forall n :: SucceededIn(s, n) ==> SucceededIn(s', n)
    decreases Measure(steps, s)
  {
    if AllReturned(s) {
      s' := s;
    } else {
      var i := DeadlockFree(steps, oracle, s);
      var a := Move(steps, oracle, s, i);
      var next := Apply(steps, oracle, s, a);
      ReachableInv(steps, oracle, s);
      ReachableNext(steps, oracle, s, a);
      ParentMonotone(steps, oracle, s, a);
      ResultsStay(steps, oracle, s, a);
      EveryActionProgresses(steps, oracle, s, a);
      s' := PhaseToEnd(steps, oracle, next);
    }
  }

  lemma {:induction false} NeverCancelled(steps: seq<Step>, oracle: Oracle, run: seq<Phase>, t: nat)
    requires IsRun(steps, oracle, run) && t < |run| && !run[t].parent
    ensures run[0] == Initial(steps, false)
  {
    if t > 0 {
      RunStep(steps, oracle, run, t);
      var a :| Enabled(steps, oracle, run[t - 1], a) && run[t] == Apply(steps, oracle, run[t - 1], a);
      ParentMonotone(steps, oracle, run[t - 1], a);
      NeverCancelled(steps, oracle, run, t - 1);
    }
  }

  /** A phase run to its end by an arbitrary scheduler. */
  method RunPhase(steps: seq<Step>, oracle: Oracle, parent: bool, mayCancel: bool) returns (s: Phase)
    requires DistinctNames(steps) && Topological(steps)
    ensures Reachable(steps, oracle, s) && AllReturned(s)
    ensures s.parent ==> parent || mayCancel
    ensures parent ==> s.parent
  {
    s := Initial(steps, parent);
    InitialReachable(steps, oracle, parent);
    while !AllReturned(s)
      invariant Reachable(steps, oracle, s) && |s.pcs| == |steps|
      invariant s.parent ==> parent || mayCancel
      invariant parent ==> s.parent
      decreases Measure(steps, s)
    {
      var a := PickAction(steps, oracle, s, mayCancel);
      ReachableNext(steps, oracle, s, a);
      EveryActionProgresses(steps, oracle, s, a);
      ParentMonotone(steps, oracle, s, a);
      s := Apply(steps, oracle, s, a);
    }
  }
}
