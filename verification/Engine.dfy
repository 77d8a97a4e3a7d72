/** internal/engine/engine.go, Run: the three phases one after the other, and rollback when one fails. */
module Engine {
  // Validate the phases, cut the merged order back into phases, run them in sequence, and roll back in
  // reverse when one fails.

  import opened Steps
  import opened Dag
  import opened Expander
  import opened Rollback
  import opened Scheduler
  import ExpansionOrder

  datatype Pipeline = Pipeline(build: seq<Step>, deploy: seq<Step>, steps: seq<Step>)

  datatype PhaseName = Build | Deploy | Finally
  datatype PhaseError = PhaseError(phase: PhaseName, error: DagError)

  /** A permutation of `steps` with every step after its needs. */
  ghost predicate OrderingOf(order: seq<Step>, steps: seq<Step>) {
    multiset(order) == multiset(steps) && Topological(order)
  }

  lemma SameStepSet(order: seq<Step>, steps: seq<Step>)
    requires multiset(order) == multiset(steps)
    ensures |order| == |steps|
    ensures forall s :: s in order <==> s in steps
    ensures forall n :: Declared(order, n) <==> Declared(steps, n)
  {
    assert |multiset(order)| == |order| && |multiset(steps)| == |steps|;
    assert forall s :: s in order <==> s in multiset(order);
    assert forall s :: s in steps <==> s in multiset(steps);
    forall n
      ensures Declared(order, n) <==> Declared(steps, n)
    {
      if Declared(order, n) {
        var i :| 0 <= i < |order| && order[i].name == n;
        assert order[i] in steps;
      }
      if Declared(steps, n) {
        var i :| 0 <= i < |steps| && steps[i].name == n;
        assert steps[i] in order;
      }
    }
  }

  /** A permutation keeps names distinct: equal length, equal name sets. */
  lemma DistinctPermutation(order: seq<Step>, steps: seq<Step>)
    requires multiset(order) == multiset(steps) && DistinctNames(steps)
    ensures DistinctNames(order)
  {
    SameStepSet(order, steps);
    CountByDistinct(steps);
    assert NameSet(order) == NameSet(steps);
    DistinctByCount(order);
  }

  // ---------------------------------------------------------------- validation and slicing

  ghost predicate PlanOf(p: Pipeline, order: seq<Step>, buildCount: nat) {
    && |order| == |p.build| + |p.deploy| + |p.steps|
    && buildCount == |p.build|
    && OrderingOf(order[..buildCount], p.build)
    && OrderingOf(order[buildCount..buildCount + |p.deploy|], p.deploy)
    && OrderingOf(order[buildCount + |p.deploy|..], p.steps)
  }

  /** The first phase that is not well-formed is the one reported, with its own error. */
  ghost predicate FirstRejected(p: Pipeline, e: PhaseError) {
    match e.phase
    case Build => !Accepted(p.build) && ErrorOf(p.build, e.error)
    case Deploy => Accepted(p.build) && !Accepted(p.deploy) && ErrorOf(p.deploy, e.error)
    case Finally => Accepted(p.build) && Accepted(p.deploy) && !Accepted(p.steps) && ErrorOf(p.steps, e.error)
  }

  lemma MergedPlan(p: Pipeline, b: seq<Step>, d: seq<Step>, s: seq<Step>)
    requires OrderingOf(b, p.build) && OrderingOf(d, p.deploy) && OrderingOf(s, p.steps)
    ensures PlanOf(p, b + d + s, |b|)
  {
    SameStepSet(b, p.build);
    SameStepSet(d, p.deploy);
    SameStepSet(s, p.steps);
    var order := b + d + s;
    assert order[..|b|] == b;
    assert order[|b|..|b| + |d|] == d;
    assert order[|b| + |d|..] == s;
  }

  /** Each phase is sorted on its own; the merged order keeps the phases apart. */
  method ValidateDag(p: Pipeline) returns (r: Result<(seq<Step>, nat), PhaseError>)
    ensures r.Ok? <==> Accepted(p.build) && Accepted(p.deploy) && Accepted(p.steps)
    ensures r.Ok? ==> PlanOf(p, r.value.0, r.value.1)
    ensures r.Err? ==> FirstRejected(p, r.error)
  {
    var b := ValidateDagSteps(p.build);
    if b.Err? {
      assert ErrorOf(p.build, b.error);
      return Err(PhaseError(Build, b.error));
    }
    var d := ValidateDagSteps(p.deploy);
    if d.Err? {
      assert ErrorOf(p.deploy, d.error);
      return Err(PhaseError(Deploy, d.error));
    }
    var s := ValidateDagSteps(p.steps);
    if s.Err? {
      assert ErrorOf(p.steps, s.error);
      return Err(PhaseError(Finally, s.error));
    }
    MergedPlan(p, b.value, d.value, s.value);
    return Ok((b.value + d.value + s.value, |b.value|));
  }

  /** The phases a run goes through, in order; SkipBuild leaves out a non-empty build phase. */
  function PartsRun(p: Pipeline, skipBuild: bool): seq<seq<Step>> {
    if skipBuild && |p.build| > 0 then [p.deploy, p.steps] else [p.build, p.deploy, p.steps]
  }

  ghost predicate PhasesOf(p: Pipeline, skipBuild: bool, phases: seq<seq<Step>>) {
    && |phases| == |PartsRun(p, skipBuild)|
    && forall k {:trigger phases[k]} :: 0 <= k < |phases| ==> OrderingOf(phases[k], PartsRun(p, skipBuild)[k])
  }

  lemma CutInThree(order: seq<Step>, i: nat, j: nat)
    requires i <= j <= |order|
    ensures order[0..i] == order[..i] && order[0..i] + order[i..j] + order[j..] == order
    ensures order[i..j] + order[j..] == order[i..]
  {
  }

  /** The slices of lines 339-350: in bounds, and together the order that was validated. */
  method SplitPhases(p: Pipeline, order: seq<Step>, buildCount: nat, skipBuild: bool)
    returns (phases: seq<seq<Step>>, stepsToRun: seq<Step>)
    requires PlanOf(p, order, buildCount)
    ensures PhasesOf(p, skipBuild, phases)
    ensures stepsToRun == FlattenAll(phases)
    ensures stepsToRun == if skipBuild then order[buildCount..] else order
  {
    var buildOrder := order[0..buildCount];
    var deployOrder := order[buildCount..buildCount + |p.deploy|];
    var stepsOrder := order[buildCount + |p.deploy|..];
    phases := [buildOrder, deployOrder, stepsOrder];
    if skipBuild && buildCount > 0 {
      phases := phases[1..];
    }
    stepsToRun := [];
    for k := 0 to |phases|
      invariant stepsToRun == Flatten(phases, k)
    {
      stepsToRun := stepsToRun + phases[k];
    }
    CutInThree(order, buildCount, buildCount + |p.deploy|);
    FlattenTwoOrThree(phases);
  }

  lemma FlattenTwoOrThree(phases: seq<seq<Step>>)
    requires 2 <= |phases| <= 3
    ensures FlattenAll(phases) == if |phases| == 2 then phases[0] + phases[1] else phases[0] + phases[1] + phases[2]
  {
    assert Flatten(phases, 0) == [] && Flatten(phases, 1) == phases[0];
    assert Flatten(phases, 2) == phases[0] + phases[1];
  }

  // ---------------------------------------------------------------- whole runs

  /** What every step of every phase would do. Phases are numbered as they are run. */
  type Outcomes = nat -> Oracle

  /** `past` holds the phases already completed, as they ended, and `cur` the one being run;
      `earlier` is what `stateMap` has kept of the past ones. */
  datatype Run = Run(past: seq<Phase>, cur: Phase, earlier: map<Name, bool>) {
    /** The number of the phase being run. */
    function Ph(): nat { |past| }
  }

  /** The results in `stateMap`. */
  function StateMap(r: Run): map<Name, bool> { r.earlier + r.cur.closed }

  /** Phase `k` as it ended or stands; it may not have started yet. */
  function PhaseAt(r: Run, k: nat): Option<Phase> {
    if k < |r.past| then Some(r.past[k]) else if k == |r.past| then Some(r.cur) else None
  }

  /** The step called `n` of phase `k` has finished with a nil error. */
  ghost predicate Succeeded(r: Run, k: nat, n: Name) { PhaseAt(r, k).Some? && SucceededIn(PhaseAt(r, k).value, n) }

  /** Execute of the step called `n` of phase `k` has been called, or its result is published. */
  ghost predicate Touched(r: Run, k: nat, n: Name) {
    PhaseAt(r, k).Some? && (n in PhaseAt(r, k).value.executed || n in PhaseAt(r, k).value.closed)
  }

  /** Execute of the step called `n` of phase `k` has been called. */
  ghost predicate Executed(r: Run, k: nat, n: Name) { PhaseAt(r, k).Some? && n in PhaseAt(r, k).value.executed }

  function FirstPhase(phases: seq<seq<Step>>, parent: bool): Run
    requires phases != []
  {
    Run([], Initial(phases[0], parent), map[])
  }

  predicate MayAdvance(phases: seq<seq<Step>>, r: Run) {
    r.Ph() + 1 < |phases| && AllReturned(r.cur) && !r.cur.failed
  }

  function NamesIn(steps: seq<Step>): (names: set<Name>)
    ensures forall n :: n in names <==> Declared(steps, n)
  {
    set i | 0 <= i < |steps| :: steps[i].name
  }

  /** Line 571: the errgroup of a phase returned nil; lines 470-472: the steps of the next phase
      get fresh entries in `stateMap`, which replace those of earlier steps of the same name. */
  function Advance(phases: seq<seq<Step>>, r: Run): Run
    requires MayAdvance(phases, r)
  {
    var next := phases[r.Ph() + 1];
    Run(r.past + [r.cur], Initial(next, r.cur.parent), StateMap(r) - NamesIn(next))
  }

  ghost predicate RunNext(phases: seq<seq<Step>>, outcomes: Outcomes, r: Run, r': Run) {
    || (r.Ph() < |phases| && Next(phases[r.Ph()], outcomes(r.Ph()), r.cur, r'.cur) && r' == r.(cur := r'.cur))
    || (MayAdvance(phases, r) && r' == Advance(phases, r))
  }

  ghost predicate RunTrace(phases: seq<seq<Step>>, outcomes: Outcomes, trace: seq<Run>) {
    && trace != [] && phases != []
    && (trace[0] == FirstPhase(phases, false) || trace[0] == FirstPhase(phases, true))
    && forall t :: 0 <= t < |trace| - 1 ==> RunNext(phases, outcomes, trace[t], trace[t + 1])
  }

  ghost predicate RunReachable(phases: seq<seq<Step>>, outcomes: Outcomes, r: Run) {
    exists trace :: RunTrace(phases, outcomes, trace) && trace[|trace| - 1] == r
  }

  /** The loop over the phases is over: a phase failed, or the last one is through. */
  predicate Finished(phases: seq<seq<Step>>, r: Run) {
    r.Ph() < |phases| && AllReturned(r.cur) && (r.cur.failed || r.Ph() == |phases| - 1)
  }

  // ---------------------------------------------------------------- phases in sequence

  /** What validation leaves: every phase is a topological order of distinct names. */
  ghost predicate WellOrdered(phases: seq<seq<Step>>) {
    phases != [] && forall k {:trigger phases[k]} :: 0 <= k < |phases| ==> Topological(phases[k]) && DistinctNames(phases[k])
  }

  lemma PhaseDistinct(phases: seq<seq<Step>>, k: nat)
    requires WellOrdered(phases) && k < |phases|
    ensures DistinctNames(phases[k]) && Topological(phases[k]) && NeedsKnown(phases[k])
  {
    TopologicalNeedsKnown(phases[k]);
  }

  lemma StepInPhases(phases: seq<seq<Step>>, k: nat, i: nat)
    requires k < |phases| && i < |phases[k]|
    ensures phases[k][i] in FlattenAll(phases)
  {
    ExpansionOrder.FlattenHas(phases, k, |phases|, phases[k][i]);
  }

  /** A concatenation of topological phases is topological. */
  lemma {:induction false} FlattenTopological(phases: seq<seq<Step>>, k: nat)
    requires k <= |phases| && forall l {:trigger phases[l]} :: 0 <= l < k ==> Topological(phases[l])
    ensures Topological(Flatten(phases, k))
  {
    if k > 0 {
      FlattenTopological(phases, k - 1);
      TopologicalConcat(Flatten(phases, k - 1), phases[k - 1]);
    }
  }

  lemma TopologicalConcat(a: seq<Step>, b: seq<Step>)
    requires Topological(a) && Topological(b)
    ensures Topological(a + b)
  {
    var c := a + b;
    forall i, d | 0 <= i < |c| && d in c[i].needs
      ensures Declared(c[..i], d)
    {
      if i < |a| {
        assert c[..i] == a[..i];
      } else {
        assert Declared(b[..i - |a|], d);
        var j :| 0 <= j < i - |a| && b[..i - |a|][j].name == d;
        assert c[..i][|a| + j].name == d;
      }
    }
  }

  ghost predicate EarlierPhase(phases: seq<seq<Step>>, ph: nat, n: Name) {
    exists k: nat :: k < ph && k < |phases| && Declared(phases[k], n)
  }

  /** How a phase that let the run go on ended. */
  ghost predicate Through(steps: seq<Step>, oracle: Oracle, s: Phase) {
    && Reachable(steps, oracle, s) && AllReturned(s) && !s.failed
    && (forall n :: n in s.closed <==> Declared(steps, n))
    && (forall n :: n in s.closed ==> s.closed[n] && Good(oracle(n)))
    && (forall n :: n in s.executed <==> Declared(steps, n) && oracle(n).Succeeds?)
  }

  /** `stateMap` knows the steps of earlier phases, so far as no later step took over the name. */
  ghost predicate Remembers(phases: seq<seq<Step>>, r: Run)
    requires r.Ph() < |phases|
  {
    && (forall n :: n in r.earlier <==> EarlierPhase(phases, r.Ph(), n) && !Declared(phases[r.Ph()], n))
    && forall n :: n in r.earlier ==> r.earlier[n]
  }

  ghost predicate RunInv(phases: seq<seq<Step>>, outcomes: Outcomes, r: Run) {
    && r.Ph() < |phases|
    && Reachable(phases[r.Ph()], outcomes(r.Ph()), r.cur)
    && AllThrough(phases, outcomes, r.past)
    && Remembers(phases, r)
  }

  lemma CurrentNames(steps: seq<Step>, oracle: Oracle, s: Phase)
    requires DistinctNames(steps) && Reachable(steps, oracle, s)
    ensures forall n :: n in s.closed || n in s.executed ==> Declared(steps, n)
  {
    ReachableInv(steps, oracle, s);
  }

  /** A phase that returned nil has published a nil error for each of its steps and nothing else. */
  lemma PhaseDone(steps: seq<Step>, oracle: Oracle, s: Phase)
    requires DistinctNames(steps) && NeedsKnown(steps) && Reachable(steps, oracle, s) && AllReturned(s) && !s.failed
    ensures Through(steps, oracle, s)
  {
    VerdictIndependentOfSchedule(steps, oracle, s);
    CurrentNames(steps, oracle, s);
    forall n | Declared(steps, n)
      ensures SucceededIn(s, n) && Good(oracle(n))
    {
      var i :| 0 <= i < |steps| && steps[i].name == n;
    }
  }

  lemma EarlierPhaseNext(phases: seq<seq<Step>>, ph: nat, n: Name)
    requires ph < |phases|
    ensures EarlierPhase(phases, ph + 1, n) <==> EarlierPhase(phases, ph, n) || Declared(phases[ph], n)
  {
  }

  lemma AdvanceRemembers(phases: seq<seq<Step>>, r: Run)
    requires MayAdvance(phases, r) && Remembers(phases, r)
    requires forall n :: n in r.cur.closed <==> Declared(phases[r.Ph()], n)
    requires forall n :: n in r.cur.closed ==> r.cur.closed[n]
    ensures Remembers(phases, Advance(phases, r))
  {
    forall n
      ensures EarlierPhase(phases, r.Ph() + 1, n) <==> EarlierPhase(phases, r.Ph(), n) || Declared(phases[r.Ph()], n)
    {
      EarlierPhaseNext(phases, r.Ph(), n);
    }
  }

  lemma AdvanceInv(phases: seq<seq<Step>>, outcomes: Outcomes, r: Run)
    requires WellOrdered(phases) && RunInv(phases, outcomes, r) && MayAdvance(phases, r)
    ensures RunInv(phases, outcomes, Advance(phases, r))
  {
    var ph := r.Ph();
    PhaseDistinct(phases, ph);
    PhaseDone(phases[ph], outcomes(ph), r.cur);
    InitialReachable(phases[ph + 1], outcomes(ph + 1), r.cur.parent);
    AdvanceRemembers(phases, r);
    OneMorePast(phases, outcomes, r.past, r.cur);
  }

  ghost predicate AllThrough(phases: seq<seq<Step>>, outcomes: Outcomes, past: seq<Phase>) {
    |past| <= |phases| && forall k: nat :: k < |past| ==> Through(phases[k], outcomes(k), past[k])
  }

  lemma OneMorePast(phases: seq<seq<Step>>, outcomes: Outcomes, past: seq<Phase>, last: Phase)
    requires AllThrough(phases, outcomes, past) && |past| < |phases| && Through(phases[|past|], outcomes(|past|), last)
    ensures AllThrough(phases, outcomes, past + [last])
  {
  }

  lemma InnerInv(phases: seq<seq<Step>>, outcomes: Outcomes, r: Run, cur: Phase)
    requires RunInv(phases, outcomes, r) && Next(phases[r.Ph()], outcomes(r.Ph()), r.cur, cur)
    ensures RunInv(phases, outcomes, r.(cur := cur))
  {
    var a :| Enabled(phases[r.Ph()], outcomes(r.Ph()), r.cur, a) && cur == Apply(phases[r.Ph()], outcomes(r.Ph()), r.cur, a);
    ReachableNext(phases[r.Ph()], outcomes(r.Ph()), r.cur, a);
  }

  lemma FirstInv(phases: seq<seq<Step>>, outcomes: Outcomes, parent: bool)
    requires phases != []
    ensures RunInv(phases, outcomes, FirstPhase(phases, parent))
  {
    InitialReachable(phases[0], outcomes(0), parent);
  }

  lemma {:induction false} TraceInv(phases: seq<seq<Step>>, outcomes: Outcomes, trace: seq<Run>, t: nat)
    requires WellOrdered(phases) && RunTrace(phases, outcomes, trace) && t < |trace|
    ensures RunInv(phases, outcomes, trace[t])
  {
    if t == 0 {
      FirstInv(phases, outcomes, false);
      FirstInv(phases, outcomes, true);
    } else {
      TraceInv(phases, outcomes, trace, t - 1);
      var r, r' := trace[t - 1], trace[t - 1 + 1];
      assert RunNext(phases, outcomes, r, r');
      if MayAdvance(phases, r) && r' == Advance(phases, r) {
        AdvanceInv(phases, outcomes, r);
      } else {
        InnerInv(phases, outcomes, r, r'.cur);
      }
    }
  }

  lemma RunReachableInv(phases: seq<seq<Step>>, outcomes: Outcomes, r: Run)
    requires WellOrdered(phases) && RunReachable(phases, outcomes, r)
    ensures RunInv(phases, outcomes, r)
  {
    var trace :| RunTrace(phases, outcomes, trace) && trace[|trace| - 1] == r;
    TraceInv(phases, outcomes, trace, |trace| - 1);
  }

  // ---------------------------------------------------------------- safety and verdict of whole runs

  /** A step is executed, or its result published, only after every step of every earlier phase
      has finished with a nil error. */
  lemma PhaseBarrier(phases: seq<seq<Step>>, outcomes: Outcomes, r: Run, k: nat, l: nat, n: Name, m: Name)
    requires WellOrdered(phases) && RunReachable(phases, outcomes, r)
    requires l < k < |phases| && Declared(phases[l], m) && Touched(r, k, n)
    ensures Succeeded(r, l, m)
  {
    RunReachableInv(phases, outcomes, r);
    assert Through(phases[l], outcomes(l), r.past[l]);
  }

  lemma PhaseReachable(phases: seq<seq<Step>>, outcomes: Outcomes, r: Run, k: nat)
    requires WellOrdered(phases) && RunReachable(phases, outcomes, r) && k <= r.Ph()
    ensures k < |phases| && Reachable(phases[k], outcomes(k), PhaseAt(r, k).value)
  {
    RunReachableInv(phases, outcomes, r);
    if k < r.Ph() { assert Through(phases[k], outcomes(k), r.past[k]); }
  }

  /** In every state of every run what a step transitively needs has succeeded when it has itself,
      or when it has been executed. */
  lemma SucceededClosed(phases: seq<seq<Step>>, outcomes: Outcomes, r: Run, k: nat, n: Name, d: Name)
    requires WellOrdered(phases) && RunReachable(phases, outcomes, r) && k < |phases|
    requires Succeeded(r, k, n) || Executed(r, k, n)
    requires Reaches(phases[k], n, d)
    ensures Succeeded(r, k, d)
  {
    PhaseReachable(phases, outcomes, r, k);
    ExecutesAfterNeeds(phases[k], outcomes(k), PhaseAt(r, k).value, n, d);
  }

  /** A run that has been cancelled stays cancelled in all its later phases. */
  lemma {:induction false} CancellationLasts(phases: seq<seq<Step>>, outcomes: Outcomes, trace: seq<Run>, t: nat, u: nat)
    requires RunTrace(phases, outcomes, trace) && t <= u < |trace| && trace[t].cur.parent
    ensures trace[u].cur.parent
    decreases u - t
  {
    if t < u {
      CancellationLasts(phases, outcomes, trace, t, u - 1);
      var r, r' := trace[u - 1], trace[u - 1 + 1];
      assert RunNext(phases, outcomes, r, r');
      if !(MayAdvance(phases, r) && r' == Advance(phases, r)) {
        var a :| Enabled(phases[r.Ph()], outcomes(r.Ph()), r.cur, a) && r'.cur == Apply(phases[r.Ph()], outcomes(r.Ph()), r.cur, a);
        ParentMonotone(phases[r.Ph()], outcomes(r.Ph()), r.cur, a);
      }
    }
  }

  ghost predicate AllPhasesGood(phases: seq<seq<Step>>, outcomes: Outcomes) {
    forall k {:trigger phases[k]} :: 0 <= k < |phases| ==> AllGood(phases[k], outcomes(k))
  }

  lemma EarlierGood(phases: seq<seq<Step>>, outcomes: Outcomes, r: Run, k: nat)
    requires RunInv(phases, outcomes, r) && k < r.Ph()
    ensures AllGood(phases[k], outcomes(k))
  {
    assert Through(phases[k], outcomes(k), r.past[k]);
    forall i | 0 <= i < |phases[k]|
      ensures Good(outcomes(k)(phases[k][i].name))
    {
      assert phases[k][i].name in r.past[k].closed;
    }
  }

  lemma AllGoodAt(phases: seq<seq<Step>>, outcomes: Outcomes, r: Run)
    requires RunInv(phases, outcomes, r) && r.Ph() == |phases| - 1
    ensures AllPhasesGood(phases, outcomes) <==> AllGood(phases[r.Ph()], outcomes(r.Ph()))
  {
    var last := r.Ph();
    forall k: nat | k < last
      ensures AllGood(phases[k], outcomes(k))
    {
      EarlierGood(phases, outcomes, r, k);
    }
    assert forall k {:trigger phases[k]} :: 0 <= k < |phases| ==> k < last || k == last;
  }

  /** However the run was scheduled: unless the caller cancels it returns nil exactly when
      every step of every phase would succeed or be skipped, and then all of them did. */
  lemma RunVerdict(phases: seq<seq<Step>>, outcomes: Outcomes, r: Run)
    requires WellOrdered(phases) && RunReachable(phases, outcomes, r) && Finished(phases, r)
    ensures !r.cur.failed ==> AllPhasesGood(phases, outcomes)
    ensures !r.cur.parent ==> (!r.cur.failed <==> forall k: nat, i: nat :: k < |phases| && i < |phases[k]| ==>
      outcomes(k)(phases[k][i].name).Succeeds? || outcomes(k)(phases[k][i].name).Skipped?)
  {
    RunReachableInv(phases, outcomes, r);
    PhaseDistinct(phases, r.Ph());
    VerdictIndependentOfSchedule(phases[r.Ph()], outcomes(r.Ph()), r.cur);
    if r.Ph() == |phases| - 1 {
      AllGoodAt(phases, outcomes, r);
    }
    GoodOutcomes(phases, outcomes, |phases|);
  }

  /** Which outcomes let the run go on. */
  lemma GoodOutcomes(phases: seq<seq<Step>>, outcomes: Outcomes, top: nat)
    requires top <= |phases|
    ensures (forall k: nat :: k < top ==> AllGood(phases[k], outcomes(k))) <==>
      forall k: nat, i: nat :: k < top && i < |phases[k]| ==>
        outcomes(k)(phases[k][i].name).Succeeds? || outcomes(k)(phases[k][i].name).Skipped?
  {
  }

  /** When the last phase is reached.  It does not always run: without outside cancellation a
      finished run has started a phase exactly when every step of every phase before it would
      succeed or be skipped. */
  lemma PhaseStartedIff(phases: seq<seq<Step>>, outcomes: Outcomes, r: Run, k: nat)
    requires WellOrdered(phases) && RunReachable(phases, outcomes, r) && Finished(phases, r) && !r.cur.parent
    requires k < |phases|
    ensures k <= r.Ph() <==> forall l: nat, i: nat :: l < k && i < |phases[l]| ==>
      outcomes(l)(phases[l][i].name).Succeeds? || outcomes(l)(phases[l][i].name).Skipped?
  {
    RunReachableInv(phases, outcomes, r);
    PhaseDistinct(phases, r.Ph());
    VerdictIndependentOfSchedule(phases[r.Ph()], outcomes(r.Ph()), r.cur);
    forall l | 0 <= l < k && l < r.Ph()
      ensures AllGood(phases[l], outcomes(l))
    {
      EarlierGood(phases, outcomes, r, l);
    }
    GoodOutcomes(phases, outcomes, k);
  }

  const DEPLOY_THEN_FINALLY: seq<seq<Step>> := [[Step("deploy", "shell", [])], [Step("finally", "shell", [])]]

  /** A deploy step that fails ends the run before the phase behind it. */
  lemma FinallyNotReached(outcomes: Outcomes) returns (r: Run)
    requires outcomes(0)("deploy").ExecuteFails?
    ensures RunReachable(DEPLOY_THEN_FINALLY, outcomes, r) && Finished(DEPLOY_THEN_FINALLY, r)
    ensures !r.cur.parent && r.cur.failed && r.Ph() == 0 && PhaseAt(r, 1).None?
  {
    var phases := DEPLOY_THEN_FINALLY;
    r := FirstPhase(phases, false);
    FirstReachable(phases, outcomes, false);
    r := RunAction(phases, outcomes, r, Begin(0));
    r := RunAction(phases, outcomes, r, Finish(0, false));
    r := RunAction(phases, outcomes, r, Return(0));
  }

  lemma RunAction(phases: seq<seq<Step>>, outcomes: Outcomes, r: Run, a: Action) returns (r': Run)
    requires RunReachable(phases, outcomes, r) && r.Ph() < |phases| && Enabled(phases[r.Ph()], outcomes(r.Ph()), r.cur, a)
    ensures RunReachable(phases, outcomes, r') && r' == r.(cur := Apply(phases[r.Ph()], outcomes(r.Ph()), r.cur, a))
  {
    r' := r.(cur := Apply(phases[r.Ph()], outcomes(r.Ph()), r.cur, a));
    assert Next(phases[r.Ph()], outcomes(r.Ph()), r.cur, r'.cur);
    RunExtend(phases, outcomes, r, r');
  }

  // ---------------------------------------------------------------- running all phases

  lemma RunExtend(phases: seq<seq<Step>>, outcomes: Outcomes, r: Run, r': Run)
    requires RunReachable(phases, outcomes, r) && RunNext(phases, outcomes, r, r')
    ensures RunReachable(phases, outcomes, r')
  {
    var trace :| RunTrace(phases, outcomes, trace) && trace[|trace| - 1] == r;
    var longer := trace + [r'];
    forall t | 0 <= t < |longer| - 1
      ensures RunNext(phases, outcomes, longer[t], longer[t + 1])
    {
      if t < |trace| - 1 { assert RunNext(phases, outcomes, trace[t], trace[t + 1]); }
    }
    assert RunTrace(phases, outcomes, longer);
  }

  lemma FirstReachable(phases: seq<seq<Step>>, outcomes: Outcomes, parent: bool)
    requires phases != []
    ensures RunReachable(phases, outcomes, FirstPhase(phases, parent))
  {
    assert RunTrace(phases, outcomes, [FirstPhase(phases, parent)]);
  }

  /** One move of an arbitrary scheduler, or the transition to the next phase. */
  method RunOnce(phases: seq<seq<Step>>, outcomes: Outcomes, r: Run, mayCancel: bool) returns (r': Run)
    requires WellOrdered(phases) && RunReachable(phases, outcomes, r) && r.Ph() < |phases| && !Finished(phases, r)
    requires |r.cur.pcs| == |phases[r.Ph()]|
    ensures RunReachable(phases, outcomes, r')
    ensures r.Ph() <= r'.Ph() < |phases| && |r'.cur.pcs| == |phases[r'.Ph()]|
    ensures r'.Ph() == r.Ph() ==> Measure(phases[r.Ph()], r'.cur) < Measure(phases[r.Ph()], r.cur)
    ensures r'.cur.parent ==> r.cur.parent || mayCancel
  {
    CurrentPhase(phases, outcomes, r);
    if AllReturned(r.cur) {
      AdvanceReaches(phases, outcomes, r);
      r' := Advance(phases, r);
    } else {
      var a := PickAction(phases[r.Ph()], outcomes(r.Ph()), r.cur, mayCancel);
      OneMove(phases, outcomes, r, a);
      r' := r.(cur := Apply(phases[r.Ph()], outcomes(r.Ph()), r.cur, a));
    }
  }

  lemma CurrentPhase(phases: seq<seq<Step>>, outcomes: Outcomes, r: Run)
    requires WellOrdered(phases) && RunReachable(phases, outcomes, r)
    ensures r.Ph() < |phases| && Reachable(phases[r.Ph()], outcomes(r.Ph()), r.cur)
    ensures DistinctNames(phases[r.Ph()]) && Topological(phases[r.Ph()])
  {
    RunReachableInv(phases, outcomes, r);
  }

  lemma AdvanceReaches(phases: seq<seq<Step>>, outcomes: Outcomes, r: Run)
    requires RunReachable(phases, outcomes, r) && MayAdvance(phases, r)
    ensures var r' := Advance(phases, r);
      && RunReachable(phases, outcomes, r') && r'.Ph() == r.Ph() + 1 && r'.cur.parent == r.cur.parent
      && |r'.cur.pcs| == |phases[r.Ph() + 1]|
  {
    RunExtend(phases, outcomes, r, Advance(phases, r));
  }

  lemma OneMove(phases: seq<seq<Step>>, outcomes: Outcomes, r: Run, a: Action)
    requires RunReachable(phases, outcomes, r) && r.Ph() < |phases| && DistinctNames(phases[r.Ph()])
    requires Reachable(phases[r.Ph()], outcomes(r.Ph()), r.cur) && Enabled(phases[r.Ph()], outcomes(r.Ph()), r.cur, a)
    ensures var cur := Apply(phases[r.Ph()], outcomes(r.Ph()), r.cur, a);
      && RunReachable(phases, outcomes, r.(cur := cur)) && |cur.pcs| == |phases[r.Ph()]| == |r.cur.pcs|
      && Measure(phases[r.Ph()], cur) < Measure(phases[r.Ph()], r.cur) && cur.parent == (r.cur.parent || a.CancelParent?)
  {
    EveryActionProgresses(phases[r.Ph()], outcomes(r.Ph()), r.cur, a);
    ParentMonotone(phases[r.Ph()], outcomes(r.Ph()), r.cur, a);
    var r' := RunAction(phases, outcomes, r, a);
  }

  /** Lines 454-575 under an arbitrary scheduler: always ends, in a reachable finished state. */
  method RunPhases(phases: seq<seq<Step>>, outcomes: Outcomes, parent: bool, mayCancel: bool) returns (r: Run)
    requires WellOrdered(phases)
    ensures RunReachable(phases, outcomes, r) && Finished(phases, r)
    ensures r.cur.parent ==> parent || mayCancel
  {
    r := FirstPhase(phases, parent);
    FirstReachable(phases, outcomes, parent);
    while !Finished(phases, r)
      invariant RunReachable(phases, outcomes, r) && r.Ph() < |phases| && |r.cur.pcs| == |phases[r.Ph()]|
      invariant r.cur.parent ==> parent || mayCancel
      decreases |phases| - r.Ph(), Measure(phases[r.Ph()], r.cur)
    {
      r := RunOnce(phases, outcomes, r, mayCancel);
    }
  }

  // ---------------------------------------------------------------- which runs there are

  /** Every state that the current phase can go through from here is one of the run. */
  lemma {:induction false} FollowPhase(phases: seq<seq<Step>>, outcomes: Outcomes, r: Run, run: seq<Phase>, t: nat)
    requires RunReachable(phases, outcomes, r) && r.Ph() < |phases|
    requires IsRun(phases[r.Ph()], outcomes(r.Ph()), run) && r.cur == run[0] && t < |run|
    ensures RunReachable(phases, outcomes, r.(cur := run[t]))
  {
    if t == 0 {
      assert r.(cur := run[0]) == r;
    } else {
      FollowPhase(phases, outcomes, r, run, t - 1);
      RunStep(phases[r.Ph()], outcomes(r.Ph()), run, t);
      RunExtend(phases, outcomes, r.(cur := run[t - 1]), r.(cur := run[t]));
    }
  }

  lemma GoodPhaseEnds(steps: seq<Step>, oracle: Oracle) returns (s: Phase)
    requires DistinctNames(steps) && Topological(steps) && AllGood(steps, oracle)
    ensures Reachable(steps, oracle, s) && AllReturned(s) && !s.failed && !s.parent
  {
    TopologicalNeedsKnown(steps);
    InitialReachable(steps, oracle, false);
    s := PhaseToEnd(steps, oracle, Initial(steps, false));
    VerdictIndependentOfSchedule(steps, oracle, s);
  }

  /** A run that has completed `m` phases, none of which has a step that fails. */
  lemma {:induction false} ReachPhase(phases: seq<seq<Step>>, outcomes: Outcomes, m: nat) returns (r: Run)
    requires WellOrdered(phases) && m < |phases| && forall k: nat :: k < m ==> AllGood(phases[k], outcomes(k))
    ensures RunReachable(phases, outcomes, r) && r.Ph() == m && r.cur == Initial(phases[m], false)
    decreases m, 0
  {
    if m == 0 {
      r := FirstPhase(phases, false);
      FirstReachable(phases, outcomes, false);
    } else {
      PhaseDistinct(phases, m - 1);
      var done := GoodPhaseEnds(phases[m - 1], outcomes(m - 1));
      var last := ReachState(phases, outcomes, m - 1, done);
      r := Advance(phases, last);
      RunExtend(phases, outcomes, last, r);
    }
  }

  /** Every state of a phase that can be reached without outside cancellation occurs in a run whose
      earlier phases complete. */
  lemma {:induction false} ReachState(phases: seq<seq<Step>>, outcomes: Outcomes, m: nat, s: Phase) returns (r: Run)
    requires WellOrdered(phases) && m < |phases| && forall k: nat :: k < m ==> AllGood(phases[k], outcomes(k))
    requires Reachable(phases[m], outcomes(m), s) && !s.parent
    ensures RunReachable(phases, outcomes, r) && r.Ph() == m && r.cur == s
    decreases m, 1
  {
    var start := ReachPhase(phases, outcomes, m);
    var run :| IsRun(phases[m], outcomes(m), run) && run[|run| - 1] == s;
    NeverCancelled(phases[m], outcomes(m), run, |run| - 1);
    FollowPhase(phases, outcomes, start, run, |run| - 1);
    r := start.(cur := s);
  }

  // ---------------------------------------------------------------- undoing a failed run

  /** An unknown plugin type is one of the early errors. */
  ghost predicate UnregisteredFails(phases: seq<seq<Step>>, outcomes: Outcomes, registered: Registry) {
    forall k: nat, i: nat :: k < |phases| && i < |phases[k]| && !registered(phases[k][i].kind) ==>
      outcomes(k)(phases[k][i].name).EarlyError?
  }

  /** What `stateMap` says of a name: the last phase that started with a step of this name decides. */
  lemma StateMapOk(phases: seq<seq<Step>>, outcomes: Outcomes, r: Run, n: Name)
    requires WellOrdered(phases) && RunReachable(phases, outcomes, r)
    ensures r.Ph() < |phases|
    ensures n in OkNames(StateMap(r)) <==>
      if Declared(phases[r.Ph()], n) then Succeeded(r, r.Ph(), n) else EarlierPhase(phases, r.Ph(), n)
  {
    RunReachableInv(phases, outcomes, r);
    PhaseDistinct(phases, r.Ph());
    CurrentNames(phases[r.Ph()], outcomes(r.Ph()), r.cur);
  }

  /** A name belongs to one phase only. */
  lemma SamePhase(phases: seq<seq<Step>>, k: nat, l: nat, n: Name)
    requires DistinctNames(FlattenAll(phases)) && k < |phases| && l < |phases| && Declared(phases[k], n) && Declared(phases[l], n)
    ensures k == l
  {
    var i :| 0 <= i < |phases[k]| && phases[k][i].name == n;
    var j :| 0 <= j < |phases[l]| && phases[l][j].name == n;
    ExpansionOrder.FlattenUnique(phases, k, l, |phases|, phases[k][i], phases[l][j]);
  }

  /** A step that succeeded is declared, and would do so. */
  lemma SucceededGood(phases: seq<seq<Step>>, outcomes: Outcomes, r: Run, k: nat, n: Name)
    requires WellOrdered(phases) && RunReachable(phases, outcomes, r) && Succeeded(r, k, n)
    ensures k < |phases| && Declared(phases[k], n) && Good(outcomes(k)(n))
  {
    PhaseReachable(phases, outcomes, r, k);
    PhaseDistinct(phases, k);
    CurrentNames(phases[k], outcomes(k), PhaseAt(r, k).value);
    ReachableConsistent(phases[k], outcomes(k), PhaseAt(r, k).value);
  }

  /** Where names are distinct a name is known to earlier or later phases only if it is theirs. */
  lemma OwnPhase(phases: seq<seq<Step>>, k: nat, ph: nat, n: Name)
    requires DistinctNames(FlattenAll(phases)) && k < |phases| && ph < |phases| && Declared(phases[k], n)
    ensures Declared(phases[ph], n) <==> k == ph
    ensures EarlierPhase(phases, ph, n) <==> k < ph
  {
    if Declared(phases[ph], n) { SamePhase(phases, k, ph, n); }
    if EarlierPhase(phases, ph, n) {
      var l: nat :| l < ph && l < |phases| && Declared(phases[l], n);
      SamePhase(phases, k, l, n);
    }
  }

  /** Every step of a phase that let the run go on has succeeded. */
  lemma PastSucceeded(phases: seq<seq<Step>>, outcomes: Outcomes, r: Run, k: nat, n: Name)
    requires WellOrdered(phases) && RunReachable(phases, outcomes, r) && k < r.Ph() && k < |phases| && Declared(phases[k], n)
    ensures Succeeded(r, k, n)
  {
    RunReachableInv(phases, outcomes, r);
    assert Through(phases[k], outcomes(k), r.past[k]);
  }

  /** Where names are distinct a name is marked as succeeded exactly when its step succeeded. */
  lemma StateMapExact(phases: seq<seq<Step>>, outcomes: Outcomes, r: Run, k: nat, n: Name)
    requires WellOrdered(phases) && DistinctNames(FlattenAll(phases)) && RunReachable(phases, outcomes, r)
    requires k < |phases| && Declared(phases[k], n)
    ensures n in OkNames(StateMap(r)) <==> Succeeded(r, k, n)
  {
    StateMapOk(phases, outcomes, r, n);
    OwnPhase(phases, k, r.Ph(), n);
    if k < r.Ph() { PastSucceeded(phases, outcomes, r, k, n); }
  }

  /** The name is known to `stateMap`, hence to some phase. */
  lemma OkPhase(phases: seq<seq<Step>>, outcomes: Outcomes, r: Run, n: Name) returns (k: nat)
    requires WellOrdered(phases) && RunReachable(phases, outcomes, r) && n in OkNames(StateMap(r))
    ensures k < |phases| && Declared(phases[k], n) && Succeeded(r, k, n)
  {
    StateMapOk(phases, outcomes, r, n);
    RunReachableInv(phases, outcomes, r);
    if Declared(phases[r.Ph()], n) {
      k := r.Ph();
    } else {
      k :| k < r.Ph() && k < |phases| && Declared(phases[k], n);
      PastSucceeded(phases, outcomes, r, k, n);
    }
  }

  lemma DeclaredFlat(phases: seq<seq<Step>>, k: nat, n: Name)
    requires k < |phases| && Declared(phases[k], n)
    ensures Declared(FlattenAll(phases), n)
  {
    var i: nat :| i < |phases[k]| && phases[k][i].name == n;
    StepInPhases(phases, k, i);
    var m :| 0 <= m < |FlattenAll(phases)| && FlattenAll(phases)[m] == phases[k][i];
  }

  lemma EdgePhase(phases: seq<seq<Step>>, n: Name, d: Name) returns (k: nat)
    requires Edge(FlattenAll(phases), n, d)
    ensures k < |phases| && Declared(phases[k], n) && Edge(phases[k], n, d)
  {
    var s :| s in FlattenAll(phases) && s.name == n && d in s.needs;
    k := ExpansionOrder.FlattenFrom(phases, |phases|, s);
    var i :| 0 <= i < |phases[k]| && phases[k][i] == s;
  }

  /** Rollback is given the step of the last phase that has one of this name. */
  ghost predicate LastPhase(phases: seq<seq<Step>>, k: nat, n: Name) {
    k < |phases| && Declared(phases[k], n) && forall l: nat :: k < l < |phases| ==> !Declared(phases[l], n)
  }

  lemma {:induction false} GivenByLastPhase(phases: seq<seq<Step>>, k: nat, n: Name, top: nat)
    requires k < top <= |phases| && Declared(phases[k], n) && forall l: nat :: k < l < top ==> !Declared(phases[l], n)
    ensures Declared(Flatten(phases, top), n) && LastNamed(Flatten(phases, top), n) in phases[k]
  {
    if k == top - 1 {
      LastNamedConcat(Flatten(phases, k), phases[k], n);
    } else {
      GivenByLastPhase(phases, k, n, top - 1);
      LastNamedConcat(Flatten(phases, top - 1), phases[top - 1], n);
    }
  }

  /** The step that Rollback is given under this name is the one of the last phase that has one. */
  lemma GivenOfLastPhase(phases: seq<seq<Step>>, k: nat, n: Name)
    requires LastPhase(phases, k, n)
    ensures Declared(FlattenAll(phases), n) && LastNamed(FlattenAll(phases), n) in phases[k]
  {
    GivenByLastPhase(phases, k, n, |phases|);
  }

  /** The steps that succeeded are rolled back, each of them once, and no others. */
  ghost predicate UndoesExactly(phases: seq<seq<Step>>, r: Run, calls: seq<Name>) {
    && NoRepeats(calls)
    && forall k: nat, n :: k < |phases| && Declared(phases[k], n) ==>
      (n in calls && LastPhase(phases, k, n) <==> Succeeded(r, k, n))
  }

  lemma OkClosed(phases: seq<seq<Step>>, outcomes: Outcomes, r: Run, n: Name, d: Name)
    requires WellOrdered(phases) && DistinctNames(FlattenAll(phases)) && RunReachable(phases, outcomes, r)
    requires n in OkNames(StateMap(r)) && Edge(FlattenAll(phases), n, d)
    ensures d in OkNames(StateMap(r))
  {
    var k := EdgePhase(phases, n, d);
    StateMapExact(phases, outcomes, r, k, n);
    EdgeReaches(phases[k], n, d);
    SucceededClosed(phases, outcomes, r, k, n, d);
    SucceededGood(phases, outcomes, r, k, d);
    StateMapExact(phases, outcomes, r, k, d);
  }

  lemma OkRegistered(phases: seq<seq<Step>>, outcomes: Outcomes, registered: Registry, r: Run, s: Step)
    requires WellOrdered(phases) && DistinctNames(FlattenAll(phases)) && RunReachable(phases, outcomes, r)
    requires UnregisteredFails(phases, outcomes, registered) && s in FlattenAll(phases) && s.name in OkNames(StateMap(r))
    ensures registered(s.kind)
  {
    var k := ExpansionOrder.FlattenFrom(phases, |phases|, s);
    var i: nat :| i < |phases[k]| && phases[k][i] == s;
    StateMapExact(phases, outcomes, r, k, s.name);
    SucceededGood(phases, outcomes, r, k, s.name);
  }

  /** The rollback of a failed run is correct for what that run had done. */
  lemma FailedRunRollsBack(phases: seq<seq<Step>>, outcomes: Outcomes, registered: Registry, r: Run)
    requires WellOrdered(phases) && DistinctNames(FlattenAll(phases)) && RunReachable(phases, outcomes, r)
    requires UnregisteredFails(phases, outcomes, registered)
    ensures var ok := OkNames(StateMap(r));
      var calls := RollbackCalls(FlattenAll(phases), ok, registered);
      CorrectRollback(FlattenAll(phases), ok, calls) && UndoesExactly(phases, r, calls)
  {
    var steps, ok := FlattenAll(phases), OkNames(StateMap(r));
    FlattenTopological(phases, |phases|);
    forall n | n in ok
      ensures Declared(steps, n)
    {
      var k := OkPhase(phases, outcomes, r, n);
      DeclaredFlat(phases, k, n);
    }
    forall n, d | n in ok && Edge(steps, n, d)
      ensures d in ok
    {
      OkClosed(phases, outcomes, r, n, d);
    }
    forall s | s in steps && s.name in ok
      ensures registered(s.kind)
    {
      OkRegistered(phases, outcomes, registered, r, s);
    }
    RollbackCorrect(steps, ok, registered);
    OkExactly(phases, outcomes, r, RollbackCalls(steps, ok, registered));
  }

  lemma OkExactly(phases: seq<seq<Step>>, outcomes: Outcomes, r: Run, calls: seq<Name>)
    requires WellOrdered(phases) && DistinctNames(FlattenAll(phases)) && RunReachable(phases, outcomes, r)
    requires NoRepeats(calls) && forall n :: n in calls <==> n in OkNames(StateMap(r))
    ensures UndoesExactly(phases, r, calls)
  {
    forall k: nat, n | k < |phases| && Declared(phases[k], n)
      ensures n in calls && LastPhase(phases, k, n) <==> Succeeded(r, k, n)
    {
      StateMapExact(phases, outcomes, r, k, n);
      forall l: nat | k < l < |phases|
        ensures !Declared(phases[l], n)
      {
        if Declared(phases[l], n) { SamePhase(phases, k, l, n); }
      }
    }
  }

  // ---------------------------------------------------------------- Run as a whole

  datatype RunOutcome =
    | Rejected(error: PhaseError)
    | Completed
    | RolledBack(calls: seq<Name>, given: seq<Step>)

  /** What validation asks of a pipeline. */
  ghost predicate AllAccepted(p: Pipeline) { Accepted(p.build) && Accepted(p.deploy) && Accepted(p.steps) }

  lemma OrderingDistinct(order: seq<Step>, steps: seq<Step>)
    requires OrderingOf(order, steps) && Accepted(steps)
    ensures Topological(order) && DistinctNames(order)
  {
    DistinctPermutation(order, steps);
  }

  lemma PlanWellOrdered(p: Pipeline, skipBuild: bool, phases: seq<seq<Step>>)
    requires AllAccepted(p) && PhasesOf(p, skipBuild, phases)
    ensures WellOrdered(phases)
  {
    forall k | 0 <= k < |phases|
      ensures Topological(phases[k]) && DistinctNames(phases[k])
    {
      OrderingDistinct(phases[k], PartsRun(p, skipBuild)[k]);
    }
  }

  /** Reordering each phase reorders the whole. */
  lemma {:induction false} FlattenPermuted(phases: seq<seq<Step>>, parts: seq<seq<Step>>, k: nat)
    requires k <= |phases| == |parts| && forall l :: 0 <= l < k ==> OrderingOf(phases[l], parts[l])
    ensures multiset(Flatten(phases, k)) == multiset(Flatten(parts, k))
  {
    if k > 0 { FlattenPermuted(phases, parts, k - 1); }
  }

  /** What a step would do does not depend on its place in the order. */
  lemma PartsFail(p: Pipeline, skipBuild: bool, phases: seq<seq<Step>>, outcomes: Outcomes, registered: Registry)
    requires PhasesOf(p, skipBuild, phases) && UnregisteredFails(PartsRun(p, skipBuild), outcomes, registered)
    ensures UnregisteredFails(phases, outcomes, registered)
  {
    var parts := PartsRun(p, skipBuild);
    forall k: nat, i: nat | k < |phases| && i < |phases[k]| && !registered(phases[k][i].kind)
      ensures outcomes(k)(phases[k][i].name).EarlyError?
    {
      SameStepSet(phases[k], parts[k]);
      assert phases[k][i] in phases[k];
      var j: nat :| j < |parts[k]| && parts[k][j] == phases[k][i];
    }
  }

  /** The last phase run is the one called steps, the one before it deploy, and the build phase comes
      first; under SkipBuild nothing is run but deploy and steps. */
  ghost predicate InTurn(p: Pipeline, skipBuild: bool, phases: seq<seq<Step>>) {
    && |phases| >= 2 && OrderingOf(phases[|phases| - 1], p.steps) && OrderingOf(phases[|phases| - 2], p.deploy)
    && (if skipBuild then multiset(FlattenAll(phases)) == multiset(p.deploy) + multiset(p.steps)
        else |phases| == 3 && OrderingOf(phases[0], p.build))
  }

  lemma InTurnAll(p: Pipeline, skipBuild: bool, phases: seq<seq<Step>>)
    requires PhasesOf(p, skipBuild, phases)
    ensures InTurn(p, skipBuild, phases)
  {
    FlattenTwoOrThree(phases);
    if skipBuild && |phases| == 3 { SameStepSet(phases[0], p.build); }
  }

  /** The contents of a rollback: the reverse walk over what `stateMap` marks as succeeded, each
      call with the last step of its name. */
  ghost predicate Rolled(phases: seq<seq<Step>>, stateMap: map<Name, bool>, registered: Registry, calls: seq<Name>,
                         given: seq<Step>)
  {
    calls == RollbackCalls(FlattenAll(phases), OkNames(stateMap), registered) && GivenLast(FlattenAll(phases), calls, given)
  }

  /** A run that was not cancelled fails because of a step that fails. */
  lemma WhyItEnded(phases: seq<seq<Step>>, outcomes: Outcomes, r: Run)
    requires WellOrdered(phases) && RunReachable(phases, outcomes, r) && Finished(phases, r)
    ensures !r.cur.failed ==> forall k: nat, i: nat :: k < |phases| && i < |phases[k]| ==>
      outcomes(k)(phases[k][i].name).Succeeds? || outcomes(k)(phases[k][i].name).Skipped?
    ensures r.cur.failed && !r.cur.parent ==>
      (exists k: nat, i: nat :: k < |phases| && i < |phases[k]| &&
        (outcomes(k)(phases[k][i].name).ExecuteFails? || outcomes(k)(phases[k][i].name).EarlyError?))
  {
    RunVerdict(phases, outcomes, r);
    GoodOutcomes(phases, outcomes, |phases|);
    if r.cur.failed && !r.cur.parent {
      var k: nat, i: nat :| k < |phases| && i < |phases[k]| &&
        !(outcomes(k)(phases[k][i].name).Succeeds? || outcomes(k)(phases[k][i].name).Skipped?);
      assert outcomes(k)(phases[k][i].name).ExecuteFails? || outcomes(k)(phases[k][i].name).EarlyError?;
    }
  }

  /** Engine.Run under an arbitrary schedule.  It rejects exactly the malformed pipelines;
      otherwise, unless the caller cancels, it succeeds exactly when every step it runs
      would succeed or be skipped; and when it fails it rolls back, correctly if no two steps
      that are run share a name. */
  method RunPipeline(p: Pipeline, outcomes: Outcomes, registered: Registry, skipBuild: bool, mayCancel: bool,
                     rollbackFails: Name -> bool)
    returns (out: RunOutcome, stateMap: map<Name, bool>, ghost phases: seq<seq<Step>>, ghost last: Run)
    requires UnregisteredFails(PartsRun(p, skipBuild), outcomes, registered)
    ensures out.Rejected? <==> !AllAccepted(p)
    ensures out.Rejected? ==> FirstRejected(p, out.error)
    ensures !out.Rejected? ==> PhasesOf(p, skipBuild, phases) && InTurn(p, skipBuild, phases) && WellOrdered(phases)
    ensures out.Completed? ==> forall k: nat, i: nat :: k < |phases| && i < |phases[k]| ==>
      outcomes(k)(phases[k][i].name).Succeeds? || outcomes(k)(phases[k][i].name).Skipped?
    ensures out.RolledBack? && !mayCancel ==>
      (exists k: nat, i: nat :: k < |phases| && i < |phases[k]| &&
        (outcomes(k)(phases[k][i].name).ExecuteFails? || outcomes(k)(phases[k][i].name).EarlyError?))
    ensures !out.Rejected? ==> RunReachable(phases, outcomes, last) && Finished(phases, last)
    ensures !out.Rejected? ==> stateMap == StateMap(last) && (out.Completed? <==> !last.cur.failed)
    ensures out.RolledBack? ==> Rolled(phases, stateMap, registered, out.calls, out.given)
    ensures out.RolledBack? && DistinctNames(FlattenAll(PartsRun(p, skipBuild))) ==>
      CorrectRollback(FlattenAll(phases), OkNames(stateMap), out.calls) && UndoesExactly(phases, last, out.calls)
  {
    stateMap, phases, last := map[], [], Run([], Initial([], false), map[]);
    var plan := ValidateDag(p);
    if plan.Err? { return Rejected(plan.error), stateMap, phases, last; }
    var (order, buildCount) := plan.value;
    var parts, stepsToRun := SplitPhases(p, order, buildCount, skipBuild);
    var nameToStep := IndexByName(stepsToRun);
    phases := parts;
    PlanWellOrdered(p, skipBuild, parts);
    InTurnAll(p, skipBuild, parts);
    var r := RunPhases(parts, outcomes, false, mayCancel);
    WhyItEnded(parts, outcomes, r);
    stateMap, last := StateMap(r), r;
    if !r.cur.failed { return Completed, stateMap, phases, last; }
    RunRollsBack(p, skipBuild, parts, outcomes, registered, r);
    var calls, given, errors := UndoSucceeded(stepsToRun, nameToStep, stateMap, registered, rollbackFails);
    return RolledBack(calls, given), stateMap, phases, last;
  }

  lemma RunRollsBack(p: Pipeline, skipBuild: bool, phases: seq<seq<Step>>, outcomes: Outcomes, registered: Registry, r: Run)
    requires PhasesOf(p, skipBuild, phases) && WellOrdered(phases) && RunReachable(phases, outcomes, r)
    requires UnregisteredFails(PartsRun(p, skipBuild), outcomes, registered)
    ensures DistinctNames(FlattenAll(PartsRun(p, skipBuild))) ==>
      var calls := RollbackCalls(FlattenAll(phases), OkNames(StateMap(r)), registered);
      CorrectRollback(FlattenAll(phases), OkNames(StateMap(r)), calls) && UndoesExactly(phases, r, calls)
  {
    if DistinctNames(FlattenAll(PartsRun(p, skipBuild))) {
      FlattenPermuted(phases, PartsRun(p, skipBuild), |phases|);
      DistinctPermutation(FlattenAll(phases), FlattenAll(PartsRun(p, skipBuild)));
      PartsFail(p, skipBuild, phases, outcomes, registered);
      FailedRunRollsBack(phases, outcomes, registered, r);
    }
  }
}
