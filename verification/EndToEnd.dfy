/** The chain from the phase as written to the running pipeline, and its reversal by `destroy`. */
module EndToEnd {
  import opened Steps
  import opened Expander
  import opened ExpansionOrder
  import opened Scheduler
  import opened Rollback
  import opened Engine

  /** A pipeline as written, includes unexpanded. */
  datatype SourcePipeline = SourcePipeline(build: seq<SourceStep>, deploy: seq<SourceStep>, steps: seq<SourceStep>)

  ghost function ExpandedPipeline(p: SourcePipeline, lib: Library): Pipeline {
    Pipeline(Expansion(p.build, lib), Expansion(p.deploy, lib), Expansion(p.steps, lib))
  }

  ghost predicate Loadable(p: SourcePipeline, lib: Library) {
    AllLoad(p.build, lib) && AllLoad(p.deploy, lib) && AllLoad(p.steps, lib)
  }

  /** The error is that of the first bad include of the first phase that has one. */
  ghost predicate FirstUnloadable(p: SourcePipeline, lib: Library, e: ExpandError) {
    if !AllLoad(p.build, lib) then ReportsFirstFault(p.build, lib, e)
    else if !AllLoad(p.deploy, lib) then ReportsFirstFault(p.deploy, lib, e)
    else ReportsFirstFault(p.steps, lib, e)
  }

  /** Each phase is expanded on its own. */
  method ExpandPipeline(p: SourcePipeline, lib: Library) returns (r: Result<Pipeline, ExpandError>)
    ensures r.Ok? <==> Loadable(p, lib)
    ensures r.Ok? ==> r.value == ExpandedPipeline(p, lib)
    ensures r.Err? ==> FirstUnloadable(p, lib, r.error)
  {
    var build, _ := ExpandStepArray(p.build, lib);
    if build.Err? { return Err(build.error); }
    var deploy, _ := ExpandStepArray(p.deploy, lib);
    if deploy.Err? { return Err(deploy.error); }
    var steps, _ := ExpandStepArray(p.steps, lib);
    if steps.Err? { return Err(steps.error); }
    return Ok(Pipeline(build.value, deploy.value, steps.value));
  }

  /** In every run of the expanded and validated pipeline: if a chain of needs leads from item `i`
      of a phase to item `j`, no step that `i` was expanded to executes before every step that `j`
      was expanded to has finished with a nil error.  Only the items of the chain matter. */
  lemma IncludeBarrier(src: seq<SourceStep>, lib: Library, q: seq<nat>, i: nat, j: nat, x: Name, y: Name,
                       phases: seq<seq<Step>>, k: nat, outcomes: Outcomes, r: Run)
    requires DistinctNames(Outline(src)) && ItemPath(src, lib, q) && i == q[0] && j == q[|q| - 1]
    requires InPiece(src, lib, i, x) && InPiece(src, lib, j, y)
    requires WellOrdered(phases) && k < |phases| && OrderingOf(phases[k], Expansion(src, lib))
    requires RunReachable(phases, outcomes, r) && (Executed(r, k, x) || Succeeded(r, k, x))
    ensures Succeeded(r, k, y)
  {
    ItemPathForward(src, lib, q, i, j);
    assert Reaches(Expansion(src, lib), x, y);
    OrderingReaches(phases[k], Expansion(src, lib), x, y);
    SucceededClosed(phases, outcomes, r, k, x, y);
  }

  lemma OrderingReaches(order: seq<Step>, steps: seq<Step>, x: Name, y: Name)
    requires OrderingOf(order, steps) && Reaches(steps, x, y)
    ensures Reaches(order, x, y)
  {
    SameStepSet(order, steps);
    assert forall a, b :: Edge(steps, a, b) ==> Edge(order, a, b);
    ReachesMonotone(steps, order, x, y);
  }

  // ---------------------------------------------------------------- from the source to the run

  /** `x` belongs to the first and `y` to the last item of a chain of needs. */
  ghost predicate Behind(src: seq<SourceStep>, lib: Library, q: seq<nat>, x: Name, y: Name) {
    ItemPath(src, lib, q) && InPiece(src, lib, q[0], x) && InPiece(src, lib, q[|q| - 1], y)
  }

  /** Phase `k` is an ordering of the expansion of `src`. */
  ghost predicate RunsPhase(src: seq<SourceStep>, lib: Library, phases: seq<seq<Step>>, k: nat) {
    k < |phases| && OrderingOf(phases[k], Expansion(src, lib))
  }

  /** The barrier of every chain of needs in phase `k`, as the run stands. */
  ghost predicate BarriersHold(src: seq<SourceStep>, lib: Library, r: Run, k: nat) {
    forall q, x, y :: Behind(src, lib, q, x, y) && (Executed(r, k, x) || Succeeded(r, k, x)) ==> Succeeded(r, k, y)
  }

  lemma PhaseBarriers(src: seq<SourceStep>, lib: Library, phases: seq<seq<Step>>, k: nat, outcomes: Outcomes, r: Run)
    requires WellOrdered(phases) && RunsPhase(src, lib, phases, k) && RunReachable(phases, outcomes, r)
    ensures DistinctNames(Outline(src)) ==> BarriersHold(src, lib, r, k)
  {
    if DistinctNames(Outline(src)) {
      forall q, x, y | Behind(src, lib, q, x, y) && (Executed(r, k, x) || Succeeded(r, k, x))
        ensures Succeeded(r, k, y)
      {
        IncludeBarrier(src, lib, q, q[0], q[|q| - 1], x, y, phases, k, outcomes, r);
      }
    }
  }

  /** Item names are distinct within the phase, and no unresolved need spells the name of a step. */
  ghost predicate Unambiguous(src: seq<SourceStep>, lib: Library) {
    DistinctNames(Outline(src)) && NoStrayReference(src, lib)
  }

  /** What is asked of a phase as it was written. */
  ghost predicate SourceAccepted(src: seq<SourceStep>, lib: Library) {
    Sound(src, lib) && Acyclic(Trimmed(src, lib))
  }

  lemma AcceptedAsWritten(src: seq<SourceStep>, lib: Library)
    requires Unambiguous(src, lib)
    ensures Accepted(Expansion(src, lib)) <==> SourceAccepted(src, lib)
  {
    AcceptedIffSourceAccepted(src, lib);
  }

  ghost predicate PhasesWritten(p: SourcePipeline, lib: Library, accepted: bool) {
    Unambiguous(p.build, lib) && Unambiguous(p.deploy, lib) && Unambiguous(p.steps, lib) ==>
      (accepted <==> SourceAccepted(p.build, lib) && SourceAccepted(p.deploy, lib) && SourceAccepted(p.steps, lib))
  }

  lemma RejectedAsWritten(p: SourcePipeline, lib: Library)
    ensures PhasesWritten(p, lib, AllAccepted(ExpandedPipeline(p, lib)))
  {
    if Unambiguous(p.build, lib) && Unambiguous(p.deploy, lib) && Unambiguous(p.steps, lib) {
      AcceptedAsWritten(p.build, lib);
      AcceptedAsWritten(p.deploy, lib);
      AcceptedAsWritten(p.steps, lib);
    }
  }

  /** The phases as written that are run, in order. */
  ghost function SourcesRun(p: SourcePipeline, lib: Library, skipBuild: bool): seq<seq<SourceStep>> {
    if skipBuild && |Expansion(p.build, lib)| > 0 then [p.deploy, p.steps] else [p.build, p.deploy, p.steps]
  }

  lemma SourcesAndPhases(p: SourcePipeline, lib: Library, skipBuild: bool, phases: seq<seq<Step>>, k: nat)
    requires PhasesOf(ExpandedPipeline(p, lib), skipBuild, phases) && k < |phases|
    ensures |SourcesRun(p, lib, skipBuild)| == |phases| && RunsPhase(SourcesRun(p, lib, skipBuild)[k], lib, phases, k)
  {
    PartsOfSources(p, lib, skipBuild);
    assert OrderingOf(phases[k], PartsRun(ExpandedPipeline(p, lib), skipBuild)[k]);
  }

  lemma PartsOfSources(p: SourcePipeline, lib: Library, skipBuild: bool)
    ensures var sources, parts := SourcesRun(p, lib, skipBuild), PartsRun(ExpandedPipeline(p, lib), skipBuild);
      |sources| == |parts| && forall k :: 0 <= k < |parts| ==> parts[k] == Expansion(sources[k], lib)
  {
  }

  /** Every barrier of every phase as written that has distinct item names. */
  ghost predicate AllBarriersHold(sources: seq<seq<SourceStep>>, lib: Library, r: Run) {
    forall k: nat :: k < |sources| && DistinctNames(Outline(sources[k])) ==> BarriersHold(sources[k], lib, r, k)
  }

  lemma RunKeepsBarriers(p: SourcePipeline, lib: Library, skipBuild: bool, phases: seq<seq<Step>>, outcomes: Outcomes, r: Run)
    requires PhasesOf(ExpandedPipeline(p, lib), skipBuild, phases) && WellOrdered(phases) && RunReachable(phases, outcomes, r)
    ensures AllBarriersHold(SourcesRun(p, lib, skipBuild), lib, r)
  {
    var sources := SourcesRun(p, lib, skipBuild);
    forall k: nat | k < |sources| && DistinctNames(Outline(sources[k]))
      ensures BarriersHold(sources[k], lib, r, k)
    {
      SourcesAndPhases(p, lib, skipBuild, phases, k);
      PhaseBarriers(sources[k], lib, phases, k, outcomes, r);
    }
  }

  /** The whole chain under an arbitrary schedule: expand, validate, run, roll back.  A bad include is
      an error; the expanded pipeline is rejected exactly when some phase as written is not
      well-formed; otherwise the run keeps every barrier of the phases as written, succeeds when all
      its steps do, and is rolled back when it fails, correctly if no two steps run share a name. */
  method RunSource(p: SourcePipeline, lib: Library, outcomes: Outcomes, registered: Registry, skipBuild: bool, mayCancel: bool,
                   rollbackFails: Name -> bool)
    returns (out: Result<RunOutcome, ExpandError>, stateMap: map<Name, bool>, ghost phases: seq<seq<Step>>, ghost last: Run)
    requires UnregisteredFails(PartsRun(ExpandedPipeline(p, lib), skipBuild), outcomes, registered)
    ensures out.Err? <==> !Loadable(p, lib)
    ensures out.Err? ==> FirstUnloadable(p, lib, out.error)
    ensures out.Ok? ==> PhasesWritten(p, lib, !out.value.Rejected?)
    ensures out.Ok? && !out.value.Rejected? ==>
      && PhasesOf(ExpandedPipeline(p, lib), skipBuild, phases) && InTurn(ExpandedPipeline(p, lib), skipBuild, phases)
      && RunReachable(phases, outcomes, last) && Finished(phases, last)
      && stateMap == StateMap(last) && (out.value.Completed? <==> !last.cur.failed)
      && AllBarriersHold(SourcesRun(p, lib, skipBuild), lib, last)
    ensures out.Ok? && out.value.Completed? ==> forall k: nat, i: nat :: k < |phases| && i < |phases[k]| ==>
      outcomes(k)(phases[k][i].name).Succeeds? || outcomes(k)(phases[k][i].name).Skipped?
    ensures out.Ok? && out.value.RolledBack? && !mayCancel ==>
      (exists k: nat, i: nat :: k < |phases| && i < |phases[k]| &&
        (outcomes(k)(phases[k][i].name).ExecuteFails? || outcomes(k)(phases[k][i].name).EarlyError?))
    ensures out.Ok? && out.value.RolledBack? ==> Rolled(phases, stateMap, registered, out.value.calls, out.value.given)
    ensures out.Ok? && out.value.RolledBack? && DistinctNames(FlattenAll(PartsRun(ExpandedPipeline(p, lib), skipBuild))) ==>
      CorrectRollback(FlattenAll(phases), OkNames(stateMap), out.value.calls) && UndoesExactly(phases, last, out.value.calls)
  {
    stateMap, phases, last := map[], [], Run([], Initial([], false), map[]);
    var expanded := ExpandPipeline(p, lib);
    if expanded.Err? { return Err(expanded.error), stateMap, phases, last; }
    var outcome;
    outcome, stateMap, phases, last := RunPipeline(expanded.value, outcomes, registered, skipBuild, mayCancel, rollbackFails);
    RejectedAsWritten(p, lib);
    if !outcome.Rejected? { RunKeepsBarriers(p, lib, skipBuild, phases, outcomes, last); }
    return Ok(outcome), stateMap, phases, last;
  }

  // ---------------------------------------------------------------- destroy

  /** What RunDestroy meets at a step: no plugin, a false `run_if`, roles that do not
      resolve, or the result of Uninstall. */
  datatype Teardown = Unregistered | RunIfFalse | UnresolvedTargets | Uninstalled | UninstallFails
  type TeardownOracle = Name -> Teardown

  predicate Fatal(t: Teardown) { t.UnresolvedTargets? || t.UninstallFails? }

  predicate Calls(t: Teardown) { t.Uninstalled? || t.UninstallFails? }

  ghost function CalledNames(order: seq<Step>, teardown: TeardownOracle): (names: set<Name>) {
    set s | s in order && Calls(teardown(s.name)) :: s.name
  }

  const ANY_KIND: Registry := (kind: string) => true

  ghost function UninstallCalls(order: seq<Step>, from: nat, called: set<Name>): seq<Name>
    requires from <= |order|
  {
    RollbackCalls(order[from..], called, ANY_KIND)
  }

  lemma UninstallNext(order: seq<Step>, i: nat, called: set<Name>)
    requires i < |order|
    ensures UninstallCalls(order, i, called) == UninstallCalls(order, i + 1, called) + if order[i].name in called then [order[i].name] else []
  {
    assert order[i..] == [order[i]] + order[i + 1..];
    RollbackConcat([order[i]], order[i + 1..], called, ANY_KIND);
    assert RollbackCalls([order[i]], called, ANY_KIND) == CallFor(order[i], called, ANY_KIND) + [];
  }

  lemma WhoIsCalled(order: seq<Step>, from: nat, teardown: TeardownOracle)
    requires from <= |order|
    ensures var calls := UninstallCalls(order, from, CalledNames(order, teardown));
      && (forall n :: n in calls ==> Calls(teardown(n)) && exists i :: from <= i < |order| && order[i].name == n)
      && forall i :: from <= i < |order| && Calls(teardown(order[i].name)) ==> order[i].name in calls
  {
    var called, tail := CalledNames(order, teardown), order[from..];
    var calls := UninstallCalls(order, from, called);
    forall n | n in calls
      ensures Calls(teardown(n)) && exists i :: from <= i < |order| && order[i].name == n
    {
      RollbackMembers(tail, called, ANY_KIND, n);
      var s :| s in tail && s.name == n && Undoable(s, called, ANY_KIND);
      var i :| 0 <= i < |tail| && tail[i] == s;
      assert order[from + i].name == n;
    }
    forall i | from <= i < |order| && Calls(teardown(order[i].name))
      ensures order[i].name in calls
    {
      assert order[i] in order && tail[i - from] in tail;
      assert Undoable(order[i], called, ANY_KIND);
      RollbackMembers(tail, called, ANY_KIND, order[i].name);
    }
  }

  lemma StoppedAt(order: seq<Step>, stop: nat, teardown: TeardownOracle, calls: seq<Name>)
    requires stop < |order| && calls == UninstallCalls(order, stop, CalledNames(order, teardown))
    requires Fatal(teardown(order[stop].name)) && forall i :: stop < i < |order| ==> !Fatal(teardown(order[i].name))
    ensures forall n :: n in calls ==> teardown(n).Uninstalled? || (teardown(n).UninstallFails? && order[stop].name == n)
    ensures forall i :: stop < i < |order| && teardown(order[i].name).Uninstalled? ==> order[i].name in calls
    ensures teardown(order[stop].name).UninstallFails? ==> calls != [] && calls[|calls| - 1] == order[stop].name
  {
    WhoIsCalled(order, stop, teardown);
    UninstallNext(order, stop, CalledNames(order, teardown));
    assert order[stop] in order;
  }

  /** Uninstall goes through the merged order from the back and stops at the first error.
      `stop` is the position of that step, or -1. */
  method RunDestroy(order: seq<Step>, teardown: TeardownOracle) returns (calls: seq<Name>, stop: int)
    ensures -1 <= stop < |order|
    ensures forall i :: stop < i < |order| ==>
      !teardown(order[i].name).UnresolvedTargets? && !teardown(order[i].name).UninstallFails?
    ensures stop >= 0 ==> teardown(order[stop].name).UnresolvedTargets? || teardown(order[stop].name).UninstallFails?
    ensures stop >= 0 && teardown(order[stop].name).UninstallFails? ==> calls != [] && calls[|calls| - 1] == order[stop].name
    ensures forall n :: n in calls ==>
      teardown(n).Uninstalled? || (teardown(n).UninstallFails? && stop >= 0 && order[stop].name == n)
    ensures forall i :: stop < i < |order| && teardown(order[i].name).Uninstalled? ==> order[i].name in calls
    ensures calls == UninstallCalls(order, if stop < 0 then 0 else stop, CalledNames(order, teardown))
  {
    calls, stop := [], -1;
    ghost var called := CalledNames(order, teardown);
    var i := |order|;
    while i > 0
      invariant 0 <= i <= |order|
      invariant forall j :: i <= j < |order| ==> !Fatal(teardown(order[j].name))
      invariant calls == UninstallCalls(order, i, called)
    {
      i := i - 1;
      var s := order[i];
      assert s in order;
      UninstallNext(order, i, called);
      assert s.name in called <==> Calls(teardown(s.name));
      match teardown(s.name)
      case Unregistered =>
      case RunIfFalse =>
      case UnresolvedTargets =>
        stop := i;
        StoppedAt(order, i, teardown, calls);
        return;
      case Uninstalled => calls := calls + [s.name];
      case UninstallFails =>
        calls := calls + [s.name];
        stop := i;
        StoppedAt(order, i, teardown, calls);
        return;
    }
    WhoIsCalled(order, 0, teardown);
  }

  /** When a step is uninstalled, every step that needs it has already been uninstalled or
      was passed over for want of a plugin or because of its `run_if`. */
  lemma DestroyRespectsNeeds(order: seq<Step>, teardown: TeardownOracle, from: nat, b: nat, n: Name)
    requires DistinctNames(order) && Topological(order) && from <= |order|
    requires forall i :: from < i < |order| ==> !Fatal(teardown(order[i].name))
    requires var calls := UninstallCalls(order, from, CalledNames(order, teardown));
      b < |calls| && Edge(order, n, calls[b])
    ensures var calls := UninstallCalls(order, from, CalledNames(order, teardown));
      n in calls[..b] || teardown(n).Unregistered? || teardown(n).RunIfFalse?
  {
    var tail, called := order[from..], CalledNames(order, teardown);
    var calls := UninstallCalls(order, from, called);
    var d := calls[b];
    NeedIsBefore(order, n, d);
    RollbackMembers(tail, called, ANY_KIND, d);
    BeforeInTail(order, from, d, n);
    if Calls(teardown(n)) {
      RollbackMembers(tail, called, ANY_KIND, n);
      var t :| t in tail && t.name == n;
      assert t in order && Undoable(t, called, ANY_KIND);
      RollbackBackwards(tail, called, ANY_KIND);
      DistinctSuffix(order, from);
      CalledBefore(tail, calls, b, n);
    }
  }

  lemma BeforeInTail(order: seq<Step>, from: nat, d: Name, n: Name)
    requires DistinctNames(order) && from <= |order| && Before(order, d, n) && Declared(order[from..], d)
    ensures Before(order[from..], d, n)
    ensures forall j :: 0 <= j < |order| && order[j].name == n ==> j > from
  {
    var i, j :| 0 <= i < j < |order| && order[i].name == d && order[j].name == n;
    var m :| 0 <= m < |order[from..]| && order[from..][m].name == d;
    assert order[from + m].name == d;
    assert order[from..][i - from].name == d && order[from..][j - from].name == n;
  }

  lemma DistinctSuffix(steps: seq<Step>, k: nat)
    requires DistinctNames(steps) && k <= |steps|
    ensures DistinctNames(steps[k..])
  {
    forall i, j | 0 <= i < j < |steps[k..]|
      ensures steps[k..][i].name != steps[k..][j].name
    {
      assert steps[k + i].name != steps[k + j].name;
    }
  }

  /** The merged order is made up of an ordering of each phase. */
  lemma PlanPhases(p: Pipeline, order: seq<Step>, buildCount: nat) returns (phases: seq<seq<Step>>)
    requires PlanOf(p, order, buildCount)
    ensures PhasesOf(p, false, phases) && FlattenAll(phases) == order
  {
    var i, j := buildCount, buildCount + |p.deploy|;
    phases := [order[..i], order[i..j], order[j..]];
    CutInThree(order, i, j);
    FlattenTwoOrThree(phases);
  }

  /** The merged order is topological, and a reordering of all the steps. */
  lemma PlanTopological(p: Pipeline, order: seq<Step>, buildCount: nat)
    requires AllAccepted(p) && PlanOf(p, order, buildCount)
    ensures OrderingOf(order, FlattenAll(PartsRun(p, false)))
  {
    var phases := PlanPhases(p, order, buildCount);
    PlanWellOrdered(p, false, phases);
    FlattenTopological(phases, |phases|);
    FlattenPermuted(phases, PartsRun(p, false), |phases|);
  }

  /** What the calls come to, for a pipeline in which no name is used twice: each step at most once,
      none before all that need it were uninstalled or passed over. */
  ghost predicate OrderlyDestroy(steps: seq<Step>, teardown: TeardownOracle, calls: seq<Name>) {
    && NoRepeats(calls)
    && forall b, n :: 0 <= b < |calls| && Edge(steps, n, calls[b]) ==>
      n in calls[..b] || teardown(n).Unregistered? || teardown(n).RunIfFalse?
  }

  lemma DestroyOrderly(order: seq<Step>, steps: seq<Step>, teardown: TeardownOracle, from: nat)
    requires OrderingOf(order, steps) && DistinctNames(steps) && from <= |order|
    requires forall i :: from < i < |order| ==> !Fatal(teardown(order[i].name))
    ensures OrderlyDestroy(steps, teardown, UninstallCalls(order, from, CalledNames(order, teardown)))
  {
    var called := CalledNames(order, teardown);
    var calls := UninstallCalls(order, from, called);
    DistinctPermutation(order, steps);
    SameStepSet(order, steps);
    DistinctSuffix(order, from);
    RollbackNoRepeats(order[from..], called, ANY_KIND);
    forall b, n | 0 <= b < |calls| && Edge(steps, n, calls[b])
      ensures n in calls[..b] || teardown(n).Unregistered? || teardown(n).RunIfFalse?
    {
      DestroyRespectsNeeds(order, teardown, from, b, n);
    }
  }

  /** What the order of the steps has to do with it is only who is called; that is, all but the ones passed
      over, unless one of them is fatal. */
  lemma DestroyVerdict(order: seq<Step>, steps: seq<Step>, teardown: TeardownOracle, calls: seq<Name>, stop: int)
    requires OrderingOf(order, steps) && -1 <= stop < |order|
    requires forall i :: stop < i < |order| ==> !Fatal(teardown(order[i].name))
    requires stop >= 0 ==> Fatal(teardown(order[stop].name))
    requires forall i :: stop < i < |order| && teardown(order[i].name).Uninstalled? ==> order[i].name in calls
    ensures stop < 0 <==> forall s :: s in steps ==>
      teardown(s.name).Unregistered? || teardown(s.name).RunIfFalse? || teardown(s.name).Uninstalled?
    ensures stop < 0 ==> forall s :: s in steps && teardown(s.name).Uninstalled? ==> s.name in calls
  {
    SameStepSet(order, steps);
    if stop >= 0 {
      assert order[stop] in steps;
    } else {
      forall s | s in steps
        ensures !Fatal(teardown(s.name)) && (teardown(s.name).Uninstalled? ==> s.name in calls)
      {
        var i :| 0 <= i < |order| && order[i] == s;
      }
    }
  }

  /** Destroy of a whole pipeline: rejects exactly the malformed ones, like Run, then goes through
      the merged order of all three phases. */
  method DestroyPipeline(p: Pipeline, teardown: TeardownOracle)
    returns (r: Result<(seq<Name>, bool), PhaseError>)
    ensures r.Ok? <==> AllAccepted(p)
    ensures r.Err? ==> FirstRejected(p, r.error)
    ensures r.Ok? ==> (r.value.1 <==> forall s :: s in p.build + p.deploy + p.steps ==>
      teardown(s.name).Unregistered? || teardown(s.name).RunIfFalse? || teardown(s.name).Uninstalled?)
    ensures r.Ok? ==> forall n :: n in r.value.0 ==> teardown(n).Uninstalled? || (!r.value.1 && teardown(n).UninstallFails?)
    ensures r.Ok? && r.value.1 ==> forall s :: s in p.build + p.deploy + p.steps && teardown(s.name).Uninstalled? ==>
      s.name in r.value.0
    ensures r.Ok? && DistinctNames(FlattenAll(PartsRun(p, false))) ==>
      OrderlyDestroy(FlattenAll(PartsRun(p, false)), teardown, r.value.0)
  {
    var plan := ValidateDag(p);
    if plan.Err? { return Err(plan.error); }
    var (order, buildCount) := plan.value;
    var calls, stop := RunDestroy(order, teardown);
    PlanTopological(p, order, buildCount);
    FlattenTwoOrThree(PartsRun(p, false));
    DestroyVerdict(order, p.build + p.deploy + p.steps, teardown, calls, stop);
    if DistinctNames(FlattenAll(PartsRun(p, false))) {
      DestroyOrderly(order, FlattenAll(PartsRun(p, false)), teardown, if stop < 0 then 0 else stop);
    }
    return Ok((calls, stop < 0));
  }
}
