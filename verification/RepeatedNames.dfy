/** internal/engine/engine.go, lines 430-472 and 618-665: rollback when two phases share a step name. */
module RepeatedNames {
  // Validation of each phase on its own lets such pipelines through, but `stateMap` and `nameToStep`
  // are keyed by name.

  import opened Steps
  import opened Expander
  import opened ExpansionOrder
  import opened Scheduler
  import opened Executability
  import opened Rollback
  import opened Engine

  ghost predicate FailedRun(phases: seq<seq<Step>>, outcomes: Outcomes, registered: Registry, r: Run) {
    && RunReachable(phases, outcomes, r) && Finished(phases, r) && r.cur.failed
    && UnregisteredFails(phases, outcomes, registered)
  }

  ghost function CallsOf(phases: seq<seq<Step>>, registered: Registry, r: Run): seq<Name> {
    RollbackCalls(FlattenAll(phases), OkNames(StateMap(r)), registered)
  }

  /** Every step succeeds but the one called `x` of phase `m`. */
  function OneFails(m: nat, x: Name): Outcomes {
    (k: nat) => (n: Name) => if k == m && n == x then ExecuteFails else Succeeds
  }

  const EVERY_KIND: Registry := (kind: string) => true

  /** That step fails the run once the phase has come to its end. */
  lemma {:induction false} FailsThere(phases: seq<seq<Step>>, m: nat, x: Name, s: Phase) returns (r: Run)
    requires WellOrdered(phases) && m < |phases| && Declared(phases[m], x)
    requires Reachable(phases[m], OneFails(m, x)(m), s) && !s.parent && |s.pcs| == |phases[m]|
    ensures FailedRun(phases, OneFails(m, x), EVERY_KIND, r) && r.Ph() == m && !r.cur.parent
    ensures forall n :: SucceededIn(s, n) ==> Succeeded(r, m, n)
  {
    var outcomes := OneFails(m, x);
    PhaseDistinct(phases, m);
    var end := PhaseToEnd(phases[m], outcomes(m), s);
    VerdictIndependentOfSchedule(phases[m], outcomes(m), end);
    var i: nat :| i < |phases[m]| && phases[m][i].name == x;
    assert !AllGood(phases[m], outcomes(m));
    r := ReachState(phases, outcomes, m, end);
  }

  // ---------------------------------------------------------------- a step is left up

  /** When phase `l` uses the name of a step of an earlier phase again, that step can be left up: its
      entry is gone when phase `l` starts, and if the later step fails nothing of this name is undone. */
  lemma {:induction false} RepeatedLeavesUp(phases: seq<seq<Step>>, k: nat, l: nat, n: Name) returns (r: Run)
    requires WellOrdered(phases) && k < l < |phases| && Declared(phases[k], n) && Declared(phases[l], n)
    ensures FailedRun(phases, OneFails(l, n), EVERY_KIND, r)
    ensures Succeeded(r, k, n) && n !in CallsOf(phases, EVERY_KIND, r)
  {
    var outcomes, steps, ok := OneFails(l, n), FlattenAll(phases), OkNames;
    InitialReachable(phases[l], outcomes(l), false);
    r := FailsThere(phases, l, n, Initial(phases[l], false));
    PastSucceeded(phases, outcomes, r, k, n);
    StateMapOk(phases, outcomes, r, n);
    if Succeeded(r, l, n) { SucceededGood(phases, outcomes, r, l, n); }
    RollbackMembers(steps, OkNames(StateMap(r)), EVERY_KIND, n);
  }

  /** Every failed run rolls back exactly the steps that succeeded, once each, if and only if no two
      phases that are run share a name. */
  lemma {:induction false} RollbackExactIffDistinct(phases: seq<seq<Step>>)
    requires WellOrdered(phases)
    ensures DistinctNames(FlattenAll(phases)) <==>
      forall outcomes, registered, r :: FailedRun(phases, outcomes, registered, r) ==>
        UndoesExactly(phases, r, CallsOf(phases, registered, r))
  {
    if DistinctNames(FlattenAll(phases)) {
      forall outcomes, registered, r | FailedRun(phases, outcomes, registered, r)
        ensures UndoesExactly(phases, r, CallsOf(phases, registered, r))
      {
        FailedRunRollsBack(phases, outcomes, registered, r);
      }
    } else {
      var k, l, n := SharedName(phases, |phases|);
      var r := RepeatedLeavesUp(phases, k, l, n);
      assert !UndoesExactly(phases, r, CallsOf(phases, EVERY_KIND, r));
    }
  }

  // ---------------------------------------------------------------- a call is repeated

  ghost predicate UsedTwice(phases: seq<seq<Step>>, n: Name) {
    exists i, j :: 0 <= i < j < |FlattenAll(phases)| && FlattenAll(phases)[i].name == n == FlattenAll(phases)[j].name
  }

  /** The step called `x` of phase `m` can fail while the name `n` is marked as succeeded. */
  ghost predicate FailsBeside(phases: seq<seq<Step>>, n: Name, m: nat, x: Name) {
    && m < |phases| && Declared(phases[m], x)
    && if Declared(phases[m], n) then x != n && !Reaches(phases[m], n, x) else EarlierPhase(phases, m, n)
  }

  lemma {:induction false} DoneWhileHeld(steps: seq<Step>, m: nat, x: Name, n: Name) returns (s: Phase)
    requires DistinctNames(steps) && Topological(steps) && Declared(steps, n) && x != n && !Reaches(steps, n, x)
    ensures Reachable(steps, OneFails(m, x)(m), s) && !s.parent && |s.pcs| == |steps| && SucceededIn(s, n)
  {
    s := RunUpTo(steps, OneFails(m, x)(m), Some(x), |steps|);
    var i: nat :| i < |steps| && steps[i].name == n;
    assert Passes(steps, OneFails(m, x)(m), Some(x), n);
  }

  lemma {:induction false} FailBeside(phases: seq<seq<Step>>, n: Name, m: nat, x: Name) returns (r: Run)
    requires WellOrdered(phases) && UsedTwice(phases, n) && FailsBeside(phases, n, m, x)
    ensures FailedRun(phases, OneFails(m, x), EVERY_KIND, r) && !NoRepeats(CallsOf(phases, EVERY_KIND, r))
  {
    var outcomes := OneFails(m, x);
    PhaseDistinct(phases, m);
    var s := Initial(phases[m], false);
    InitialReachable(phases[m], outcomes(m), false);
    if Declared(phases[m], n) { s := DoneWhileHeld(phases[m], m, x, n); }
    r := FailsThere(phases, m, x, s);
    StateMapOk(phases, outcomes, r, n);
    var i, j :| 0 <= i < j < |FlattenAll(phases)| && FlattenAll(phases)[i].name == n == FlattenAll(phases)[j].name;
    TwiceCalled(FlattenAll(phases), OkNames(StateMap(r)), EVERY_KIND, i, j);
  }

  /** The step that failed a phase, and what of it a succeeded one can need. */
  lemma {:induction false} FailedBeside(phases: seq<seq<Step>>, outcomes: Outcomes, r: Run, n: Name) returns (x: Name)
    requires WellOrdered(phases) && RunReachable(phases, outcomes, r) && r.cur.failed && n in OkNames(StateMap(r))
    ensures FailsBeside(phases, n, r.Ph(), x)
  {
    StateMapOk(phases, outcomes, r, n);
    var m := r.Ph();
    PhaseReachable(phases, outcomes, r, m);
    PhaseDistinct(phases, m);
    ReachableInv(phases[m], outcomes(m), r.cur);
    var i: nat :| i < |phases[m]| && r.cur.pcs[i] == Returned(false);
    assert GoroutineInv(phases[m], r.cur, i);
    x := phases[m][i].name;
    if Declared(phases[m], n) && Reaches(phases[m], n, x) { ExecutesAfterNeeds(phases[m], outcomes(m), r.cur, n, x); }
  }

  /** Some failed run calls Rollback twice for one name, if and only if a name is used twice and some
      step can fail while that name is marked as succeeded: in a phase that has a step of this name,
      any other step that this one does not wait for; in a later phase that has none, any step. */
  lemma {:induction false} CallRepeatsIff(phases: seq<seq<Step>>)
    requires WellOrdered(phases)
    ensures (exists outcomes, registered, r ::
        FailedRun(phases, outcomes, registered, r) && !NoRepeats(CallsOf(phases, registered, r)))
      <==> exists n, m, x :: UsedTwice(phases, n) && FailsBeside(phases, n, m, x)
  {
    if outcomes, registered, r :| FailedRun(phases, outcomes, registered, r) && !NoRepeats(CallsOf(phases, registered, r)) {
      var i, j := RepeatedCall(FlattenAll(phases), OkNames(StateMap(r)), registered);
      var n := FlattenAll(phases)[i].name;
      var x := FailedBeside(phases, outcomes, r, n);
      assert UsedTwice(phases, n) && FailsBeside(phases, n, r.Ph(), x);
    }
    if n, m, x :| UsedTwice(phases, n) && FailsBeside(phases, n, m, x) {
      var r := FailBeside(phases, n, m, x);
    }
  }

  /** A step whose needs have been seen, from the call of Execute to its return. */
  lemma ExecuteStep(phases: seq<seq<Step>>, outcomes: Outcomes, r: Run, i: nat) returns (r': Run)
    requires RunReachable(phases, outcomes, r) && r.Ph() < |phases| && PastNeeds(phases[r.Ph()], r.cur, i)
    requires Runs(outcomes(r.Ph())(phases[r.Ph()][i].name))
    ensures RunReachable(phases, outcomes, r')
    ensures var n := phases[r.Ph()][i].name;
      var ok := outcomes(r.Ph())(n).Succeeds?;
      r' == r.(cur := Phase(r.cur.pcs[i := Returned(ok)], r.cur.closed[n := ok], r.cur.parent, r.cur.failed || !ok,
        r.cur.executed + {n}))
  {
    var ok := outcomes(r.Ph())(phases[r.Ph()][i].name).Succeeds?;
    r' := RunAction(phases, outcomes, r, Begin(i));
    r' := RunAction(phases, outcomes, r', Finish(i, ok));
    r' := RunAction(phases, outcomes, r', Return(i));
    assert r.cur.pcs[i := Executing][i := Closing(ok)][i := Returned(ok)] == r.cur.pcs[i := Returned(ok)];
  }

  const TWICE: seq<seq<Step>> := [[Step("a", "shell", [])], [Step("a", "shell", []), Step("b", "shell", [])]]

  lemma TwiceOrdered()
    ensures WellOrdered(TWICE) && FlattenAll(TWICE) == [TWICE[0][0], TWICE[1][0], TWICE[1][1]]
  {
    FlattenTwo(TWICE);
  }

  ghost predicate BFails(outcomes: Outcomes) {
    outcomes(0)("a").Succeeds? && outcomes(1)("a").Succeeds? && outcomes(1)("b").ExecuteFails?
  }

  lemma BuildOfTwice(outcomes: Outcomes) returns (r: Run)
    requires BFails(outcomes)
    ensures RunReachable(TWICE, outcomes, r) && r == Run(r.past, Initial(TWICE[1], false), map[]) && |r.past| == 1
  {
    r := FirstPhase(TWICE, false);
    FirstReachable(TWICE, outcomes, false);
    r := ExecuteStep(TWICE, outcomes, r, 0);
    RunExtend(TWICE, outcomes, r, Advance(TWICE, r));
    assert StateMap(r).Keys == {"a"};
    assert TWICE[1][0].name == "a";
    r := Advance(TWICE, r);
    assert r.earlier.Keys == {};
  }

  /** "a" succeeds in both phases, then "b" fails: Rollback of "a" is called twice. */
  lemma RepeatedCallExample(outcomes: Outcomes) returns (r: Run)
    requires BFails(outcomes)
    ensures WellOrdered(TWICE) && FailedRun(TWICE, outcomes, EVERY_KIND, r) && CallsOf(TWICE, EVERY_KIND, r) == ["a", "a"]
  {
    r := BuildOfTwice(outcomes);
    r := ExecuteStep(TWICE, outcomes, r, 0);
    r := ExecuteStep(TWICE, outcomes, r, 1);
    assert OkNames(StateMap(r)) == {"a"};
    TwiceOrdered();
    ThreeCalls(FlattenAll(TWICE), {"a"}, EVERY_KIND);
  }

  lemma ThreeCalls(steps: seq<Step>, ok: set<Name>, registered: Registry)
    requires |steps| == 3
    ensures RollbackCalls(steps, ok, registered) ==
      CallFor(steps[2], ok, registered) + (CallFor(steps[1], ok, registered) + CallFor(steps[0], ok, registered))
  {
    var two := steps[..2];
    assert two[..1] == [steps[0]] && [steps[0]][..0] == [];
    assert RollbackCalls([steps[0]], ok, registered) == CallFor(steps[0], ok, registered) + [];
  }
}
