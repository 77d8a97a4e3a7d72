/** Which steps of a phase get to execute, in some schedule: exactly those whose needs would all
    succeed or be skipped.  A failure elsewhere does not stop them. */
module Executability {
  import opened Steps
  import opened Scheduler

  /** Everything `n` needs, however indirectly, would succeed or be skipped. */
  ghost predicate NeedsGood(steps: seq<Step>, oracle: Oracle, n: Name) {
    forall m :: Reaches(steps, n, m) ==> Good(oracle(m))
  }

  predicate Runs(o: Outcome) { o.Succeeds? || o.ExecuteFails? }

  ghost predicate MayExecute(steps: seq<Step>, oracle: Oracle, n: Name) {
    Declared(steps, n) && Runs(oracle(n)) && NeedsGood(steps, oracle, n)
  }

  // ---------------------------------------------------------------- a run that leaves some steps waiting

  /** The step would succeed if its turn came, and is neither `hold` nor in need of it. */
  ghost predicate Passes(steps: seq<Step>, oracle: Oracle, hold: Option<Name>, m: Name) {
    && Good(oracle(m)) && NeedsGood(steps, oracle, m)
    && (hold.Some? ==> m != hold.value && !Reaches(steps, m, hold.value))
  }

  /** Of the first `i` steps those that pass are done; all others have not moved. */
  ghost predicate DoneUpTo(steps: seq<Step>, oracle: Oracle, hold: Option<Name>, s: Phase, i: nat) {
    && |s.pcs| == |steps| && !s.parent && !s.failed
    && forall j: nat :: j < |steps| ==>
         if j < i && Passes(steps, oracle, hold, steps[j].name) then SucceededIn(s, steps[j].name) else s.pcs[j] == Waiting(0)
  }

  /** A goroutine whose needs have all succeeded can get past them. */
  lemma {:induction false} ObserveAll(steps: seq<Step>, oracle: Oracle, s: Phase, i: nat, k: nat) returns (s': Phase)
    requires Reachable(steps, oracle, s) && i < |steps| == |s.pcs|
    requires k <= |steps[i].needs| && s.pcs[i] == Waiting(k) && NeedsClosedOk(steps[i].needs, s.closed)
    ensures Reachable(steps, oracle, s') && s' == s.(pcs := s.pcs[i := Waiting(|steps[i].needs|)])
    decreases |steps[i].needs| - k
  {
    if k == |steps[i].needs| {
      s' := s;
      assert s.pcs[i := s.pcs[i]] == s.pcs;
    } else {
      assert steps[i].needs[k] in steps[i].needs;
      var next := Apply(steps, oracle, s, Observe(i));
      ReachableNext(steps, oracle, s, Observe(i));
      assert next == s.(pcs := s.pcs[i := Waiting(k + 1)]);
      s' := ObserveAll(steps, oracle, next, i, k + 1);
      assert s.pcs[i := Waiting(k + 1)][i := Waiting(|steps[i].needs|)] == s.pcs[i := Waiting(|steps[i].needs|)];
    }
  }

  /** In such a state the needs of the next step have succeeded, if they all pass. */
  lemma {:induction false} NeedsDone(steps: seq<Step>, oracle: Oracle, hold: Option<Name>, s: Phase, i: nat, top: nat)
    requires Topological(steps) && i < |steps| && i <= top && DoneUpTo(steps, oracle, hold, s, top)
    requires NeedsGood(steps, oracle, steps[i].name)
    requires hold.Some? ==> !Reaches(steps, steps[i].name, hold.value)
    ensures NeedsClosedOk(steps[i].needs, s.closed)
  {
    var n := steps[i].name;
    forall d | d in steps[i].needs
      ensures SucceededIn(s, d)
    {
      assert Declared(steps[..i], d);
      var j: nat :| j < i && steps[..i][j].name == d;
      assert steps[i] in steps;
      assert Edge(steps, n, d);
      EdgeReaches(steps, n, d);
      forall m | Reaches(steps, d, m)
        ensures Reaches(steps, n, m)
      {
        ReachesTrans(steps, n, d, m);
      }
      assert Passes(steps, oracle, hold, d);
      assert steps[j].name == d;
    }
  }

  /** One step that passes, from its first need to its result. */
  lemma {:induction false} Pass(steps: seq<Step>, oracle: Oracle, hold: Option<Name>, s: Phase, i: nat) returns (s': Phase)
    requires DistinctNames(steps) && Topological(steps) && Reachable(steps, oracle, s)
    requires i < |steps| && DoneUpTo(steps, oracle, hold, s, i) && Passes(steps, oracle, hold, steps[i].name)
    ensures Reachable(steps, oracle, s') && DoneUpTo(steps, oracle, hold, s', i + 1)
  {
    NeedsDone(steps, oracle, hold, s, i, i);
    var past := ObserveAll(steps, oracle, s, i, 0);
    var begun := Apply(steps, oracle, past, Begin(i));
    ReachableNext(steps, oracle, past, Begin(i));
    s' := begun;
    if oracle(steps[i].name).Succeeds? {
      s' := Apply(steps, oracle, begun, Finish(i, true));
      ReachableNext(steps, oracle, begun, Finish(i, true));
    }
    forall j: nat | j < |steps|
      ensures if j < i + 1 && Passes(steps, oracle, hold, steps[j].name) then SucceededIn(s', steps[j].name) else s'.pcs[j] == Waiting(0)
    {
      if j != i { assert s'.pcs[j] == s.pcs[j]; }
    }
  }

  lemma {:induction false} RunUpTo(steps: seq<Step>, oracle: Oracle, hold: Option<Name>, i: nat) returns (s: Phase)
    requires DistinctNames(steps) && Topological(steps) && i <= |steps|
    ensures Reachable(steps, oracle, s) && DoneUpTo(steps, oracle, hold, s, i)
  {
    if i == 0 {
      s := Initial(steps, false);
      InitialReachable(steps, oracle, false);
    } else {
      s := RunUpTo(steps, oracle, hold, i - 1);
      if Passes(steps, oracle, hold, steps[i - 1].name) { s := Pass(steps, oracle, hold, s, i - 1); }
    }
  }

  // ---------------------------------------------------------------- who executes

  /** What execution of a step tells about it. */
  lemma {:induction false} ExecutedMay(steps: seq<Step>, oracle: Oracle, s: Phase, n: Name)
    requires DistinctNames(steps) && NeedsKnown(steps) && Reachable(steps, oracle, s) && n in s.executed
    ensures MayExecute(steps, oracle, n)
  {
    ReachableInv(steps, oracle, s);
    ReachableConsistent(steps, oracle, s);
    forall m | Reaches(steps, n, m)
      ensures Good(oracle(m))
    {
      ExecutesAfterNeeds(steps, oracle, s, n, m);
    }
  }

  /** Some schedule executes a step exactly when the step is one that runs and everything it
      transitively needs would succeed or be skipped. */
  lemma {:induction false} ExecutesIff(steps: seq<Step>, oracle: Oracle, n: Name)
    requires DistinctNames(steps) && Topological(steps)
    ensures (exists s :: Reachable(steps, oracle, s) && n in s.executed) <==>
      && Declared(steps, n) && (oracle(n).Succeeds? || oracle(n).ExecuteFails?)
      && forall m :: Reaches(steps, n, m) ==> oracle(m).Succeeds? || oracle(m).Skipped?
  {
    TopologicalNeedsKnown(steps);
    if s :| Reachable(steps, oracle, s) && n in s.executed { ExecutedMay(steps, oracle, s, n); }
    assert MayExecute(steps, oracle, n) <==>
      && Declared(steps, n) && (oracle(n).Succeeds? || oracle(n).ExecuteFails?)
      && forall m :: Reaches(steps, n, m) ==> oracle(m).Succeeds? || oracle(m).Skipped?;
    if MayExecute(steps, oracle, n) {
      var i: nat :| i < |steps| && steps[i].name == n;
      var s := RunUpTo(steps, oracle, None, i);
      NeedsDone(steps, oracle, None, s, i, i);
      var past := ObserveAll(steps, oracle, s, i, 0);
      ReachableNext(steps, oracle, past, Begin(i));
      assert n in Apply(steps, oracle, past, Begin(i)).executed;
    }
  }

  // ---------------------------------------------------------------- after a failure

  /** A step that has begun, with all its needs succeeded, and is bound to fail. */
  ghost predicate Culprit(steps: seq<Step>, oracle: Oracle, s: Phase, i: nat) {
    && i < |steps| == |s.pcs| && !s.pcs[i].Waiting?
    && !Good(oracle(steps[i].name)) && NeedsClosedOk(steps[i].needs, s.closed)
  }

  /** Without outside cancellation every error goes back to such a step. */
  ghost predicate Blamed(steps: seq<Step>, oracle: Oracle, s: Phase) {
    !s.parent && (s.failed || exists n :: n in s.closed && !s.closed[n]) ==> exists i :: Culprit(steps, oracle, s, i)
  }

  lemma CulpritStays(steps: seq<Step>, oracle: Oracle, s: Phase, a: Action, i: nat)
    requires DistinctNames(steps) && Inv(steps, s) && Enabled(steps, oracle, s, a) && Culprit(steps, oracle, s, i)
    ensures Culprit(steps, oracle, Apply(steps, oracle, s, a), i)
  {
    if !a.CancelParent? { assert GoroutineInv(steps, s, a.i); }
  }

  /** The action itself brings in the first culprit, if there was none. */
  lemma {:induction false} NewCulprit(steps: seq<Step>, oracle: Oracle, s: Phase, a: Action)
    requires NeedsKnown(steps) && Inv(steps, s) && Faithful(steps, oracle, s) && Enabled(steps, oracle, s, a)
    requires !s.parent && !s.failed && !a.CancelParent? && forall n :: n in s.closed ==> s.closed[n]
    ensures var s' := Apply(steps, oracle, s, a);
      s'.failed || (exists n :: n in s'.closed && !s'.closed[n]) ==> Culprit(steps, oracle, s', a.i)
  {
    assert GoroutineInv(steps, s, a.i);
    if a.Unknown? { NotUnknown(steps, s, a.i); }
    if a.Begin? { assert steps[a.i].needs[..s.pcs[a.i].k] == steps[a.i].needs; }
  }

  lemma {:induction false} BlamedStep(steps: seq<Step>, oracle: Oracle, s: Phase, a: Action)
    requires DistinctNames(steps) && NeedsKnown(steps) && Inv(steps, s) && Faithful(steps, oracle, s)
    requires Enabled(steps, oracle, s, a) && Blamed(steps, oracle, s)
    ensures Blamed(steps, oracle, Apply(steps, oracle, s, a))
  {
    if !s.parent && !a.CancelParent? {
      if i :| Culprit(steps, oracle, s, i) {
        CulpritStays(steps, oracle, s, a, i);
      } else {
        NewCulprit(steps, oracle, s, a);
      }
    }
  }

  lemma {:induction false} RunBlamed(steps: seq<Step>, oracle: Oracle, run: seq<Phase>, t: nat)
    requires DistinctNames(steps) && NeedsKnown(steps) && IsRun(steps, oracle, run) && t < |run|
    ensures Blamed(steps, oracle, run[t])
  {
    if t > 0 {
      RunBlamed(steps, oracle, run, t - 1);
      RunNextBlamed(steps, oracle, run, t);
    } else {
      InitialBlamed(steps, oracle, false);
      InitialBlamed(steps, oracle, true);
    }
  }

  lemma InitialBlamed(steps: seq<Step>, oracle: Oracle, parent: bool)
    ensures Blamed(steps, oracle, Initial(steps, parent))
  {
  }

  lemma RunNextBlamed(steps: seq<Step>, oracle: Oracle, run: seq<Phase>, t: nat)
    requires DistinctNames(steps) && NeedsKnown(steps) && IsRun(steps, oracle, run) && 0 < t < |run|
    requires Blamed(steps, oracle, run[t - 1])
    ensures Blamed(steps, oracle, run[t])
  {
    RunInv(steps, oracle, run, t - 1);
    RunConsistent(steps, oracle, run, t - 1);
    RunStep(steps, oracle, run, t);
    NextBlamed(steps, oracle, run[t - 1], run[t]);
  }

  lemma NextBlamed(steps: seq<Step>, oracle: Oracle, s: Phase, s': Phase)
    requires DistinctNames(steps) && NeedsKnown(steps) && Inv(steps, s) && Faithful(steps, oracle, s)
    requires Blamed(steps, oracle, s) && Next(steps, oracle, s, s')
    ensures Blamed(steps, oracle, s')
  {
    var a :| Enabled(steps, oracle, s, a) && s' == Apply(steps, oracle, s, a);
    BlamedStep(steps, oracle, s, a);
  }

  /** In every state of every run, an error without outside cancellation goes back to a step that
      began with all its needs succeeded and was bound to fail. */
  lemma {:induction false} ErrorsBlamed(steps: seq<Step>, oracle: Oracle, s: Phase)
    requires DistinctNames(steps) && NeedsKnown(steps) && Reachable(steps, oracle, s) && !s.parent
    requires s.failed || exists n :: n in s.closed && !s.closed[n]
    ensures exists i :: Culprit(steps, oracle, s, i)
  {
    var run :| IsRun(steps, oracle, run) && run[|run| - 1] == s;
    RunBlamed(steps, oracle, run, |run| - 1);
  }

  /** Step `i` is called only now, in a phase that has already failed of itself. */
  ghost predicate StartsAfterFailure(steps: seq<Step>, oracle: Oracle, s: Phase, i: nat) {
    && Reachable(steps, oracle, s) && s.failed && !s.parent
    && PastNeeds(steps, s, i) && steps[i].name !in s.executed && Runs(oracle(steps[i].name))
  }

  /** Another step that fails although everything it needs succeeds, and does not wait for `n`. */
  ghost predicate FailsApart(steps: seq<Step>, oracle: Oracle, n: Name, m: Name) {
    Declared(steps, m) && m != n && !Good(oracle(m)) && NeedsGood(steps, oracle, m) && !Reaches(steps, m, n)
  }

  lemma {:induction false} CulpritFailsApart(steps: seq<Step>, oracle: Oracle, s: Phase, i: nat, c: nat)
    requires DistinctNames(steps) && NeedsKnown(steps) && Inv(steps, s) && Faithful(steps, oracle, s)
    requires PastNeeds(steps, s, i) && Culprit(steps, oracle, s, c)
    ensures FailsApart(steps, oracle, steps[i].name, steps[c].name)
  {
    var n, m := steps[i].name, steps[c].name;
    assert GoroutineInv(steps, s, i);
    forall d | Reaches(steps, m, d)
      ensures SucceededIn(s, d)
    {
      var p :| PathFromTo(steps, p, m, d);
      ReachesFirst(steps, p, m, d);
      var u :| u in steps && u.name == m && p[1] in u.needs;
      assert u == steps[c];
      if |p| > 2 { PathNeedsSucceeded(steps, s, p[1], d, p[1..]); }
    }
  }

  /** A step that fails apart can do so while `n` has not moved. */
  lemma {:induction false} FailFirst(steps: seq<Step>, oracle: Oracle, n: Name, c: nat, i: nat) returns (s: Phase)
    requires DistinctNames(steps) && Topological(steps) && i < |steps| && steps[i].name == n && NeedsGood(steps, oracle, n)
    requires !Reaches(steps, n, n) && c < |steps| && FailsApart(steps, oracle, n, steps[c].name)
    ensures Reachable(steps, oracle, s) && |s.pcs| == |steps| && s.failed && !s.parent
    ensures s.pcs[i] == Waiting(0) && NeedsClosedOk(steps[i].needs, s.closed)
  {
    var before := RunUpTo(steps, oracle, Some(n), |steps|);
    NeedsDone(steps, oracle, Some(n), before, i, |steps|);
    NeedsDone(steps, oracle, Some(n), before, c, |steps|);
    assert before.pcs[c] == Waiting(0) && before.pcs[i] == Waiting(0);
    ReachableInv(steps, oracle, before);
    assert GoroutineInv(steps, before, c);
    var past := ObserveAll(steps, oracle, before, c, 0);
    s := Apply(steps, oracle, past, Begin(c));
    ReachableNext(steps, oracle, past, Begin(c));
    if oracle(steps[c].name).ExecuteFails? {
      var published := Apply(steps, oracle, s, Finish(c, false));
      ReachableNext(steps, oracle, s, Finish(c, false));
      s := Apply(steps, oracle, published, Return(c));
      ReachableNext(steps, oracle, published, Return(c));
    }
  }

  /** "Nothing starts after a failure" does not hold: a step can be called in a phase that has already
      failed exactly when it may execute at all and some other step fails without waiting for it. */
  lemma {:induction false} StartsAfterFailureIff(steps: seq<Step>, oracle: Oracle, i: nat)
    requires DistinctNames(steps) && Topological(steps) && i < |steps|
    ensures (exists s :: StartsAfterFailure(steps, oracle, s, i)) <==>
      MayExecute(steps, oracle, steps[i].name) && exists m :: FailsApart(steps, oracle, steps[i].name, m)
  {
    var n := steps[i].name;
    TopologicalNeedsKnown(steps);
    if s :| StartsAfterFailure(steps, oracle, s, i) {
      ErrorsBlamed(steps, oracle, s);
      var c :| Culprit(steps, oracle, s, c);
      ReachableInv(steps, oracle, s);
      ReachableConsistent(steps, oracle, s);
      CulpritFailsApart(steps, oracle, s, i, c);
      ReachableNext(steps, oracle, s, Begin(i));
      ExecutedMay(steps, oracle, Apply(steps, oracle, s, Begin(i)), n);
    }
    if m :| MayExecute(steps, oracle, n) && FailsApart(steps, oracle, n, m) {
      TopologicalIsAcyclic(steps);
      var c: nat :| c < |steps| && steps[c].name == m;
      var s := FailFirst(steps, oracle, n, c, i);
      var past := ObserveAll(steps, oracle, s, i, 0);
      ReachableInv(steps, oracle, past);
      assert GoroutineInv(steps, past, i);
      assert StartsAfterFailure(steps, oracle, past, i);
    }
  }

  const TWO_APART: seq<Step> := [Step("a", "shell", []), Step("b", "shell", [])]

  /** Two steps without needs: "b" can be called after "a" has failed the phase. */
  lemma StartsAfterFailureExample(oracle: Oracle)
    requires oracle("a").EarlyError? && Runs(oracle("b"))
    ensures exists s :: StartsAfterFailure(TWO_APART, oracle, s, 1)
  {
    var s := Initial(TWO_APART, false);
    InitialReachable(TWO_APART, oracle, false);
    ReachableNext(TWO_APART, oracle, s, Begin(0));
    assert StartsAfterFailure(TWO_APART, oracle, Apply(TWO_APART, oracle, s, Begin(0)), 1);
  }
}
