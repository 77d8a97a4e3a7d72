/** internal/engine/engine.go, lines 611-665: undoing a failed run. */
module Rollback {
  // Rollback walks the steps that were to run from back to front and calls the plugin of each one
  // that succeeded.

  import opened Steps
  import opened Dag

  type Registry = string -> bool

  ghost predicate Undoable(s: Step, ok: set<Name>, registered: Registry) {
    s.name in ok && registered(s.kind)
  }

  ghost function CallFor(s: Step, ok: set<Name>, registered: Registry): seq<Name> {
    if Undoable(s, ok, registered) then [s.name] else []
  }

  /** The Rollback calls: backwards through the steps that were to run. */
  ghost function RollbackCalls(steps: seq<Step>, ok: set<Name>, registered: Registry): seq<Name> {
    if steps == [] then []
    else CallFor(steps[|steps| - 1], ok, registered) + RollbackCalls(steps[..|steps| - 1], ok, registered)
  }

  lemma RollbackUnfold(steps: seq<Step>, i: nat, ok: set<Name>, registered: Registry)
    requires i < |steps|
    ensures RollbackCalls(steps[..i + 1], ok, registered) == CallFor(steps[i], ok, registered) + RollbackCalls(steps[..i], ok, registered)
  {
    assert steps[..i + 1][..i] == steps[..i];
  }

  ghost function OkNames(stateMap: map<Name, bool>): set<Name> {
    set n | n in stateMap && stateMap[n]
  }

  /** Lines 618-627: the closed channels that carry no error. */
  method CollectSucceeded(stateMap: map<Name, bool>) returns (succeeded: set<Name>)
    ensures forall n :: n in succeeded <==> n in stateMap && stateMap[n]
  {
    succeeded := {};
    var rest := stateMap.Keys;
    while rest != {}
      invariant rest <= stateMap.Keys
      invariant forall n :: n in succeeded <==> n in stateMap && n !in rest && stateMap[n]
      decreases rest
    {
      var n :| n in rest;
      rest := rest - {n};
      if stateMap[n] { succeeded := succeeded + {n}; }
    }
  }

  ghost function Failures(calls: seq<Name>, rollbackFails: Name -> bool): nat {
    if calls == [] then 0
    else Failures(calls[..|calls| - 1], rollbackFails) + if rollbackFails(calls[|calls| - 1]) then 1 else 0
  }

  lemma FailuresSnoc(calls: seq<Name>, n: Name, rollbackFails: Name -> bool)
    ensures Failures(calls + [n], rollbackFails) == Failures(calls, rollbackFails) + if rollbackFails(n) then 1 else 0
  {
    assert (calls + [n])[..|calls|] == calls;
  }

  lemma Regroup(a: seq<Name>, b: seq<Name>, c: seq<Name>)
    ensures a + (b + c) == (a + b) + c
  {
  }

  /** The last step of this name. */
  ghost function LastNamed(steps: seq<Step>, n: Name): (s: Step)
    requires Declared(steps, n)
    ensures s in steps && s.name == n
  {
    if steps[|steps| - 1].name == n then steps[|steps| - 1]
    else
      var i :| 0 <= i < |steps| && steps[i].name == n;
      assert steps[..|steps| - 1][i].name == n;
      LastNamed(steps[..|steps| - 1], n)
  }

  lemma {:induction false} LastNamedConcat(a: seq<Step>, b: seq<Step>, n: Name)
    requires Declared(a, n) || Declared(b, n)
    ensures Declared(a + b, n)
    ensures LastNamed(a + b, n) == if Declared(b, n) then LastNamed(b, n) else LastNamed(a, n)
  {
    DeclaredConcat(a, b, n);
    if b == [] {
      assert a + b == a;
    } else {
      var init, last := b[..|b| - 1], b[|b| - 1];
      CutLast(a, b);
      DeclaredConcat(init, [last], n);
      assert b == init + [last];
      if last.name != n { LastNamedConcat(a, init, n); }
    }
  }

  lemma DeclaredConcat(a: seq<Step>, b: seq<Step>, n: Name)
    ensures Declared(a + b, n) <==> Declared(a, n) || Declared(b, n)
  {
    if i: nat :| i < |a| && a[i].name == n { assert (a + b)[i].name == n; }
    if i: nat :| i < |b| && b[i].name == n { assert (a + b)[|a| + i].name == n; }
  }

  ghost predicate Indexes(nameToStep: map<Name, Step>, steps: seq<Step>) {
    forall n :: (n in nameToStep <==> Declared(steps, n)) && (n in nameToStep ==> nameToStep[n] == LastNamed(steps, n))
  }

  lemma IndexSnoc(nameToStep: map<Name, Step>, steps: seq<Step>, i: nat)
    requires i < |steps| && Indexes(nameToStep, steps[..i])
    ensures Indexes(nameToStep[steps[i].name := steps[i]], steps[..i + 1])
  {
    var init, longer := steps[..i], steps[..i + 1];
    assert longer[..i] == init;
    forall n
      ensures Declared(longer, n) <==> n == steps[i].name || Declared(init, n)
    {
      if n == steps[i].name { assert longer[i].name == n; }
      if Declared(init, n) {
        var j :| 0 <= j < |init| && init[j].name == n;
        assert longer[j].name == n;
      }
    }
  }

  /** Lines 430-437: rollback finds the step to hand over by name, so the last one of a name wins. */
  method IndexByName(stepsToRun: seq<Step>) returns (nameToStep: map<Name, Step>)
    ensures Indexes(nameToStep, stepsToRun)
  {
    nameToStep := map[];
    for i := 0 to |stepsToRun|
      invariant Indexes(nameToStep, stepsToRun[..i])
    {
      IndexSnoc(nameToStep, stepsToRun, i);
      nameToStep := nameToStep[stepsToRun[i].name := stepsToRun[i]];
    }
    assert stepsToRun[..|stepsToRun|] == stepsToRun;
  }

  /** With the calls for the first `i` steps still to come, `calls` are all there will be. */
  ghost predicate CalledSoFar(steps: seq<Step>, i: nat, ok: set<Name>, registered: Registry, calls: seq<Name>) {
    i <= |steps| && calls + RollbackCalls(steps[..i], ok, registered) == RollbackCalls(steps, ok, registered)
  }

  lemma NoneCalled(steps: seq<Step>, ok: set<Name>, registered: Registry)
    ensures CalledSoFar(steps, |steps|, ok, registered, [])
  {
    assert steps[..|steps|] == steps;
  }

  lemma OneMoreCall(steps: seq<Step>, i: nat, ok: set<Name>, registered: Registry, calls: seq<Name>)
    requires i < |steps| && CalledSoFar(steps, i + 1, ok, registered, calls)
    ensures CalledSoFar(steps, i, ok, registered, if Undoable(steps[i], ok, registered) then calls + [steps[i].name] else calls)
  {
    RollbackUnfold(steps, i, ok, registered);
    Regroup(calls, CallFor(steps[i], ok, registered), RollbackCalls(steps[..i], ok, registered));
    assert calls + [] == calls;
  }

  lemma AllCalled(steps: seq<Step>, ok: set<Name>, registered: Registry, calls: seq<Name>)
    requires CalledSoFar(steps, 0, ok, registered, calls)
    ensures calls == RollbackCalls(steps, ok, registered)
  {
    assert steps[..0] == [];
  }

  /** Each call is made with the last step of its name. */
  ghost predicate GivenLast(steps: seq<Step>, calls: seq<Name>, given: seq<Step>) {
    |given| == |calls| && forall i :: 0 <= i < |calls| ==> Declared(steps, calls[i]) && given[i] == LastNamed(steps, calls[i])
  }

  lemma GivenSnoc(steps: seq<Step>, nameToStep: map<Name, Step>, calls: seq<Name>, given: seq<Step>, n: Name)
    requires Indexes(nameToStep, steps) && GivenLast(steps, calls, given) && Declared(steps, n)
    ensures n in nameToStep && GivenLast(steps, calls + [n], given + [nameToStep[n]])
  {
  }

  /** What the loop has done when it comes to step `i - 1`. */
  ghost predicate UndoneDownTo(steps: seq<Step>, i: nat, ok: set<Name>, registered: Registry, rollbackFails: Name -> bool,
                               calls: seq<Name>, given: seq<Step>, errors: nat)
  {
    CalledSoFar(steps, i, ok, registered, calls) && GivenLast(steps, calls, given) && errors == Failures(calls, rollbackFails)
  }

  lemma UndoneOneMore(steps: seq<Step>, i: nat, ok: set<Name>, registered: Registry, rollbackFails: Name -> bool,
                      nameToStep: map<Name, Step>, calls: seq<Name>, given: seq<Step>, errors: nat)
    requires i < |steps| && Indexes(nameToStep, steps)
    requires UndoneDownTo(steps, i + 1, ok, registered, rollbackFails, calls, given, errors)
    ensures steps[i].name in nameToStep
    ensures Undoable(steps[i], ok, registered) ==>
      UndoneDownTo(steps, i, ok, registered, rollbackFails, calls + [steps[i].name], given + [nameToStep[steps[i].name]],
        if rollbackFails(steps[i].name) then errors + 1 else errors)
    ensures !Undoable(steps[i], ok, registered) ==> UndoneDownTo(steps, i, ok, registered, rollbackFails, calls, given, errors)
  {
    assert Declared(steps, steps[i].name);
    OneMoreCall(steps, i, ok, registered, calls);
    GivenSnoc(steps, nameToStep, calls, given, steps[i].name);
    FailuresSnoc(calls, steps[i].name, rollbackFails);
  }

  /** Lines 618-665.  `rollbackFails` says which Rollback calls report an error; the error
      is logged and the loop goes on, so it has no influence on the calls.  `given` are the
      steps the calls are made with. */
  method UndoSucceeded(stepsToRun: seq<Step>, nameToStep: map<Name, Step>, stateMap: map<Name, bool>, registered: Registry,
                       rollbackFails: Name -> bool)
    returns (calls: seq<Name>, given: seq<Step>, errors: nat)
    requires Indexes(nameToStep, stepsToRun)
    ensures calls == RollbackCalls(stepsToRun, OkNames(stateMap), registered)
    ensures GivenLast(stepsToRun, calls, given)
    ensures forall n :: n in calls <==> n in stateMap && stateMap[n] && exists s :: s in stepsToRun && s.name == n && registered(s.kind)
    ensures errors == Failures(calls, rollbackFails)
  {
    WhoIsUndone(stepsToRun, OkNames(stateMap), registered);
    var succeeded := CollectSucceeded(stateMap);
    assert succeeded == OkNames(stateMap);
    calls, given, errors := [], [], 0;
    var i := |stepsToRun|;
    NoneCalled(stepsToRun, succeeded, registered);
    while i > 0
      invariant 0 <= i <= |stepsToRun|
      invariant UndoneDownTo(stepsToRun, i, succeeded, registered, rollbackFails, calls, given, errors)
    {
      i := i - 1;
      var s := stepsToRun[i];
      UndoneOneMore(stepsToRun, i, succeeded, registered, rollbackFails, nameToStep, calls, given, errors);
      if s.name in succeeded && registered(s.kind) {
        calls, given := calls + [s.name], given + [nameToStep[s.name]];
        if rollbackFails(s.name) { errors := errors + 1; }
      }
    }
    AllCalled(stepsToRun, succeeded, registered, calls);
  }

  lemma RollbackMembers(steps: seq<Step>, ok: set<Name>, registered: Registry, n: Name)
    ensures n in RollbackCalls(steps, ok, registered) <==> exists s :: s in steps && s.name == n && Undoable(s, ok, registered)
  {
    if steps != [] {
      var init, last := steps[..|steps| - 1], steps[|steps| - 1];
      RollbackMembers(init, ok, registered, n);
      assert steps == init + [last];
      if s :| s in steps && s.name == n && Undoable(s, ok, registered) {
        assert s in init || s == last;
      }
    }
  }

  lemma WhoIsUndone(steps: seq<Step>, ok: set<Name>, registered: Registry)
    ensures forall n :: n in RollbackCalls(steps, ok, registered) <==> n in ok && exists s :: s in steps && s.name == n && registered(s.kind)
  {
    forall n
      ensures n in RollbackCalls(steps, ok, registered) <==> n in ok && exists s :: s in steps && s.name == n && registered(s.kind)
    {
      RollbackMembers(steps, ok, registered, n);
      if s :| n in ok && s in steps && s.name == n && registered(s.kind) { assert Undoable(s, ok, registered); }
    }
  }

  ghost predicate Before(steps: seq<Step>, x: Name, y: Name) {
    exists i, j :: 0 <= i < j < |steps| && steps[i].name == x && steps[j].name == y
  }

  /** The calls go through `steps` from back to front. */
  ghost predicate Backwards(steps: seq<Step>, calls: seq<Name>) {
    forall a, b :: 0 <= a < b < |calls| ==> Before(steps, calls[b], calls[a])
  }

  lemma {:induction false} RollbackBackwards(steps: seq<Step>, ok: set<Name>, registered: Registry)
    ensures Backwards(steps, RollbackCalls(steps, ok, registered))
  {
    if steps != [] {
      var init, last := steps[..|steps| - 1], steps[|steps| - 1];
      RollbackBackwards(init, ok, registered);
      var calls, rest := RollbackCalls(steps, ok, registered), RollbackCalls(init, ok, registered);
      var shift := |calls| - |rest|;
      forall a, b | 0 <= a < b < |calls|
        ensures Before(steps, calls[b], calls[a])
      {
        assert calls[b] == rest[b - shift];
        if a >= shift {
          assert calls[a] == rest[a - shift];
          assert Before(init, calls[b], calls[a]);
          var i, j :| 0 <= i < j < |init| && init[i].name == calls[b] && init[j].name == calls[a];
          assert steps[i].name == calls[b] && steps[j].name == calls[a];
        } else {
          RollbackMembers(init, ok, registered, calls[b]);
          var s :| s in init && s.name == calls[b];
          var i :| 0 <= i < |init| && init[i] == s;
          assert steps[i].name == calls[b] && steps[|steps| - 1].name == calls[a];
        }
      }
    }
  }

  lemma BeforeIsStrict(steps: seq<Step>, x: Name, y: Name)
    requires DistinctNames(steps) && Before(steps, x, y)
    ensures x != y && !Before(steps, y, x)
  {
  }

  lemma NeedIsBefore(order: seq<Step>, n: Name, d: Name)
    requires Topological(order) && Edge(order, n, d)
    ensures Before(order, d, n)
  {
    var s :| s in order && s.name == n && d in s.needs;
    var i :| 0 <= i < |order| && order[i] == s;
    assert Declared(order[..i], d);
    var j :| 0 <= j < i && order[..i][j].name == d;
    assert order[j].name == d;
  }

  /** What a correct rollback does: it undoes every succeeded step exactly once, later
      steps before earlier ones, and never undoes a step while one that needs it is still up. */
  ghost predicate CorrectRollback(steps: seq<Step>, ok: set<Name>, calls: seq<Name>) {
    && NoRepeats(calls)
    && (forall n :: n in calls <==> n in ok)
    && Backwards(steps, calls)
    && forall k, n, d :: 0 <= k <= |calls| && n in ok && n !in calls[..k] && Edge(steps, n, d) ==> d in ok && d !in calls[..k]
  }

  lemma RollbackNoRepeats(steps: seq<Step>, ok: set<Name>, registered: Registry)
    requires DistinctNames(steps)
    ensures NoRepeats(RollbackCalls(steps, ok, registered))
  {
    var calls := RollbackCalls(steps, ok, registered);
    RollbackBackwards(steps, ok, registered);
    forall a, b | 0 <= a < b < |calls|
      ensures calls[a] != calls[b]
    {
      BeforeIsStrict(steps, calls[b], calls[a]);
    }
  }

  lemma RollbackIsComplete(steps: seq<Step>, ok: set<Name>, registered: Registry, n: Name)
    requires n in ok ==> Declared(steps, n)
    requires forall s :: s in steps && s.name in ok ==> registered(s.kind)
    ensures n in RollbackCalls(steps, ok, registered) <==> n in ok
  {
    RollbackMembers(steps, ok, registered, n);
    if n in ok {
      var i :| 0 <= i < |steps| && steps[i].name == n;
      assert steps[i] in steps && Undoable(steps[i], ok, registered);
    }
  }

  lemma CalledBefore(steps: seq<Step>, calls: seq<Name>, b: nat, n: Name)
    requires DistinctNames(steps) && Backwards(steps, calls)
    requires b < |calls| && n in calls && Before(steps, calls[b], n)
    ensures n in calls[..b]
  {
    BeforeIsStrict(steps, calls[b], n);
    var a :| 0 <= a < |calls| && calls[a] == n;
    assert a < b;
    assert calls[..b][a] == n;
  }

  /** If `n` is still up after `k` calls then so is everything it needs. */
  lemma RollbackKeepsNeeds(steps: seq<Step>, calls: seq<Name>, k: nat, n: Name, d: Name)
    requires DistinctNames(steps) && Topological(steps) && Backwards(steps, calls)
    requires k <= |calls| && n in calls && n !in calls[..k] && Edge(steps, n, d)
    ensures d !in calls[..k]
  {
    NeedIsBefore(steps, n, d);
    BeforeIsStrict(steps, d, n);
    var b :| 0 <= b < |calls| && calls[b] == n;
    assert forall a :: 0 <= a < k ==> calls[a] == calls[..k][a] && calls[a] in calls[..k];
    assert forall a :: 0 <= a < b ==> Before(steps, calls[b], calls[a]) && calls[a] != d;
  }

  lemma RollbackCorrect(steps: seq<Step>, ok: set<Name>, registered: Registry)
    requires DistinctNames(steps) && Topological(steps)
    requires forall n :: n in ok ==> Declared(steps, n)
    requires forall s :: s in steps && s.name in ok ==> registered(s.kind)
    requires forall n, d :: n in ok && Edge(steps, n, d) ==> d in ok
    ensures CorrectRollback(steps, ok, RollbackCalls(steps, ok, registered))
  {
    var calls := RollbackCalls(steps, ok, registered);
    RollbackBackwards(steps, ok, registered);
    RollbackNoRepeats(steps, ok, registered);
    forall n
      ensures n in calls <==> n in ok
    {
      RollbackIsComplete(steps, ok, registered, n);
    }
    forall k, n, d | 0 <= k <= |calls| && n in ok && n !in calls[..k] && Edge(steps, n, d)
      ensures d in ok && d !in calls[..k]
    {
      RollbackKeepsNeeds(steps, calls, k, n, d);
    }
  }

  lemma CutLast(a: seq<Step>, b: seq<Step>)
    requires b != []
    ensures (a + b)[..|a + b| - 1] == a + b[..|b| - 1] && (a + b)[|a + b| - 1] == b[|b| - 1]
  {
  }

  lemma {:induction false} RollbackConcat(a: seq<Step>, b: seq<Step>, ok: set<Name>, registered: Registry)
    ensures RollbackCalls(a + b, ok, registered) == RollbackCalls(b, ok, registered) + RollbackCalls(a, ok, registered)
  {
    if b == [] {
      assert a + b == a;
    } else {
      var init, last := b[..|b| - 1], b[|b| - 1];
      RollbackConcat(a, init, ok, registered);
      CutLast(a, b);
      Regroup(CallFor(last, ok, registered), RollbackCalls(init, ok, registered), RollbackCalls(a, ok, registered));
    }
  }

  lemma CalledAt(steps: seq<Step>, ok: set<Name>, registered: Registry, i: nat)
    requires i < |steps| && Undoable(steps[i], ok, registered)
    ensures steps[i].name in RollbackCalls(steps, ok, registered)
  {
    assert steps[i] in steps;
    RollbackMembers(steps, ok, registered, steps[i].name);
  }

  /** One call each for two steps of the same name. */
  lemma TwiceCalled(steps: seq<Step>, ok: set<Name>, registered: Registry, i: nat, j: nat)
    requires i < j < |steps| && steps[i].name == steps[j].name && Undoable(steps[i], ok, registered) && Undoable(steps[j], ok, registered)
    ensures !NoRepeats(RollbackCalls(steps, ok, registered))
  {
    var a, b := steps[..j], steps[j..];
    assert steps == a + b;
    RollbackConcat(a, b, ok, registered);
    CalledAt(a, ok, registered, i);
    CalledAt(b, ok, registered, 0);
    InBoth(RollbackCalls(b, ok, registered), RollbackCalls(a, ok, registered), steps[i].name);
  }

  lemma InBoth(late: seq<Name>, early: seq<Name>, n: Name)
    requires n in late && n in early
    ensures !NoRepeats(late + early)
  {
    var x :| 0 <= x < |late| && late[x] == n;
    var y :| 0 <= y < |early| && early[y] == n;
    assert (late + early)[x] == (late + early)[|late| + y];
  }

  /** A repeated call is one for a succeeded name that two steps have. */
  lemma {:induction false} RepeatedCall(steps: seq<Step>, ok: set<Name>, registered: Registry) returns (i: nat, j: nat)
    requires !NoRepeats(RollbackCalls(steps, ok, registered))
    ensures i < j < |steps| && steps[i].name == steps[j].name && steps[i].name in ok
  {
    var calls := RollbackCalls(steps, ok, registered);
    var a, b :| 0 <= a < b < |calls| && calls[a] == calls[b];
    RollbackBackwards(steps, ok, registered);
    assert Before(steps, calls[b], calls[a]);
    i, j :| 0 <= i < j < |steps| && steps[i].name == calls[b] && steps[j].name == calls[a];
    RollbackMembers(steps, ok, registered, calls[a]);
  }
}
