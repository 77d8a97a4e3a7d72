/** internal/engine/dag.go: queue-based topological sort of one phase's steps,
    proved to accept exactly the well-formed acyclic phases. */
module Dag {
  import opened Steps

  datatype DagError =
    | UnknownDependency(step: Name, dep: Name)
    | CycleDetected

  ghost function NameSet(steps: seq<Step>): (names: set<Name>) {
    set s | s in steps :: s.name
  }

  // ---------------------------------------------------------------- counting edges

  /** How many entries of `needs` lie outside `done`. */
  ghost function Missing(needs: seq<Name>, done: set<Name>): nat {
    if needs == [] then 0
    else Missing(needs[..|needs| - 1], done) + if needs[|needs| - 1] in done then 0 else 1
  }

  /** The in-degree of `n`: needs of steps called `n`, with multiplicity, outside `done`. */
  ghost function Pending(steps: seq<Step>, n: Name, done: set<Name>): nat {
    if steps == [] then 0
    else
      var last := steps[|steps| - 1];
      Pending(steps[..|steps| - 1], n, done) + if last.name == n then Missing(last.needs, done) else 0
  }

  /** How often `n` appears in the adjacency list of `d`. */
  ghost function EdgeCount(steps: seq<Step>, d: Name, n: Name): nat {
    if steps == [] then 0
    else
      var last := steps[|steps| - 1];
      EdgeCount(steps[..|steps| - 1], d, n) + if last.name == n then multiset(last.needs)[d] else 0
  }

  lemma MissingAfter(needs: seq<Name>, done: set<Name>, d: Name)
    requires d !in done
    ensures Missing(needs, done + {d}) + multiset(needs)[d] == Missing(needs, done)
  {
    if needs != [] {
      MissingAfter(needs[..|needs| - 1], done, d);
      assert needs == needs[..|needs| - 1] + [needs[|needs| - 1]];
    }
  }

  lemma PendingAfter(steps: seq<Step>, n: Name, done: set<Name>, d: Name)
    requires d !in done
    ensures Pending(steps, n, done + {d}) + EdgeCount(steps, d, n) == Pending(steps, n, done)
  {
    if steps != [] {
      PendingAfter(steps[..|steps| - 1], n, done, d);
      MissingAfter(steps[|steps| - 1].needs, done, d);
    }
  }

  lemma MissingZero(needs: seq<Name>, done: set<Name>)
    ensures Missing(needs, done) == 0 <==> forall d :: d in needs ==> d in done
  {
    if needs != [] {
      MissingZero(needs[..|needs| - 1], done);
      assert needs == needs[..|needs| - 1] + [needs[|needs| - 1]];
    }
  }

  lemma PendingZero(steps: seq<Step>, n: Name, done: set<Name>)
    ensures Pending(steps, n, done) == 0 <==> forall s, d :: s in steps && s.name == n && d in s.needs ==> d in done
  {
    if steps != [] {
      var init, last := steps[..|steps| - 1], steps[|steps| - 1];
      PendingZero(init, n, done);
      MissingZero(last.needs, done);
      assert steps == init + [last];
      assert forall s :: s in steps <==> s in init || s == last;
    }
  }

  // ---------------------------------------------------------------- the tables

  /** Go's map read: a missing key yields the empty slice. */
  function AdjOf(adj: map<Name, seq<Name>>, d: Name): seq<Name> {
    if d in adj then adj[d] else []
  }

  /** Each name is mapped to the last of the steps that carry it. */
  ghost predicate LookupTable(table: map<Name, Step>, steps: seq<Step>) {
    && table.Keys == NameSet(steps)
    && forall n :: n in table ==> table[n] in steps && table[n].name == n
  }

  ghost predicate AdjacencyTable(adj: map<Name, seq<Name>>, steps: seq<Step>) {
    forall d, n :: multiset(AdjOf(adj, d))[n] == EdgeCount(steps, d, n)
  }

  ghost predicate DegreeTable(inDegree: map<Name, int>, steps: seq<Step>, done: set<Name>) {
    && inDegree.Keys == NameSet(steps)
    && forall n :: n in inDegree ==> inDegree[n] == Pending(steps, n, done)
  }

  /** The first need, in declaration order, that names no step. */
  ghost predicate FirstUnknown(steps: seq<Step>, i: nat, k: nat)
  {
    && i < |steps| && k < |steps[i].needs|
    && !Declared(steps, steps[i].needs[k])
    && (forall j :: 0 <= j < k ==> Declared(steps, steps[i].needs[j]))
    && NeedsKnownBelow(steps, i)
  }

  ghost predicate NeedsKnownBelow(steps: seq<Step>, i: nat)
    requires i <= |steps|
  {
    forall s, d :: s in steps[..i] && d in s.needs ==> Declared(steps, d)
  }

  lemma NameSetDeclared(steps: seq<Step>, n: Name)
    ensures n in NameSet(steps) <==> Declared(steps, n)
  {
    if n in NameSet(steps) {
      var s :| s in steps && s.name == n;
    }
  }

  lemma NameSetSnoc(steps: seq<Step>, i: nat)
    requires i < |steps|
    ensures steps[..i + 1] == steps[..i] + [steps[i]]
    ensures NameSet(steps[..i + 1]) == NameSet(steps[..i]) + {steps[i].name}
  {
    assert steps[..i + 1] == steps[..i] + [steps[i]];
    assert forall s :: s in steps[..i + 1] <==> s in steps[..i] || s == steps[i];
  }

  method IndexSteps(steps: seq<Step>) returns (table: map<Name, Step>)
    ensures LookupTable(table, steps)
  {
    table := map[];
    for i := 0 to |steps|
      invariant LookupTable(table, steps[..i])
    {
      NameSetSnoc(steps, i);
      table := table[steps[i].name := steps[i]];
    }
    assert steps[..|steps|] == steps;
  }

  /** One step's needs entered into the tables. */
  ghost predicate PartialAdjacency(adj: map<Name, seq<Name>>, steps: seq<Step>, last: Step, k: nat)
    requires k <= |last.needs|
  {
    forall d, n :: multiset(AdjOf(adj, d))[n] ==
      EdgeCount(steps, d, n) + if last.name == n then multiset(last.needs[..k])[d] else 0
  }

  ghost predicate PartialDegree(inDegree: map<Name, int>, steps: seq<Step>, last: Step, k: nat)
    requires k <= |last.needs|
  {
    && inDegree.Keys == NameSet(steps) + {last.name}
    && forall n :: n in inDegree ==>
         inDegree[n] == Pending(steps, n, {}) + if last.name == n then Missing(last.needs[..k], {}) else 0
  }

  lemma AddEdge(adj: map<Name, seq<Name>>, steps: seq<Step>, last: Step, k: nat)
    requires k < |last.needs| && PartialAdjacency(adj, steps, last, k)
    ensures PartialAdjacency(adj[last.needs[k] := AdjOf(adj, last.needs[k]) + [last.name]], steps, last, k + 1)
  {
    var dep := last.needs[k];
    assert last.needs[..k + 1] == last.needs[..k] + [dep];
    var adj' := adj[dep := AdjOf(adj, dep) + [last.name]];
    forall d, n
      ensures multiset(AdjOf(adj', d))[n] ==
        EdgeCount(steps, d, n) + if last.name == n then multiset(last.needs[..k + 1])[d] else 0
    {
      assert multiset(AdjOf(adj, d))[n] ==
        EdgeCount(steps, d, n) + if last.name == n then multiset(last.needs[..k])[d] else 0;
    }
  }

  lemma AddDegree(inDegree: map<Name, int>, steps: seq<Step>, last: Step, k: nat)
    requires k < |last.needs| && PartialDegree(inDegree, steps, last, k)
    ensures PartialDegree(inDegree[last.name := inDegree[last.name] + 1], steps, last, k + 1)
  {
    assert last.needs[..k + 1][..k] == last.needs[..k];
  }

  lemma CloseStep(inDegree: map<Name, int>, adj: map<Name, seq<Name>>, steps: seq<Step>, i: nat)
    requires i < |steps|
    requires PartialDegree(inDegree, steps[..i], steps[i], |steps[i].needs|)
    requires PartialAdjacency(adj, steps[..i], steps[i], |steps[i].needs|)
    ensures DegreeTable(inDegree, steps[..i + 1], {})
    ensures AdjacencyTable(adj, steps[..i + 1])
  {
    var s, upto := steps[i], steps[..i + 1];
    NameSetSnoc(steps, i);
    assert s.needs[..|s.needs|] == s.needs;
    assert upto[..|upto| - 1] == steps[..i] && upto[|upto| - 1] == s;
    forall d, n
      ensures multiset(AdjOf(adj, d))[n] == EdgeCount(upto, d, n)
    {
      assert multiset(AdjOf(adj, d))[n] ==
        EdgeCount(steps[..i], d, n) + if s.name == n then multiset(s.needs[..|s.needs|])[d] else 0;
    }
  }

  ghost predicate ReportsFirstUnknown(steps: seq<Step>, e: DagError) {
    exists i: nat, k: nat :: FirstUnknown(steps, i, k) && e == UnknownDependency(steps[i].name, steps[i].needs[k])
  }

  lemma OpenStep(inDegree: map<Name, int>, adj: map<Name, seq<Name>>, steps: seq<Step>, last: Step)
    requires DegreeTable(inDegree, steps, {}) && AdjacencyTable(adj, steps)
    ensures PartialDegree(if last.name in inDegree then inDegree else inDegree[last.name := 0], steps, last, 0)
    ensures PartialAdjacency(adj, steps, last, 0)
  {
    if last.name !in inDegree {
      assert forall t :: t in steps ==> t.name in NameSet(steps);
      PendingZero(steps, last.name, {});
    }
  }

  /** Lines 51-58 for one step: stops at a need that no step carries. */
  method EnterNeeds(steps: seq<Step>, ghost before: seq<Step>, s: Step, table: map<Name, Step>,
                    inDegree0: map<Name, int>, adj0: map<Name, seq<Name>>)
    returns (inDegree: map<Name, int>, adj: map<Name, seq<Name>>, k: nat)
    requires LookupTable(table, steps)
    requires PartialDegree(inDegree0, before, s, 0) && PartialAdjacency(adj0, before, s, 0)
    ensures k <= |s.needs| && forall j :: 0 <= j < k ==> Declared(steps, s.needs[j])
    ensures k < |s.needs| ==> !Declared(steps, s.needs[k])
    ensures PartialDegree(inDegree, before, s, k) && PartialAdjacency(adj, before, s, k)
  {
    inDegree, adj, k := inDegree0, adj0, 0;
    while k < |s.needs|
      invariant k <= |s.needs|
      invariant PartialDegree(inDegree, before, s, k)
      invariant PartialAdjacency(adj, before, s, k)
      invariant forall j :: 0 <= j < k ==> Declared(steps, s.needs[j])
    {
      var dep := s.needs[k];
      NameSetDeclared(steps, dep);
      if dep !in table { return; }
      AddEdge(adj, before, s, k);
      AddDegree(inDegree, before, s, k);
      adj := adj[dep := AdjOf(adj, dep) + [s.name]];
      inDegree := inDegree[s.name := inDegree[s.name] + 1];
      k := k + 1;
    }
  }

  /** Lines 43-59: fill `inDegree` and `adj`, stopping at the first unknown need. */
  method BuildTables(steps: seq<Step>, table: map<Name, Step>)
    returns (r: Result<(map<Name, int>, map<Name, seq<Name>>), DagError>)
    requires LookupTable(table, steps)
    ensures r.Ok? ==> NeedsKnown(steps) && DegreeTable(r.value.0, steps, {}) && AdjacencyTable(r.value.1, steps)
    ensures r.Err? ==> ReportsFirstUnknown(steps, r.error)
  {
    var inDegree: map<Name, int>, adj: map<Name, seq<Name>> := map[], map[];
    for i := 0 to |steps|
      invariant DegreeTable(inDegree, steps[..i], {})
      invariant AdjacencyTable(adj, steps[..i])
      invariant NeedsKnownBelow(steps, i)
    {
      var s := steps[i];
      OpenStep(inDegree, adj, steps[..i], s);
      if s.name !in inDegree {
        inDegree := inDegree[s.name := 0];
      }
      var k: nat;
      inDegree, adj, k := EnterNeeds(steps, steps[..i], s, table, inDegree, adj);
      if k < |s.needs| {
        assert FirstUnknown(steps, i, k);
        return Err(UnknownDependency(s.name, s.needs[k]));
      }
      CloseStep(inDegree, adj, steps, i);
      NameSetSnoc(steps, i);
    }
    assert steps[..|steps|] == steps;
    return Ok((inDegree, adj));
  }

  // ---------------------------------------------------------------- the queue

  /** The emitted steps and the queue together hold exactly the names whose remaining in-degree is zero. */
  ghost predicate Frontier(steps: seq<Step>, inDegree: map<Name, int>, queue: seq<Name>, done: set<Name>) {
    && NoRepeats(queue)
    && done <= inDegree.Keys
    && (forall n :: n in queue ==> n in inDegree && n !in done)
    && forall n :: n in inDegree ==> (inDegree[n] == 0 <==> n in queue || n in done)
  }

  /** What has been emitted so far is a topological order of distinct names. */
  ghost predicate Emitted(order: seq<Step>, steps: seq<Step>, done: set<Name>) {
    && (forall s :: s in order ==> s in steps)
    && DistinctNames(order)
    && Topological(order)
    && NameSet(order) == done
    && |order| == |done|
  }

  /** Lines 61-66: any iteration order of the map is possible. */
  method SeedQueue(steps: seq<Step>, inDegree: map<Name, int>) returns (queue: seq<Name>)
    requires DegreeTable(inDegree, steps, {})
    ensures Frontier(steps, inDegree, queue, {})
  {
    queue := [];
    var rest := inDegree.Keys;
    while rest != {}
      invariant rest <= inDegree.Keys
      invariant NoRepeats(queue)
      invariant forall n :: n in queue <==> n in inDegree && n !in rest && inDegree[n] == 0
      decreases rest
    {
      var name :| name in rest;
      rest := rest - {name};
      if inDegree[name] == 0 {
        queue := queue + [name];
      }
    }
  }

  lemma EmitOne(order: seq<Step>, steps: seq<Step>, done: set<Name>, s: Step)
    requires Emitted(order, steps, done)
    requires s in steps && s.name !in done
    requires forall d :: d in s.needs ==> d in done
    ensures Emitted(order + [s], steps, done + {s.name})
  {
    var longer := order + [s];
    assert forall t :: t in longer <==> t in order || t == s;
    assert forall i :: 0 <= i < |order| ==> order[i] in order && order[i].name in done;
    forall i, d | 0 <= i < |longer| && d in longer[i].needs
      ensures Declared(longer[..i], d)
    {
      if i < |order| {
        assert longer[..i] == order[..i];
      } else {
        assert longer[..i] == order;
        NameSetDeclared(order, d);
      }
    }
  }

  /** The in-degrees while the neighbours of `name` are being relaxed: `k` of them are done. */
  ghost predicate Relaxing(steps: seq<Step>, inDegree: map<Name, int>, done: set<Name>, out: seq<Name>, k: nat)
    requires k <= |out|
  {
    && inDegree.Keys == NameSet(steps)
    && forall n :: n in inDegree ==> inDegree[n] == Pending(steps, n, done) + multiset(out[k..])[n]
  }

  lemma EdgeCountDeclared(steps: seq<Step>, d: Name, n: Name)
    requires EdgeCount(steps, d, n) > 0
    ensures n in NameSet(steps)
  {
    var init, last := steps[..|steps| - 1], steps[|steps| - 1];
    assert last in steps;
    if last.name != n {
      EdgeCountDeclared(init, d, n);
      var s :| s in init && s.name == n;
      assert s in steps;
    }
  }

  lemma StartRelaxing(steps: seq<Step>, inDegree: map<Name, int>, adj: map<Name, seq<Name>>, done: set<Name>, name: Name)
    requires DegreeTable(inDegree, steps, done) && AdjacencyTable(adj, steps)
    requires name !in done
    ensures Relaxing(steps, inDegree, done + {name}, AdjOf(adj, name), 0)
    ensures forall n :: n in AdjOf(adj, name) ==> n in inDegree
  {
    var out := AdjOf(adj, name);
    assert out[0..] == out;
    forall n | n in inDegree
      ensures inDegree[n] == Pending(steps, n, done + {name}) + multiset(out)[n]
    {
      PendingAfter(steps, n, done, name);
      assert multiset(out)[n] == EdgeCount(steps, name, n);
    }
    forall n | n in out
      ensures n in inDegree
    {
      assert n in multiset(out);
      assert multiset(AdjOf(adj, name))[n] == EdgeCount(steps, name, n);
      EdgeCountDeclared(steps, name, n);
    }
  }

  lemma TailCount(out: seq<Name>, k: nat, n: Name)
    requires k < |out|
    ensures multiset(out[k..])[n] == multiset(out[k + 1..])[n] + if out[k] == n then 1 else 0
  {
    assert out[k..] == [out[k]] + out[k + 1..];
  }

  lemma RelaxDegree(steps: seq<Step>, done: set<Name>, inDegree: map<Name, int>, out: seq<Name>, k: nat)
    requires k < |out| && out[k] in inDegree && Relaxing(steps, inDegree, done, out, k)
    ensures inDegree[out[k]] >= 1
    ensures Relaxing(steps, inDegree[out[k] := inDegree[out[k]] - 1], done, out, k + 1)
  {
    forall n | n in inDegree
      ensures multiset(out[k..])[n] == multiset(out[k + 1..])[n] + if out[k] == n then 1 else 0
    {
      TailCount(out, k, n);
    }
  }

  lemma RelaxFrontier(steps: seq<Step>, done: set<Name>, inDegree: map<Name, int>, queue: seq<Name>, to: Name)
    requires to in inDegree && inDegree[to] >= 1 && Frontier(steps, inDegree, queue, done)
    ensures Frontier(steps, inDegree[to := inDegree[to] - 1], if inDegree[to] == 1 then queue + [to] else queue, done)
  {
  }

  /** Lines 74-79: take one edge off every neighbour and enqueue those left without needs. */
  method Relax(steps: seq<Step>, ghost done: set<Name>, inDegree0: map<Name, int>, queue0: seq<Name>, out: seq<Name>)
    returns (inDegree: map<Name, int>, queue: seq<Name>)
    requires Relaxing(steps, inDegree0, done, out, 0) && Frontier(steps, inDegree0, queue0, done)
    requires forall n :: n in out ==> n in inDegree0
    ensures DegreeTable(inDegree, steps, done) && Frontier(steps, inDegree, queue, done)
  {
    inDegree, queue := inDegree0, queue0;
    for k := 0 to |out|
      invariant Relaxing(steps, inDegree, done, out, k)
      invariant Frontier(steps, inDegree, queue, done)
    {
      var to := out[k];
      RelaxDegree(steps, done, inDegree, out, k);
      RelaxFrontier(steps, done, inDegree, queue, to);
      inDegree := inDegree[to := inDegree[to] - 1];
      if inDegree[to] == 0 {
        queue := queue + [to];
      }
    }
    assert out[|out|..] == [];
  }

  lemma Dequeue(steps: seq<Step>, inDegree: map<Name, int>, queue: seq<Name>, done: set<Name>)
    requires queue != [] && Frontier(steps, inDegree, queue, done)
    ensures Frontier(steps, inDegree, queue[1..], done + {queue[0]})
  {
    assert queue == [queue[0]] + queue[1..];
  }

  /** Line 82, the accepting side. */
  lemma FullOrder(order: seq<Step>, steps: seq<Step>, done: set<Name>)
    requires Emitted(order, steps, done) && |order| == |steps| && NeedsKnown(steps)
    ensures Accepted(steps) && multiset(order) == multiset(steps)
  {
    EmittedWithin(order, steps, done);
    NameCount(steps);
    assert done <= NameSet(steps);
    SameSizeSubset(done, NameSet(steps));
    DistinctByCount(steps);
    SameMembers(order, steps);
    TopologicalIsAcyclic(order);
    forall n
      ensures !Reaches(steps, n, n)
    {
      if Reaches(steps, n, n) {
        assert forall s :: s in order <==> s in multiset(order);
        assert forall s :: s in steps <==> s in multiset(steps);
        ReachesMonotone(steps, order, n, n);
      }
    }
  }

  lemma EmittedWithin(order: seq<Step>, steps: seq<Step>, done: set<Name>)
    requires Emitted(order, steps, done)
    ensures done <= NameSet(steps)
  {
  }

  lemma SameSizeSubset<T>(a: set<T>, b: set<T>)
    requires a <= b && |a| >= |b|
    ensures a == b
  {
    assert |b - a| == |b| - |a|;
  }

  lemma NameCount(steps: seq<Step>)
    ensures |NameSet(steps)| <= |steps|
  {
    if steps != [] {
      NameCount(steps[..|steps| - 1]);
      NameSetSnoc(steps, |steps| - 1);
      assert steps[..|steps|] == steps;
    }
  }

  lemma DistinctByCount(steps: seq<Step>)
    requires |NameSet(steps)| == |steps|
    ensures DistinctNames(steps)
  {
    if steps != [] {
      var init, last := steps[..|steps| - 1], steps[|steps| - 1];
      NameCount(init);
      NameSetSnoc(steps, |init|);
      assert steps[..|steps|] == steps;
      assert NameSet(steps) == NameSet(init) + {last.name};
      DistinctByCount(init);
      DistinctSnoc(init, last);
      assert steps == init + [last];
    }
  }

  lemma DistinctSnoc(init: seq<Step>, last: Step)
    requires DistinctNames(init) && last.name !in NameSet(init)
    ensures DistinctNames(init + [last])
  {
    forall i | 0 <= i < |init|
      ensures init[i].name != last.name
    {
      assert init[i] in init && init[i].name in NameSet(init);
    }
  }

  lemma LastIsNew(steps: seq<Step>)
    requires DistinctNames(steps) && steps != []
    ensures steps[|steps| - 1].name !in NameSet(steps[..|steps| - 1])
  {
  }

  lemma CountByDistinct(steps: seq<Step>)
    requires DistinctNames(steps)
    ensures |NameSet(steps)| == |steps|
  {
    if steps != [] {
      var init, last := steps[..|steps| - 1], steps[|steps| - 1];
      CountByDistinct(init);
      NameSetSnoc(steps, |init|);
      assert steps[..|steps|] == steps;
      LastIsNew(steps);
      assert NameSet(steps) == NameSet(init) + {last.name};
    }
  }

  /** Distinct names and equal length make an enumeration a permutation. */
  lemma SameMembers(order: seq<Step>, steps: seq<Step>)
    requires DistinctNames(order) && |order| == |steps|
    requires forall s :: s in order ==> s in steps
    ensures multiset(order) == multiset(steps)
  {
    if order != [] {
      var s := order[|order| - 1];
      var init := order[..|order| - 1];
      assert s in order;
      var i :| 0 <= i < |steps| && steps[i] == s;
      var rest := steps[..i] + steps[i + 1..];
      forall t | t in init
        ensures t in rest
      {
        var j :| 0 <= j < |init| && init[j] == t;
        assert order[j].name != order[|order| - 1].name;
        assert order[j] in order;
        var k :| 0 <= k < |steps| && steps[k] == t;
        assert rest[if k < i then k else k - 1] == t;
      }
      SameMembers(init, rest);
      assert steps == steps[..i] + [s] + steps[i + 1..];
      assert order == init + [s];
    }
  }

  /** Line 82, the rejecting side: names that were never emitted all wait for each other. */
  lemma PartialOrderHasCycle(order: seq<Step>, steps: seq<Step>, inDegree: map<Name, int>, done: set<Name>)
    requires Emitted(order, steps, done) && |order| != |steps| && NeedsKnown(steps)
    requires DegreeTable(inDegree, steps, done) && Frontier(steps, inDegree, [], done)
    ensures !(DistinctNames(steps) && Acyclic(steps))
  {
    if DistinctNames(steps) {
      CountByDistinct(steps);
      var stuck := NameSet(steps) - done;
      EmittedWithin(order, steps, done);
      assert done != NameSet(steps);
      var start :| start in NameSet(steps) && start !in done;
      forall n | n in stuck
        ensures NeedsOneOf(steps, n, stuck)
      {
        PendingZero(steps, n, done);
        assert inDegree[n] != 0;
        var s, d :| s in steps && s.name == n && d in s.needs && d !in done;
        NameSetDeclared(steps, d);
        assert d in stuck && Edge(steps, n, d);
      }
      StuckSetHasCycle(steps, stuck, [start]);
    }
  }

  /** Kahn's algorithm over one phase.  It accepts exactly when names are distinct, every
      need is a name of the phase and no step needs itself transitively; the order it then
      returns is a permutation of the steps that puts each step after its needs. */
  method ValidateDagSteps(steps: seq<Step>) returns (r: Result<seq<Step>, DagError>)
    ensures r.Ok? <==> Accepted(steps)
    ensures r.Ok? ==> multiset(r.value) == multiset(steps) && Topological(r.value)
    ensures r.Err? ==> ErrorOf(steps, r.error)
    ensures r == Err(CycleDetected) <==> NeedsKnown(steps) && !(DistinctNames(steps) && Acyclic(steps))
  {
    if |steps| == 0 {
      assert Topological([]);
      FullOrder([], steps, {});
      return Ok([]);
    }
    var table := IndexSteps(steps);
    var built := BuildTables(steps, table);
    if built.Err? {
      UnknownIsNotKnown(steps, built.error);
      return Err(built.error);
    }
    var (inDegree, adj) := built.value;
    var queue := SeedQueue(steps, inDegree);
    var order: seq<Step> := [];
    ghost var done: set<Name> := {};
    while |queue| > 0
      invariant DegreeTable(inDegree, steps, done)
      invariant Frontier(steps, inDegree, queue, done)
      invariant Emitted(order, steps, done)
      decreases inDegree.Keys - done
    {
      var name := queue[0];
      ghost var left := inDegree.Keys - done;
      Dequeue(steps, inDegree, queue, done);
      StartRelaxing(steps, inDegree, adj, done, name);
      PendingZero(steps, name, done);
      EmitOne(order, steps, done, table[name]);
      queue := queue[1..];
      order := order + [table[name]];
      done := done + {name};
      inDegree, queue := Relax(steps, done, inDegree, queue, AdjOf(adj, name));
      assert name in left && name !in inDegree.Keys - done;
    }
    if |order| != |steps| {
      PartialOrderHasCycle(order, steps, inDegree, done);
      return Err(CycleDetected);
    }
    FullOrder(order, steps, done);
    return Ok(order);
  }

  /** What the error of a rejected phase says. */
  ghost predicate ErrorOf(steps: seq<Step>, e: DagError) {
    match e
    case UnknownDependency(_, _) => ReportsFirstUnknown(steps, e)
    case CycleDetected => NeedsKnown(steps) && !(DistinctNames(steps) && Acyclic(steps))
  }

  lemma KnownBelow(steps: seq<Step>, j: nat, i: nat, k: nat)
    requires j <= |steps| && NeedsKnownBelow(steps, j) && i < j && k < |steps[i].needs|
    ensures Declared(steps, steps[i].needs[k])
  {
    assert steps[..j][i] == steps[i] && steps[i].needs[k] in steps[i].needs;
  }

  /** There is only one first unknown need, so the error is determined by the phase. */
  lemma OneFirstUnknown(steps: seq<Step>, i: nat, k: nat, j: nat, l: nat)
    requires FirstUnknown(steps, i, k) && FirstUnknown(steps, j, l)
    ensures i == j && k == l
  {
    if i < j {
      KnownBelow(steps, j, i, k);
    } else if j < i {
      KnownBelow(steps, i, j, l);
    }
  }

  lemma UnknownIsNotKnown(steps: seq<Step>, e: DagError)
    requires ReportsFirstUnknown(steps, e)
    ensures !NeedsKnown(steps)
  {
    var i: nat, k: nat :| FirstUnknown(steps, i, k) && e == UnknownDependency(steps[i].name, steps[i].needs[k]);
    assert steps[i] in steps && steps[i].needs[k] in steps[i].needs;
  }
}
