/** Pipeline steps and the graph their `needs` lists draw.  A step `a` has an
    edge to `b` when it lists `b` among its needs; everything about ordering in
    this project is said through paths of that relation. */
module Steps {
  type Name = string

  datatype Option<+T> = None | Some(value: T)

  datatype Result<+T, +E> = Ok(value: T) | Err(error: E)

  /** `kind` selects the plugin; the remaining fields of a step never influence ordering. */
  datatype Step = Step(name: Name, kind: string, needs: seq<Name>)

  predicate Declared(steps: seq<Step>, n: Name) {
    exists i :: 0 <= i < |steps| && steps[i].name == n
  }

  ghost predicate DistinctNames(steps: seq<Step>) {
    forall i, j :: 0 <= i < j < |steps| ==> steps[i].name != steps[j].name
  }

  ghost predicate NeedsKnown(steps: seq<Step>) {
    forall s, d :: s in steps && d in s.needs ==> Declared(steps, d)
  }

  /** Some step called `a` lists `b` among its needs. */
  ghost predicate Edge(steps: seq<Step>, a: Name, b: Name) {
    exists s :: s in steps && s.name == a && b in s.needs
  }

  ghost predicate IsPath(steps: seq<Step>, p: seq<Name>) {
    forall i :: 0 <= i < |p| - 1 ==> Edge(steps, p[i], p[i + 1])
  }

  ghost predicate PathFromTo(steps: seq<Step>, p: seq<Name>, a: Name, b: Name) {
    |p| >= 2 && p[0] == a && p[|p| - 1] == b && IsPath(steps, p)
  }

  /** `a` needs `b`, directly or through other steps. */
  ghost predicate Reaches(steps: seq<Step>, a: Name, b: Name) {
    exists p :: PathFromTo(steps, p, a, b)
  }

  ghost predicate Acyclic(steps: seq<Step>) {
    forall n :: !Reaches(steps, n, n)
  }

  /** What validation promises to accept. */
  ghost predicate Accepted(steps: seq<Step>) {
    DistinctNames(steps) && NeedsKnown(steps) && Acyclic(steps)
  }

  /** Every need of every step is the name of an earlier step. */
  ghost predicate Topological(order: seq<Step>) {
    forall i, d :: 0 <= i < |order| && d in order[i].needs ==> Declared(order[..i], d)
  }

  // ---------------------------------------------------------------- paths

  lemma EdgeReaches(steps: seq<Step>, a: Name, b: Name)
    requires Edge(steps, a, b)
    ensures Reaches(steps, a, b)
  {
    assert PathFromTo(steps, [a, b], a, b);
  }

  lemma ReachesTrans(steps: seq<Step>, a: Name, b: Name, c: Name)
    requires Reaches(steps, a, b) && Reaches(steps, b, c)
    ensures Reaches(steps, a, c)
  {
    var p :| PathFromTo(steps, p, a, b);
    var q :| PathFromTo(steps, q, b, c);
    var r := p + q[1..];
    forall i | 0 <= i < |r| - 1
      ensures Edge(steps, r[i], r[i + 1])
    {
      if i >= |p| - 1 {
        assert r[i] == q[i - (|p| - 1)];
        assert r[i + 1] == q[i + 1 - (|p| - 1)];
      }
    }
    assert PathFromTo(steps, r, a, c);
  }

  /** A path is one edge, or one edge followed by a path. */
  lemma ReachesFirst(steps: seq<Step>, p: seq<Name>, a: Name, b: Name)
    requires PathFromTo(steps, p, a, b)
    ensures Edge(steps, a, p[1])
    ensures |p| == 2 ==> p[1] == b
    ensures |p| > 2 ==> PathFromTo(steps, p[1..], p[1], b)
  {
    assert Edge(steps, p[0], p[1]);
    if |p| > 2 {
      var q := p[1..];
      forall i | 0 <= i < |q| - 1
        ensures Edge(steps, q[i], q[i + 1])
      {
        assert q[i] == p[i + 1] && q[i + 1] == p[i + 2];
        assert Edge(steps, p[i + 1], p[i + 2]);
      }
    }
  }

  /** The edge relation is all that reachability depends on. */
  lemma ReachesMonotone(from: seq<Step>, to: seq<Step>, a: Name, b: Name)
    requires forall x, y :: Edge(from, x, y) ==> Edge(to, x, y)
    requires Reaches(from, a, b)
    ensures Reaches(to, a, b)
  {
    var p :| PathFromTo(from, p, a, b);
    assert PathFromTo(to, p, a, b);
  }

  // ---------------------------------------------------------------- acyclicity

  /** In a topological order a path only ever moves to earlier positions. */
  lemma {:induction false} PathDescends(order: seq<Step>, p: seq<Name>, a: Name, b: Name, i: nat)
    requires DistinctNames(order) && Topological(order)
    requires i < |order| && order[i].name == a
    requires PathFromTo(order, p, a, b)
    ensures Declared(order[..i], b)
    decreases |p|
  {
    ReachesFirst(order, p, a, b);
    var m := p[1];
    assert Declared(order[..i], m);
    var j :| 0 <= j < i && order[..i][j].name == m;
    if |p| > 2 {
      PathDescends(order, p[1..], m, b, j);
      var k :| 0 <= k < j && order[..j][k].name == b;
      assert order[..i][k].name == b;
    }
  }

  lemma TopologicalNeedsKnown(order: seq<Step>)
    requires Topological(order)
    ensures NeedsKnown(order)
  {
    forall s, d | s in order && d in s.needs
      ensures Declared(order, d)
    {
      var i :| 0 <= i < |order| && order[i] == s;
      assert Declared(order[..i], d);
      var j :| 0 <= j < i && order[..i][j].name == d;
      assert order[j].name == d;
    }
  }

  lemma TopologicalIsAcyclic(order: seq<Step>)
    requires DistinctNames(order) && Topological(order)
    ensures Acyclic(order)
  {
    forall n
      ensures !Reaches(order, n, n)
    {
      if p :| PathFromTo(order, p, n, n) {
        ReachesFirst(order, p, n, n);
        var s :| s in order && s.name == n && p[1] in s.needs;
        var i :| 0 <= i < |order| && order[i] == s;
        PathDescends(order, p, n, n, i);
        assert false;
      }
    }
  }

  lemma SubsetCount<T>(a: set<T>, b: set<T>)
    requires a <= b
    ensures |a| <= |b|
  {
    assert b == a + (b - a);
  }

  ghost predicate NoRepeats(p: seq<Name>) {
    forall i, j :: 0 <= i < j < |p| ==> p[i] != p[j]
  }

  lemma DistinctInSet(p: seq<Name>, names: set<Name>)
    requires NoRepeats(p)
    requires forall n :: n in p ==> n in names
    ensures |p| <= |names|
  {
    if p != [] {
      var last := p[|p| - 1];
      DistinctInSet(p[..|p| - 1], names - {last});
    }
  }

  ghost predicate NeedsOneOf(steps: seq<Step>, n: Name, names: set<Name>) {
    exists m :: m in names && Edge(steps, n, m)
  }

  /** A path inside `names` that never visits a name twice. */
  ghost predicate SimpleWalk(steps: seq<Step>, names: set<Name>, p: seq<Name>) {
    p != [] && NoRepeats(p) && (forall n :: n in p ==> n in names) && IsPath(steps, p)
  }

  lemma WalkIsShort(steps: seq<Step>, names: set<Name>, p: seq<Name>)
    requires SimpleWalk(steps, names, p)
    ensures |p| <= |names|
  {
    DistinctInSet(p, names);
  }

  lemma ExtendPath(steps: seq<Step>, p: seq<Name>, m: Name)
    requires p != [] && IsPath(steps, p) && Edge(steps, p[|p| - 1], m)
    ensures IsPath(steps, p + [m])
  {
    forall i | 0 <= i < |p|
      ensures Edge(steps, (p + [m])[i], (p + [m])[i + 1])
    {
      if i < |p| - 1 { assert Edge(steps, p[i], p[i + 1]); }
    }
  }

  lemma RevisitIsCycle(steps: seq<Step>, p: seq<Name>, m: Name)
    requires m in p && IsPath(steps, p + [m])
    ensures !Acyclic(steps)
  {
    var k :| 0 <= k < |p| && p[k] == m;
    var longer := p + [m];
    var loop := longer[k..];
    forall i | 0 <= i < |loop| - 1
      ensures Edge(steps, loop[i], loop[i + 1])
    {
      assert Edge(steps, longer[k + i], longer[k + i + 1]);
    }
    assert PathFromTo(steps, loop, m, m);
    assert Reaches(steps, m, m);
  }

  /** If everybody in a non-empty set waits for somebody in that set, there is a cycle:
      a walk inside the set must revisit a name. */
  lemma {:induction false} StuckSetHasCycle(steps: seq<Step>, stuck: set<Name>, walk: seq<Name>)
    requires forall n {:trigger NeedsOneOf(steps, n, stuck)} :: n in stuck ==> NeedsOneOf(steps, n, stuck)
    requires SimpleWalk(steps, stuck, walk)
    ensures !Acyclic(steps)
    decreases |stuck| - |walk|
  {
    WalkIsShort(steps, stuck, walk);
    var last := walk[|walk| - 1];
    assert NeedsOneOf(steps, last, stuck);
    var m :| m in stuck && Edge(steps, last, m);
    ExtendPath(steps, walk, m);
    if m in walk {
      RevisitIsCycle(steps, walk, m);
    } else {
      assert SimpleWalk(steps, stuck, walk + [m]);
      WalkIsShort(steps, stuck, walk + [m]);
      StuckSetHasCycle(steps, stuck, walk + [m]);
    }
  }
}
