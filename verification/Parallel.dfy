/** internal/core/parallel.go and the target blacklist of internal/core/context.go. */
module Parallel {
  // A step is run on every healthy target by its own goroutine, behind an optional semaphore,
  // with retries; a target whose attempts all fail is marked dead, and the run fails when more
  // targets die than are tolerated.

  import opened Steps

  type Id = string

  // ---------------------------------------------------------------- the blacklist

  ghost function Healthy(targets: seq<Id>, dead: set<Id>): seq<Id> {
    if targets == [] then []
    else
      Healthy(targets[..|targets| - 1], dead) +
      if targets[|targets| - 1] in dead then [] else [targets[|targets| - 1]]
  }

  lemma {:induction false} HealthyMembers(targets: seq<Id>, dead: set<Id>)
    ensures forall t :: t in Healthy(targets, dead) <==> t in targets && t !in dead
    ensures dead == {} ==> Healthy(targets, dead) == targets
  {
    if targets != [] {
      var init, last := targets[..|targets| - 1], targets[|targets| - 1];
      HealthyMembers(init, dead);
      assert targets == init + [last];
      assert Healthy(targets, dead) == Healthy(init, dead) + if last in dead then [] else [last];
    }
  }

  lemma {:induction false} HealthyCount(targets: seq<Id>, dead: set<Id>, t: Id)
    ensures multiset(Healthy(targets, dead))[t] == if t in dead then 0 else multiset(targets)[t]
  {
    if targets != [] {
      var init, last := targets[..|targets| - 1], targets[|targets| - 1];
      HealthyCount(init, dead, t);
      assert targets == init + [last];
      assert multiset(targets)[t] == multiset(init)[t] + if last == t then 1 else 0;
    }
  }

  /** The healthy targets come in the order in which they were given. */
  lemma {:induction false} HealthyInOrder(targets: seq<Id>, dead: set<Id>, a: nat, b: nat)
    requires a < b < |Healthy(targets, dead)|
    ensures exists i, j :: 0 <= i < j < |targets| && targets[i] == Healthy(targets, dead)[a] && targets[j] == Healthy(targets, dead)[b]
  {
    var init, last := targets[..|targets| - 1], targets[|targets| - 1];
    var before := Healthy(init, dead);
    if b < |before| {
      HealthyInOrder(init, dead, a, b);
      var i, j :| 0 <= i < j < |init| && init[i] == before[a] && init[j] == before[b];
      assert targets[i] == before[a] && targets[j] == before[b];
    } else {
      HealthyMembers(init, dead);
      assert before[a] in init;
      var i :| 0 <= i < |init| && init[i] == before[a];
      assert targets[i] == before[a] && targets[|targets| - 1] == last;
    }
  }

  class DeployContext {
    var deadTargets: set<Id>

    constructor ()
      ensures deadTargets == {}
    {
      deadTargets := {};
    }

    method MarkDead(id: Id)
      modifies this
      ensures deadTargets == old(deadTargets) + {id}
    {
      deadTargets := deadTargets + {id};
    }

    method FilterHealthy(targets: seq<Id>) returns (healthy: seq<Id>)
      ensures healthy == Healthy(targets, deadTargets)
      ensures forall t :: t in healthy <==> t in targets && t !in deadTargets
    {
      HealthyMembers(targets, deadTargets);
      if |deadTargets| == 0 { return targets; }
      healthy := [];
      for k := 0 to |targets|
        invariant healthy == Healthy(targets[..k], deadTargets)
      {
        assert targets[..k + 1][..k] == targets[..k];
        if targets[k] !in deadTargets { healthy := healthy + [targets[k]]; }
      }
      assert targets[..|targets|] == targets;
    }
  }

  // ---------------------------------------------------------------- tolerance

  /** `tolerate_failures` after trimming: missing, a number followed by `%`, a number, or neither. */
  datatype ToleranceText = Absent | Percent(n: real) | Plain(n: real) | Garbled

  function ParseTolerance(t: ToleranceText): (tolerance: real)
    ensures tolerance >= 0.0
  {
    match t
    case Absent => 0.05
    case Percent(n) => if n >= 0.0 then n / 100.0 else 0.0
    case Plain(n) => if n >= 0.0 then n else 0.0
    case Garbled => 0.0
  }

  function Allowed(total: nat, tolerance: real): int {
    if 0.0 < tolerance < 1.0 then (total as real * tolerance).Floor else tolerance.Floor
  }

  /** How many failures are allowed: the whole part of the share, or of the number itself. */
  lemma AllowedIsWholePart(total: nat, tolerance: real)
    ensures 0.0 < tolerance < 1.0 ==>
      Allowed(total, tolerance) as real <= total as real * tolerance < (Allowed(total, tolerance) + 1) as real
    ensures tolerance >= 1.0 ==> Allowed(total, tolerance) as real <= tolerance < (Allowed(total, tolerance) + 1) as real
    ensures tolerance == 0.0 ==> Allowed(total, tolerance) == 0
  {
  }

  lemma FloorsApart(r: real, q: real)
    requires r >= q + 1.0
    ensures r.Floor >= q.Floor + 1
  {
  }

  lemma WholePart(r: real, k: int)
    requires k as real <= r < (k + 1) as real
    ensures r.Floor == k
  {
  }

  lemma Twentieth(total: nat)
    ensures (total as real * 0.05).Floor == total / 20
  {
    var k := total / 20;
    assert 20 * k <= total < 20 * k + 20;
    assert (20 * k) as real == 20.0 * k as real;
    WholePart(total as real * 0.05, k);
  }

  /** How the option is read: nothing means 5%, a number is a count if it is whole, and what is
      negative or not a number means that no failure is tolerated. */
  lemma ToleranceRead(total: nat, k: nat, n: real)
    ensures Allowed(total, ParseTolerance(Absent)) == total / 20
    ensures Allowed(total, ParseTolerance(Plain(k as real))) == k
    ensures 0.0 < n < 1.0 ==> Allowed(total, ParseTolerance(Plain(n))) == (total as real * n).Floor
    ensures n < 0.0 ==> Allowed(total, ParseTolerance(Plain(n))) == 0 && Allowed(total, ParseTolerance(Percent(n))) == 0
    ensures Allowed(total, ParseTolerance(Garbled)) == 0
  {
    Twentieth(total);
  }

  /** `strategy: "rolling"` means one target at a time. */
  function BatchSizeFor(batchSize: int, strategy: string): int { if strategy == "rolling" then 1 else batchSize }

  /** A percentage is read as that share of the targets exactly when it is below 100, or there is
      one target only. */
  lemma PercentIsShareIff(p: real, total: nat)
    requires p >= 0.0
    ensures Allowed(total, ParseTolerance(Percent(p))) == (total as real * (p / 100.0)).Floor <==> p < 100.0 || total == 1
  {
    var q := p / 100.0;
    if p < 100.0 {
      if q == 0.0 { assert total as real * q == 0.0; }
    } else if total == 0 {
      assert total as real * q == 0.0;
    } else if total >= 2 {
      assert total as real * q >= 2 as real * q >= q + 1.0;
      assert Allowed(total, ParseTolerance(Percent(p))) == q.Floor;
      FloorsApart(total as real * q, q);
    }
  }

  /** Of four targets "100%" tolerates one failure. */
  lemma HundredPercentOfFour()
    ensures Allowed(4, ParseTolerance(Percent(100.0))) == 1
  {
  }

  /** A fractional tolerance never excuses the failure of all targets. */
  lemma FractionLeavesOne(total: nat, tolerance: real)
    requires total > 0 && 0.0 < tolerance < 1.0
    ensures 0 <= Allowed(total, tolerance) < total
  {
    assert 0.0 <= total as real * tolerance < total as real;
  }

  // ---------------------------------------------------------------- the goroutines

  datatype Pc =
    | Start                  // wants a slot, if there is a semaphore
    | Head(n: nat)           // at the head of the retry loop; attempts 0..n-1 failed
    | Calling(n: nat)        // fn is running attempt n
    | Exhausted              // left the loop with an error
    | Counted(c: nat)        // marked dead; the counter went to c
    | Done(ok: bool)

  /** `fn(i, n)` tells whether attempt `n` on target `i` succeeds. */
  type Attempts = (nat, nat) -> bool

  datatype Config = Config(ids: seq<Id>, batchSize: int, retries: int, tolerance: real, fn: Attempts) {
    predicate HasSemaphore() { batchSize > 0 }
    function Limit(): int { Allowed(|ids|, tolerance) }
    function Rounds(): nat { if retries < 0 then 0 else retries + 1 }
  }

  datatype Fleet = Fleet(
    pcs: seq<Pc>,
    holders: set<nat>,       // who holds a semaphore slot
    counted: set<nat>,       // who has been counted as failed; the counter is its size
    dead: set<Id>,
    calls: seq<nat>,         // how often fn was called for each target
    parent: bool,            // the caller's context was cancelled
    failed: bool             // the errgroup has recorded an error
  )

  predicate Cancelled(s: Fleet) { s.parent || s.failed }

  predicate AllDone(s: Fleet) { forall i :: 0 <= i < |s.pcs| ==> s.pcs[i].Done? }

  function Initial(cfg: Config, dead: set<Id>, parent: bool): Fleet {
    Fleet(seq(|cfg.ids|, i => Start), {}, {}, dead, seq(|cfg.ids|, i => 0), parent, false)
  }

  datatype Action =
    | Acquire(i: nat)            // take a slot, or pass where there is no semaphore
    | GiveUpSlot(i: nat)         // egCtx.Done() while waiting for a slot
    | Proceed(i: nat)            // delay over (or first attempt): call fn, or leave the loop
    | GiveUpDelay(i: nat)        // egCtx.Done() during the delay
    | Answer(i: nat, ok: bool)   // fn came back
    | Mark(i: nat)               // MarkDead and the atomic increment
    | Judge(i: nat)              // compare the count with the tolerance and return
    | CancelParent

  predicate At(cfg: Config, s: Fleet, i: nat) {
    i < |cfg.ids| == |s.pcs| && |s.calls| == |s.pcs|
  }

  predicate Enabled(cfg: Config, s: Fleet, a: Action) {
    match a
    case Acquire(i) => At(cfg, s, i) && s.pcs[i].Start? && (cfg.HasSemaphore() ==> |s.holders| < cfg.batchSize)
    case GiveUpSlot(i) => At(cfg, s, i) && s.pcs[i].Start? && cfg.HasSemaphore() && Cancelled(s)
    case Proceed(i) => At(cfg, s, i) && s.pcs[i].Head?
    case GiveUpDelay(i) => At(cfg, s, i) && s.pcs[i].Head? && 0 < s.pcs[i].n < cfg.Rounds() && Cancelled(s)
    // fn may also fail because the context was cancelled under it
    case Answer(i, ok) =>
      At(cfg, s, i) && s.pcs[i].Calling? && (ok == cfg.fn(i, s.pcs[i].n) || (!ok && Cancelled(s)))
    case Mark(i) => At(cfg, s, i) && s.pcs[i].Exhausted?
    case Judge(i) => At(cfg, s, i) && s.pcs[i].Counted?
    case CancelParent => !s.parent
  }

  /** Return from the goroutine: the deferred release, then the errgroup. */
  function Leave(s: Fleet, i: nat, ok: bool): Fleet
    requires i < |s.pcs|
  {
    s.(pcs := s.pcs[i := Done(ok)], holders := s.holders - {i}, failed := s.failed || !ok)
  }

  function Apply(cfg: Config, s: Fleet, a: Action): Fleet
    requires Enabled(cfg, s, a)
  {
    match a
    case Acquire(i) =>
      s.(pcs := s.pcs[i := Head(0)], holders := if cfg.HasSemaphore() then s.holders + {i} else s.holders)
    case GiveUpSlot(i) => Leave(s, i, false)
    case Proceed(i) =>
      var n := s.pcs[i].n;
      if n < cfg.Rounds() then s.(pcs := s.pcs[i := Calling(n)], calls := s.calls[i := s.calls[i] + 1])
      else if n == 0 then Leave(s, i, true)
      else s.(pcs := s.pcs[i := Exhausted])
    case GiveUpDelay(i) => Leave(s, i, false)
    case Answer(i, ok) => if ok then Leave(s, i, true) else s.(pcs := s.pcs[i := Head(s.pcs[i].n + 1)])
    case Mark(i) =>
      s.(pcs := s.pcs[i := Counted(|s.counted| + 1)], counted := s.counted + {i}, dead := s.dead + {cfg.ids[i]})
    case Judge(i) => Leave(s, i, s.pcs[i].c <= cfg.Limit())
    case CancelParent => s.(parent := true)
  }

  ghost predicate Next(cfg: Config, s: Fleet, s': Fleet) {
    exists a :: Enabled(cfg, s, a) && s' == Apply(cfg, s, a)
  }

  ghost predicate IsRun(cfg: Config, dead: set<Id>, run: seq<Fleet>) {
    && run != []
    && (run[0] == Initial(cfg, dead, false) || run[0] == Initial(cfg, dead, true))
    && forall t :: 0 <= t < |run| - 1 ==> Next(cfg, run[t], run[t + 1])
  }

  ghost predicate Reachable(cfg: Config, dead: set<Id>, s: Fleet) {
    exists run :: IsRun(cfg, dead, run) && run[|run| - 1] == s
  }

  // ---------------------------------------------------------------- invariants

  /** All attempts on target `i` fail. */
  ghost predicate Hopeless(cfg: Config, i: nat) {
    cfg.retries >= 0 && forall n: nat :: n <= cfg.retries ==> !cfg.fn(i, n)
  }

  ghost function HopelessSet(cfg: Config): (bad: set<nat>)
    ensures forall i: nat :: i in bad <==> i < |cfg.ids| && Hopeless(cfg, i)
  {
    set i: nat | i < |cfg.ids| && Hopeless(cfg, i)
  }

  ghost function IdsOf(cfg: Config, who: set<nat>): set<Id> {
    set i | i in who && i < |cfg.ids| :: cfg.ids[i]
  }

  ghost predicate FailedSoFar(cfg: Config, i: nat, n: nat) {
    forall k: nat :: k < n ==> !cfg.fn(i, k)
  }

  /** The target has been called until a call succeeded. */
  ghost predicate LastCallWorked(cfg: Config, s: Fleet, i: nat) {
    && i < |s.calls| && s.calls[i] > 0 && cfg.fn(i, s.calls[i] - 1)
    && (Cancelled(s) || FailedSoFar(cfg, i, s.calls[i] - 1))
  }

  /** What is known about goroutine `i`. */
  ghost predicate TargetInv(cfg: Config, s: Fleet, i: nat)
    requires At(cfg, s, i)
  {
    && s.calls[i] <= cfg.Rounds()
    && (cfg.HasSemaphore() ==> (i in s.holders <==> !s.pcs[i].Start? && !s.pcs[i].Done?))
    && match s.pcs[i]
       case Start => s.calls[i] == 0 && i !in s.counted
       case Head(n) => s.calls[i] == n <= cfg.Rounds() && i !in s.counted && (Cancelled(s) || FailedSoFar(cfg, i, n))
       case Calling(n) => s.calls[i] == n + 1 && n < cfg.Rounds() && i !in s.counted && (Cancelled(s) || FailedSoFar(cfg, i, n))
       case Exhausted => s.calls[i] == cfg.Rounds() && i !in s.counted && (Cancelled(s) || Hopeless(cfg, i))
       case Counted(c) => s.calls[i] == cfg.Rounds() && i in s.counted && c <= |s.counted|
       case Done(ok) =>
         && (!ok ==> s.failed) && (i in s.counted ==> s.calls[i] == cfg.Rounds())
         && (!ok && i !in s.counted && cfg.retries >= 0 ==>
              s.calls[i] < cfg.Rounds() && (s.parent || s.failed) && (s.calls[i] == 0 ==> cfg.batchSize > 0))
         && (ok && i !in s.counted ==> !Hopeless(cfg, i) && (cfg.retries >= 0 ==> LastCallWorked(cfg, s, i)))
  }

  ghost predicate OverLimit(cfg: Config, s: Fleet) {
    exists i: nat :: i < |s.pcs| && s.pcs[i].Counted? && s.pcs[i].c > cfg.Limit()
  }

  ghost predicate Inv(cfg: Config, dead: set<Id>, s: Fleet) {
    && |s.pcs| == |s.calls| == |cfg.ids|
    && (forall i: nat :: i < |cfg.ids| ==> TargetInv(cfg, s, i))
    && (forall i: nat :: i in s.holders || i in s.counted ==> i < |cfg.ids|)
    && (if cfg.HasSemaphore() then |s.holders| <= cfg.batchSize else s.holders == {})
    && s.dead == dead + IdsOf(cfg, s.counted)
    && (!Cancelled(s) ==> s.counted <= HopelessSet(cfg))
    && (|s.counted| > cfg.Limit() && |s.counted| > 0 ==> s.failed || OverLimit(cfg, s))
    && (s.failed && !s.parent ==> |HopelessSet(cfg)| > cfg.Limit())
  }

  ghost predicate Mover(a: Action, i: nat) { !a.CancelParent? && a.i == i }

  lemma MoverInv(cfg: Config, dead: set<Id>, s: Fleet, a: Action, i: nat)
    requires Inv(cfg, dead, s) && Enabled(cfg, s, a) && Mover(a, i)
    ensures At(cfg, Apply(cfg, s, a), i) && TargetInv(cfg, Apply(cfg, s, a), i)
  {
    assert TargetInv(cfg, s, i);
  }

  /** Nothing that happens elsewhere disturbs a target. */
  lemma TargetStable(cfg: Config, s: Fleet, s': Fleet, i: nat)
    requires At(cfg, s, i) && At(cfg, s', i) && TargetInv(cfg, s, i)
    requires s'.pcs[i] == s.pcs[i] && s'.calls[i] == s.calls[i]
    requires (i in s'.holders <==> i in s.holders) && (i in s'.counted <==> i in s.counted) && |s.counted| <= |s'.counted|
    requires (Cancelled(s) ==> Cancelled(s')) && (s.failed ==> s'.failed)
    ensures TargetInv(cfg, s', i)
  {
  }

  lemma Untouched(cfg: Config, s: Fleet, a: Action, i: nat)
    requires |s.pcs| == |s.calls| == |cfg.ids| && Enabled(cfg, s, a) && i < |cfg.ids| && !Mover(a, i)
    ensures var s' := Apply(cfg, s, a);
      && At(cfg, s', i) && s'.pcs[i] == s.pcs[i] && s'.calls[i] == s.calls[i]
      && (i in s'.holders <==> i in s.holders) && (i in s'.counted <==> i in s.counted)
      && (s.parent ==> s'.parent) && (s.failed ==> s'.failed)
  {
  }

  lemma CountedGrows(cfg: Config, s: Fleet, a: Action)
    requires Enabled(cfg, s, a)
    ensures |s.counted| <= |Apply(cfg, s, a).counted|
  {
    SubsetCount(s.counted, Apply(cfg, s, a).counted);
  }

  lemma OthersInv(cfg: Config, dead: set<Id>, s: Fleet, a: Action, i: nat)
    requires Inv(cfg, dead, s) && Enabled(cfg, s, a) && i < |cfg.ids| && !Mover(a, i)
    ensures At(cfg, Apply(cfg, s, a), i) && TargetInv(cfg, Apply(cfg, s, a), i)
  {
    assert TargetInv(cfg, s, i);
    Untouched(cfg, s, a, i);
    CountedGrows(cfg, s, a);
    TargetStable(cfg, s, Apply(cfg, s, a), i);
  }

  lemma MarkOverLimit(cfg: Config, s: Fleet, i: nat)
    requires Enabled(cfg, s, Mark(i)) && i !in s.counted
    ensures var s' := Apply(cfg, s, Mark(i)); |s'.counted| > cfg.Limit() ==> OverLimit(cfg, s')
  {
    var s' := Apply(cfg, s, Mark(i));
    assert s'.pcs[i] == Counted(|s'.counted|);
  }

  /** Who is over the limit stays so until he says it. */
  lemma StaysOverLimit(cfg: Config, s: Fleet, a: Action)
    requires Enabled(cfg, s, a) && !a.Mark? && OverLimit(cfg, s)
    ensures Apply(cfg, s, a).failed || OverLimit(cfg, Apply(cfg, s, a))
  {
    var s' := Apply(cfg, s, a);
    var i: nat :| i < |s.pcs| && s.pcs[i].Counted? && s.pcs[i].c > cfg.Limit();
    if !s'.failed { assert s'.pcs[i] == s.pcs[i]; }
  }

  lemma OverLimitStep(cfg: Config, s: Fleet, a: Action)
    requires |s.pcs| == |s.calls| == |cfg.ids| && Enabled(cfg, s, a) && (a.Mark? ==> a.i !in s.counted)
    requires |s.counted| > cfg.Limit() && |s.counted| > 0 ==> s.failed || OverLimit(cfg, s)
    ensures var s' := Apply(cfg, s, a);
      |s'.counted| > cfg.Limit() && |s'.counted| > 0 ==> s'.failed || OverLimit(cfg, s')
  {
    if a.Mark? {
      MarkOverLimit(cfg, s, a.i);
    } else if OverLimit(cfg, s) {
      StaysOverLimit(cfg, s, a);
    }
  }

  lemma BlameStep(cfg: Config, dead: set<Id>, s: Fleet, a: Action)
    requires Inv(cfg, dead, s) && Enabled(cfg, s, a)
    ensures var s' := Apply(cfg, s, a);
      s'.failed && !s'.parent ==> |HopelessSet(cfg)| > cfg.Limit()
  {
    if a.Judge? && !Cancelled(s) {
      assert TargetInv(cfg, s, a.i);
      SubsetCount(s.counted, HopelessSet(cfg));
    }
  }

  lemma SlotsStep(cfg: Config, dead: set<Id>, s: Fleet, a: Action)
    requires Inv(cfg, dead, s) && Enabled(cfg, s, a)
    ensures var s' := Apply(cfg, s, a);
      && (forall i: nat :: i in s'.holders || i in s'.counted ==> i < |cfg.ids|)
      && (if cfg.HasSemaphore() then |s'.holders| <= cfg.batchSize else s'.holders == {})
  {
    if cfg.HasSemaphore() && !a.CancelParent? && !a.Acquire? { SubsetCount(s.holders - {a.i}, s.holders); }
  }

  lemma DeadStep(cfg: Config, dead: set<Id>, s: Fleet, a: Action)
    requires s.dead == dead + IdsOf(cfg, s.counted) && Enabled(cfg, s, a)
    ensures Apply(cfg, s, a).dead == dead + IdsOf(cfg, Apply(cfg, s, a).counted)
  {
    if a.Mark? {
      assert IdsOf(cfg, s.counted + {a.i}) == IdsOf(cfg, s.counted) + {cfg.ids[a.i]};
    }
  }

  lemma CountedStep(cfg: Config, dead: set<Id>, s: Fleet, a: Action)
    requires Inv(cfg, dead, s) && Enabled(cfg, s, a)
    ensures var s' := Apply(cfg, s, a); !Cancelled(s') ==> s'.counted <= HopelessSet(cfg)
  {
    if a.Mark? { assert TargetInv(cfg, s, a.i); }
  }

  lemma InvStep(cfg: Config, dead: set<Id>, s: Fleet, a: Action)
    requires Inv(cfg, dead, s) && Enabled(cfg, s, a)
    ensures Inv(cfg, dead, Apply(cfg, s, a))
  {
    var s' := Apply(cfg, s, a);
    assert |s'.pcs| == |s'.calls| == |cfg.ids|;
    forall i: nat | i < |cfg.ids|
      ensures TargetInv(cfg, s', i)
    {
      if Mover(a, i) { MoverInv(cfg, dead, s, a, i); } else { OthersInv(cfg, dead, s, a, i); }
    }
    SlotsStep(cfg, dead, s, a);
    DeadStep(cfg, dead, s, a);
    CountedStep(cfg, dead, s, a);
    if a.Mark? { assert TargetInv(cfg, s, a.i); }
    OverLimitStep(cfg, s, a);
    BlameStep(cfg, dead, s, a);
  }

  lemma InitialInv(cfg: Config, dead: set<Id>, parent: bool)
    ensures Inv(cfg, dead, Initial(cfg, dead, parent))
  {
    assert IdsOf(cfg, {}) == {};
  }

  lemma NextInv(cfg: Config, dead: set<Id>, s: Fleet, s': Fleet)
    requires Inv(cfg, dead, s) && Next(cfg, s, s')
    ensures Inv(cfg, dead, s')
  {
    var a :| Enabled(cfg, s, a) && s' == Apply(cfg, s, a);
    InvStep(cfg, dead, s, a);
  }

  lemma RunStart(cfg: Config, dead: set<Id>, run: seq<Fleet>)
    requires IsRun(cfg, dead, run)
    ensures Inv(cfg, dead, run[0])
  {
    InitialInv(cfg, dead, false);
    InitialInv(cfg, dead, true);
  }

  lemma RunStep(cfg: Config, dead: set<Id>, run: seq<Fleet>, t: nat)
    requires IsRun(cfg, dead, run) && 0 < t < |run|
    ensures Next(cfg, run[t - 1], run[t])
  {
    assert Next(cfg, run[t - 1], run[t - 1 + 1]);
  }

  lemma RunNextInv(cfg: Config, dead: set<Id>, run: seq<Fleet>, t: nat)
    requires IsRun(cfg, dead, run) && 0 < t < |run| && Inv(cfg, dead, run[t - 1])
    ensures Inv(cfg, dead, run[t])
  {
    RunStep(cfg, dead, run, t);
    NextInv(cfg, dead, run[t - 1], run[t]);
  }

  lemma {:induction false} RunInv(cfg: Config, dead: set<Id>, run: seq<Fleet>, t: nat)
    requires IsRun(cfg, dead, run) && t < |run|
    ensures Inv(cfg, dead, run[t])
  {
    if t == 0 {
      RunStart(cfg, dead, run);
    } else {
      RunInv(cfg, dead, run, t - 1);
      RunNextInv(cfg, dead, run, t);
    }
  }

  lemma ReachableInv(cfg: Config, dead: set<Id>, s: Fleet)
    requires Reachable(cfg, dead, s)
    ensures Inv(cfg, dead, s)
  {
    var run :| IsRun(cfg, dead, run) && run[|run| - 1] == s;
    RunInv(cfg, dead, run, |run| - 1);
  }

  lemma ReachableNext(cfg: Config, dead: set<Id>, s: Fleet, a: Action)
    requires Reachable(cfg, dead, s) && Enabled(cfg, s, a)
    ensures Reachable(cfg, dead, Apply(cfg, s, a))
  {
    var run :| IsRun(cfg, dead, run) && run[|run| - 1] == s;
    var longer := run + [Apply(cfg, s, a)];
    forall t | 0 <= t < |longer| - 1
      ensures Next(cfg, longer[t], longer[t + 1])
    {
      if t < |run| - 1 { assert Next(cfg, run[t], run[t + 1]); }
    }
    assert IsRun(cfg, dead, longer);
  }

  // ---------------------------------------------------------------- the theorems

  /** Batching: in every reachable state at most BatchSize targets, if that is positive, hold a slot or
      run fn, only holders run fn, no target has been called more than Retries + 1 times, and a target
      that has returned has given its slot back. */
  lemma BatchBound(cfg: Config, dead: set<Id>, s: Fleet)
    requires Reachable(cfg, dead, s)
    ensures cfg.batchSize > 0 ==> |s.holders| <= cfg.batchSize && forall i: nat :: i < |s.pcs| && s.pcs[i].Calling? ==> i in s.holders
    ensures cfg.batchSize > 0 ==> |set i: nat | i < |s.pcs| && s.pcs[i].Calling?| <= cfg.batchSize
    ensures forall i :: 0 <= i < |s.calls| ==> s.calls[i] <= if cfg.retries < 0 then 0 else cfg.retries + 1
    ensures forall i :: 0 <= i < |s.pcs| && s.pcs[i].Done? ==> i !in s.holders
    ensures AllDone(s) ==> s.holders == {}
  {
    ReachableInv(cfg, dead, s);
    forall i | 0 <= i < |s.pcs|
      ensures s.calls[i] <= cfg.Rounds() && (s.pcs[i].Done? ==> i !in s.holders)
      ensures cfg.batchSize > 0 && s.pcs[i].Calling? ==> i in s.holders
    {
      assert TargetInv(cfg, s, i);
    }
    if cfg.batchSize > 0 { SubsetCount((set i: nat | i < |s.pcs| && s.pcs[i].Calling?), s.holders); }
  }

  /** A rolling step never runs two targets at once. */
  lemma RollingOneAtATime(cfg: Config, dead: set<Id>, s: Fleet, batchSize: int, i: nat, j: nat)
    requires Reachable(cfg, dead, s) && cfg.batchSize == BatchSizeFor(batchSize, "rolling")
    requires i < |s.pcs| && j < |s.pcs| && s.pcs[i].Calling? && s.pcs[j].Calling?
    ensures i == j
  {
    assert i != j ==> |{i, j}| == 2;
    BatchBound(cfg, dead, s);
    SubsetCount({i, j}, (set k: nat | k < |s.pcs| && s.pcs[k].Calling?));
  }

  /** The first `k` targets run fn, the others have not started. */
  ghost predicate RunningUpTo(cfg: Config, s: Fleet, k: nat) {
    && |s.pcs| == |s.calls| == |cfg.ids| && k <= |s.pcs|
    && forall i :: 0 <= i < |s.pcs| ==> s.pcs[i] == if i < k then Calling(0) else Start
  }

  lemma {:induction false} RunUpTo(cfg: Config, dead: set<Id>, k: nat) returns (s: Fleet)
    requires cfg.batchSize <= 0 && cfg.retries >= 0 && k <= |cfg.ids|
    ensures Reachable(cfg, dead, s) && RunningUpTo(cfg, s, k)
  {
    if k == 0 {
      s := Initial(cfg, dead, false);
      InitialReachable(cfg, dead, false);
    } else {
      var before := RunUpTo(cfg, dead, k - 1);
      var inside := Apply(cfg, before, Acquire(k - 1));
      ReachableNext(cfg, dead, before, Acquire(k - 1));
      s := Apply(cfg, inside, Proceed(k - 1));
      ReachableNext(cfg, dead, inside, Proceed(k - 1));
    }
  }

  /** Without a batch size all targets may run at once. */
  lemma AllAtOnce(cfg: Config, dead: set<Id>)
    requires cfg.batchSize <= 0 && cfg.retries >= 0
    ensures exists s :: Reachable(cfg, dead, s) && |s.pcs| == |cfg.ids| && forall i :: 0 <= i < |s.pcs| ==> s.pcs[i].Calling?
  {
    var s := RunUpTo(cfg, dead, |cfg.ids|);
  }

  /** How often a target is called: as often as allowed if it is counted as failed; otherwise, if it came
      back with nil, up to and including the first call that succeeds. */
  lemma CallCounts(cfg: Config, dead: set<Id>, s: Fleet, i: nat)
    requires Reachable(cfg, dead, s) && i < |s.pcs| && s.pcs[i] == Done(true) && cfg.retries >= 0
    ensures |s.calls| == |s.pcs| && (i in s.counted ==> s.calls[i] == cfg.retries + 1)
    ensures i !in s.counted ==> 0 < s.calls[i] <= cfg.retries + 1 && cfg.fn(i, s.calls[i] - 1)
    ensures i !in s.counted && !s.parent && !s.failed ==> forall n: nat :: n < s.calls[i] - 1 ==> !cfg.fn(i, n)
  {
    ReachableInv(cfg, dead, s);
    assert TargetInv(cfg, s, i);
  }

  /** Whom a goroutine leaves without a verdict: a target that it gave up waiting for, before its first
      call only behind a semaphore, and never when all attempts have been made. */
  lemma GaveUp(cfg: Config, dead: set<Id>, s: Fleet, i: nat)
    requires Reachable(cfg, dead, s) && i < |s.pcs| && s.pcs[i] == Done(false) && i !in s.counted && cfg.retries >= 0
    ensures |s.calls| == |s.pcs| && s.calls[i] <= cfg.retries && (s.calls[i] == 0 ==> cfg.batchSize > 0)
  {
    ReachableInv(cfg, dead, s);
    assert TargetInv(cfg, s, i);
  }

  // ---------------------------------------------------------------- giving up

  /** When the caller has cancelled, a target waiting for a slot may give up without being called. */
  lemma {:induction false} GivesUpWhenCancelled(cfg: Config, dead: set<Id>, i: nat) returns (s: Fleet)
    requires cfg.batchSize > 0 && i < |cfg.ids|
    ensures Reachable(cfg, dead, s) && s.parent && s.failed && |s.pcs| == |s.calls| == |cfg.ids|
    ensures s.pcs[i] == Done(false) && s.calls[i] == 0
  {
    var start := Initial(cfg, dead, true);
    InitialReachable(cfg, dead, true);
    ReachableNext(cfg, dead, start, GiveUpSlot(i));
    s := Apply(cfg, start, GiveUpSlot(i));
  }

  /** So may one that waits for its next attempt. */
  lemma {:induction false} GivesUpRetrying(cfg: Config, dead: set<Id>, i: nat) returns (s: Fleet)
    requires cfg.retries > 0 && i < |cfg.ids|
    ensures Reachable(cfg, dead, s) && s.parent && s.failed && |s.pcs| == |s.calls| == |cfg.ids|
    ensures s.pcs[i] == Done(false) && s.calls[i] == 1
  {
    s := Initial(cfg, dead, true);
    InitialReachable(cfg, dead, true);
    ReachableNext(cfg, dead, s, Acquire(i));
    s := Apply(cfg, s, Acquire(i));
    ReachableNext(cfg, dead, s, Proceed(i));
    s := Apply(cfg, s, Proceed(i));
    ReachableNext(cfg, dead, s, Answer(i, false));
    s := Apply(cfg, s, Answer(i, false));
    ReachableNext(cfg, dead, s, GiveUpDelay(i));
    s := Apply(cfg, s, GiveUpDelay(i));
  }

  /** And so may they when another target has broken the tolerance. */
  lemma {:induction false} GivesUpAfterFailure(cfg: Config, dead: set<Id>) returns (s: Fleet)
    requires |cfg.ids| == 2 && cfg.batchSize == 1 && cfg.retries == 0 && cfg.tolerance == 0.0 && !cfg.fn(0, 0)
    ensures Reachable(cfg, dead, s) && AllDone(s) && s.failed && !s.parent && |s.calls| == 2 && s.calls[1] == 0
  {
    s := Initial(cfg, dead, false);
    InitialReachable(cfg, dead, false);
    ReachableNext(cfg, dead, s, Acquire(0));
    s := Apply(cfg, s, Acquire(0));
    ReachableNext(cfg, dead, s, Proceed(0));
    s := Apply(cfg, s, Proceed(0));
    ReachableNext(cfg, dead, s, Answer(0, false));
    s := Apply(cfg, s, Answer(0, false));
    ReachableNext(cfg, dead, s, Proceed(0));
    s := Apply(cfg, s, Proceed(0));
    ReachableNext(cfg, dead, s, Mark(0));
    s := Apply(cfg, s, Mark(0));
    ReachableNext(cfg, dead, s, Judge(0));
    s := Apply(cfg, s, Judge(0));
    ReachableNext(cfg, dead, s, GiveUpSlot(1));
    s := Apply(cfg, s, GiveUpSlot(1));
  }

  // ---------------------------------------------------------------- the verdict

  /** The verdict of RunParallel in every interleaving: unless the caller cancels it returns
      nil exactly when no more targets exhaust their attempts than are tolerated, and then
      the blacklist has grown by exactly those targets. */
  lemma ToleranceVerdict(cfg: Config, dead: set<Id>, s: Fleet)
    requires Reachable(cfg, dead, s) && AllDone(s) && cfg.tolerance >= 0.0
    ensures !s.failed ==> |HopelessSet(cfg)| <= cfg.Limit() && HopelessSet(cfg) <= s.counted
    ensures !s.parent ==> (!s.failed <==> |HopelessSet(cfg)| <= cfg.Limit())
    ensures !s.parent && !s.failed ==> s.dead == dead + IdsOf(cfg, HopelessSet(cfg))
  {
    ReachableInv(cfg, dead, s);
    var bad := HopelessSet(cfg);
    if !s.failed {
      forall i: nat | i in bad
        ensures i in s.counted
      {
        assert TargetInv(cfg, s, i);
      }
      SubsetCount(bad, s.counted);
      assert !OverLimit(cfg, s);
      LimitNonNegative(cfg);
      if !s.parent { assert s.counted == bad; }
    }
  }

  lemma LimitNonNegative(cfg: Config)
    requires cfg.tolerance >= 0.0
    ensures cfg.Limit() >= 0
  {
    assert |cfg.ids| as real * cfg.tolerance >= 0.0;
  }

  /** With a fractional tolerance a nil result means that some target really succeeded: its goroutine
      came back with nil, it was not counted as failed, and its last call was one that succeeds. */
  lemma FractionMeansSomeSuccess(cfg: Config, dead: set<Id>, s: Fleet)
    requires Reachable(cfg, dead, s) && AllDone(s) && !s.failed
    requires 0.0 < cfg.tolerance < 1.0 && |cfg.ids| > 0 && cfg.retries >= 0
    ensures exists i: nat :: i < |s.pcs| && s.pcs[i] == Done(true) && i !in s.counted && LastCallWorked(cfg, s, i)
  {
    ReachableInv(cfg, dead, s);
    assert !OverLimit(cfg, s);
    FractionLeavesOne(|cfg.ids|, cfg.tolerance);
    var all := Below(|cfg.ids|);
    assert s.counted <= all && s.counted != all;
    var i: nat :| i in all && i !in s.counted;
    assert TargetInv(cfg, s, i);
  }

  ghost function Below(k: nat): (s: set<nat>)
    ensures |s| == k && forall i: nat :: i in s <==> i < k
  {
    if k == 0 then {} else Below(k - 1) + {k - 1}
  }

  // ---------------------------------------------------------------- progress

  predicate CanMove(cfg: Config, s: Fleet, i: nat) {
    && At(cfg, s, i) && !s.pcs[i].Done?
    && (s.pcs[i].Start? ==> !cfg.HasSemaphore() || |s.holders| < cfg.batchSize || Cancelled(s))
  }

  function Move(cfg: Config, s: Fleet, i: nat): Action
    requires CanMove(cfg, s, i)
  {
    match s.pcs[i]
    case Start => if cfg.HasSemaphore() && |s.holders| >= cfg.batchSize then GiveUpSlot(i) else Acquire(i)
    case Head(_) => Proceed(i)
    case Calling(n) => Answer(i, cfg.fn(i, n))
    case Exhausted => Mark(i)
    case _ => Judge(i)
  }

  /** In every reachable state somebody can move until all goroutines have returned: if
      nobody is past the semaphore, nobody holds a slot. */
  lemma SomebodyCanMove(cfg: Config, dead: set<Id>, s: Fleet) returns (i: nat)
    requires Reachable(cfg, dead, s) && !AllDone(s)
    ensures CanMove(cfg, s, i) && Enabled(cfg, s, Move(cfg, s, i))
  {
    ReachableInv(cfg, dead, s);
    if j: nat :| j < |s.pcs| && !s.pcs[j].Done? && !s.pcs[j].Start? {
      i := j;
    } else {
      i :| i < |s.pcs| && !s.pcs[i].Done?;
      if cfg.HasSemaphore() {
        forall j: nat | j < |s.pcs|
          ensures j !in s.holders
        {
          assert TargetInv(cfg, s, j);
        }
        assert s.holders == {};
      }
    }
  }

  function Left(cfg: Config, pc: Pc): nat {
    match pc
    case Start => 2 * cfg.Rounds() + 5
    case Head(n) => if n <= cfg.Rounds() then 2 * (cfg.Rounds() - n) + 4 else 0
    case Calling(n) => if n < cfg.Rounds() then 2 * (cfg.Rounds() - n) + 3 else 0
    case Exhausted => 2
    case Counted(_) => 1
    case Done(_) => 0
  }

  function LeftUpTo(cfg: Config, pcs: seq<Pc>, n: nat): nat
    requires n <= |pcs|
  {
    if n == 0 then 0 else LeftUpTo(cfg, pcs, n - 1) + Left(cfg, pcs[n - 1])
  }

  function Measure(cfg: Config, s: Fleet): nat {
    LeftUpTo(cfg, s.pcs, |s.pcs|) + if s.parent then 0 else 1
  }

  lemma {:induction false} LeftDrops(cfg: Config, pcs: seq<Pc>, i: nat, pc: Pc, n: nat)
    requires i < |pcs| && n <= |pcs| && Left(cfg, pc) < Left(cfg, pcs[i])
    ensures var pcs' := pcs[i := pc];
      if i < n then LeftUpTo(cfg, pcs', n) < LeftUpTo(cfg, pcs, n) else LeftUpTo(cfg, pcs', n) == LeftUpTo(cfg, pcs, n)
  {
    if n > 0 { LeftDrops(cfg, pcs, i, pc, n - 1); }
  }

  lemma PcDrops(cfg: Config, s: Fleet, a: Action)
    requires Enabled(cfg, s, a) && !a.CancelParent?
    requires (s.pcs[a.i].Head? ==> s.pcs[a.i].n <= cfg.Rounds()) && (s.pcs[a.i].Calling? ==> s.pcs[a.i].n < cfg.Rounds())
    ensures var s' := Apply(cfg, s, a);
      && |s'.pcs| == |s.pcs| && s'.parent == s.parent
      && s'.pcs == s.pcs[a.i := s'.pcs[a.i]] && Left(cfg, s'.pcs[a.i]) < Left(cfg, s.pcs[a.i])
  {
  }

  /** Every action uses up some of a bounded budget, so every run ends. */
  lemma EveryActionProgresses(cfg: Config, dead: set<Id>, s: Fleet, a: Action)
    requires Reachable(cfg, dead, s) && Enabled(cfg, s, a)
    ensures Measure(cfg, Apply(cfg, s, a)) < Measure(cfg, s)
  {
    ReachableInv(cfg, dead, s);
    if !a.CancelParent? {
      assert TargetInv(cfg, s, a.i);
      PcDrops(cfg, s, a);
      LeftDrops(cfg, s.pcs, a.i, Apply(cfg, s, a).pcs[a.i], |s.pcs|);
    }
  }

  /** An arbitrary scheduler's next action. */
  method PickAction(cfg: Config, ghost dead: set<Id>, s: Fleet, mayCancel: bool) returns (a: Action)
    requires Reachable(cfg, dead, s) && !AllDone(s)
    ensures Enabled(cfg, s, a) && (a.CancelParent? ==> mayCancel)
  {
    ghost var first := SomebodyCanMove(cfg, dead, s);
    var i: nat :| i < |s.pcs| && CanMove(cfg, s, i);
    var other: bool := *;
    if !other { return Move(cfg, s, i); }
    if mayCancel && !s.parent { return CancelParent; }
    if Enabled(cfg, s, GiveUpSlot(i)) { return GiveUpSlot(i); }
    if Enabled(cfg, s, GiveUpDelay(i)) { return GiveUpDelay(i); }
    if Enabled(cfg, s, Answer(i, false)) { return Answer(i, false); }
    return Move(cfg, s, i);
  }

  lemma InitialReachable(cfg: Config, dead: set<Id>, parent: bool)
    ensures Reachable(cfg, dead, Initial(cfg, dead, parent))
  {
    assert IsRun(cfg, dead, [Initial(cfg, dead, parent)]);
  }

  lemma WithIds(cfg: Config, dead: set<Id>, who: set<nat>)
    requires forall i :: i in who ==> i < |cfg.ids|
    ensures forall t :: t in dead + IdsOf(cfg, who) <==> t in dead || exists i :: i in who && cfg.ids[i] == t
  {
  }

  /** The verdict with its terms spelled out. */
  lemma VerdictSpelledOut(cfg: Config, dead: set<Id>, s: Fleet)
    requires Reachable(cfg, dead, s) && AllDone(s) && cfg.tolerance >= 0.0
    ensures var bad := HopelessSet(cfg);
      var allowed := Allowed(|cfg.ids|, cfg.tolerance);
      && (!s.failed ==> |bad| <= allowed) && (!s.parent && |bad| <= allowed ==> !s.failed)
      && (!s.parent && !s.failed ==> forall t :: t in s.dead <==> t in dead || exists i :: i in bad && cfg.ids[i] == t)
  {
    ToleranceVerdict(cfg, dead, s);
    WithIds(cfg, dead, HopelessSet(cfg));
  }

  /** RunParallel under an arbitrary scheduler.  `ok` is the nil result, `bad` the targets all of whose
      attempts fail, and `allowed` how many of them are tolerated. */
  method RunParallel(ctx: DeployContext, targets: seq<Id>, batchSize: int, retries: int, tolerance: real,
                     fn: Attempts, mayCancel: bool)
    returns (ok: bool, ghost cfg: Config, ghost bad: set<nat>, ghost allowed: int)
    requires tolerance >= 0.0
    modifies ctx
    ensures cfg == Config(Healthy(targets, old(ctx.deadTargets)), batchSize, retries, tolerance, fn)
    ensures forall i: nat :: i in bad <==> i < |cfg.ids| && retries >= 0 && forall n: nat :: n <= retries ==> !fn(i, n)
    ensures allowed == Allowed(|cfg.ids|, tolerance)
    ensures ok ==> |bad| <= allowed
    ensures !mayCancel && |bad| <= allowed ==> ok
    ensures !mayCancel && ok ==> forall t :: t in ctx.deadTargets <==> t in old(ctx.deadTargets) || exists i :: i in bad && cfg.ids[i] == t
    ensures cfg.ids == [] ==> ok
  {
    var healthy := ctx.FilterHealthy(targets);
    var config := Config(healthy, batchSize, retries, tolerance, fn);
    cfg, bad := config, HopelessSet(config);
    allowed := Allowed(|healthy|, tolerance);
    if |healthy| == 0 {
      NobodyToFail(config);
      return true, cfg, bad, allowed;
    }
    ghost var dead := ctx.deadTargets;
    var s := RunFleet(ctx, config, mayCancel);
    VerdictSpelledOut(config, dead, s);
    return !s.failed, cfg, bad, allowed;
  }

  lemma NobodyToFail(cfg: Config)
    requires cfg.ids == [] && cfg.tolerance >= 0.0
    ensures HopelessSet(cfg) == {} && cfg.Limit() >= 0
  {
    LimitNonNegative(cfg);
  }

  /** The goroutines, from their start until the last one has returned. */
  method RunFleet(ctx: DeployContext, config: Config, mayCancel: bool) returns (s: Fleet)
    modifies ctx
    ensures Reachable(config, old(ctx.deadTargets), s) && AllDone(s) && (s.parent ==> mayCancel)
    ensures ctx.deadTargets == s.dead
  {
    ghost var dead := ctx.deadTargets;
    s := Initial(config, ctx.deadTargets, false);
    InitialReachable(config, dead, false);
    while !AllDone(s)
      invariant Reachable(config, dead, s) && (s.parent ==> mayCancel)
      invariant ctx.deadTargets == s.dead
      decreases Measure(config, s)
    {
      var a := PickAction(config, dead, s, mayCancel);
      EveryActionProgresses(config, dead, s, a);
      ReachableNext(config, dead, s, a);
      if a.Mark? { ctx.MarkDead(config.ids[a.i]); }
      s := Apply(config, s, a);
    }
  }
}
