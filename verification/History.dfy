/** Histories of one deployments table: deployments whose version is bumped from the latest
    row, status updates and deletions, in any mix and for any number of environments. */
module History {
  import opened Steps
  import opened Versions
  import opened Store

  /** What holds between an earlier and a later row of the table. */
  ghost predicate Ordered(a: Row, b: Row) {
    && a.id < b.id && a.startedAt <= b.startedAt
    && (a.key == b.key ==> Older(Parse(a.version), Parse(b.version)))
  }

  ghost predicate Pairwise(rows: seq<Row>) {
    forall i, j :: 0 <= i < j < |rows| ==> Ordered(rows[i], rows[j])
  }

  ghost predicate Within(v: Version, bound: int) {
    0 <= v.major <= bound && 0 <= v.minor <= bound && 0 <= v.patch <= bound
  }

  ghost predicate GoodRow(r: Row, nextId: nat, saves: nat, clock: nat) {
    && r.id < nextId && r.startedAt <= clock
    && Within(Parse(r.version), saves) && r.version == Print(Parse(r.version)) && Stripped(r.version) != ""
  }

  /** `saves` deployments have been saved so far and the clock shows `clock`. */
  ghost predicate TableInv(t: Table, saves: nat, clock: nat) {
    Pairwise(t.rows) && forall r :: r in t.rows ==> GoodRow(r, t.nextId, saves, clock)
  }

  /** The version the next deployment gets. */
  ghost predicate VersionFor(latest: Option<Row>, bump: string, version: string) {
    match latest
    case None => version == Print(FIRST)
    case Some(l) =>
      Representable(Parse(version)) && version == Print(Parse(version)) && NextVersion(Parse(l.version), bump, Parse(version))
  }

  lemma InvIdsGrow(t: Table, saves: nat, clock: nat)
    requires TableInv(t, saves, clock)
    ensures IdsGrow(t)
  {
    forall i | 0 <= i < |t.rows|
      ensures t.rows[i].id < t.nextId
    {
      assert t.rows[i] in t.rows;
    }
  }

  lemma NotBefore(rows: seq<Row>, i: nat, j: nat)
    requires Pairwise(rows) && i < |rows| && j < |rows|
    ensures i < j ==> !Later(rows[i], rows[j])
    ensures rows[i] != rows[j] && !(j < i) ==> !Later(rows[i], rows[j])
  {
    if i < j { assert Ordered(rows[i], rows[j]); }
  }

  /** The row read for the bump carries the newest version of its key. */
  lemma LatestIsNewest(rows: seq<Row>, key: Key, l: Row, r: Row)
    requires Pairwise(rows) && IsLatest(rows, key, false, Some(l))
    requires r in rows && r.key == key && r != l
    ensures Older(Parse(r.version), Parse(l.version))
  {
    var i :| 0 <= i < |rows| && rows[i] == l;
    var j :| 0 <= j < |rows| && rows[j] == r;
    assert Later(l, r);
    NotBefore(rows, i, j);
    assert Ordered(rows[j], rows[i]);
  }

  /** The bumped version is newer than every version of its key, so the unique index accepts it. */
  lemma NextIsNewest(t: Table, saves: nat, clock: nat, key: Key, latest: Option<Row>, bump: string, version: string)
    requires TableInv(t, saves, clock) && saves < MAX_INT
    requires IsLatest(t.rows, key, false, latest) && VersionFor(latest, bump, version)
    ensures Within(Parse(version), saves + 1) && version == Print(Parse(version)) && Stripped(version) != ""
    ensures forall r :: r in t.rows && r.key == key ==> Older(Parse(r.version), Parse(version))
    ensures !Taken(t.rows, key, version)
  {
    if latest.None? {
      ParsePrint(FIRST);
    } else {
      var l := latest.value;
      assert GoodRow(l, t.nextId, saves, clock);
      ParsePrint(Parse(version));
      BumpMovesForwardIff(Parse(l.version), bump, Parse(version));
      forall r | r in t.rows && r.key == key
        ensures Older(Parse(r.version), Parse(version))
      {
        if r != l { LatestIsNewest(t.rows, key, l, r); }
      }
    }
  }

  lemma InsertKeeps(t: Table, saves: nat, clock: nat, key: Key, version: string, status: string, now: nat)
    requires TableInv(t, saves, clock) && clock <= now
    requires Within(Parse(version), saves + 1) && version == Print(Parse(version)) && Stripped(version) != ""
    requires forall r :: r in t.rows && r.key == key ==> Older(Parse(r.version), Parse(version))
    ensures TableInv(Inserted(t, key, version, status, now), saves + 1, now)
  {
    var row := Row(t.nextId, key, version, status, now);
    var rows := t.rows + [row];
    forall i, j | 0 <= i < j < |rows|
      ensures Ordered(rows[i], rows[j])
    {
      assert t.rows[i] in t.rows;
      if j < |t.rows| { assert Ordered(t.rows[i], t.rows[j]); }
    }
  }

  lemma StatusKeeps(t: Table, saves: nat, clock: nat, key: Key, version: string, status: string)
    requires TableInv(t, saves, clock)
    ensures TableInv(Table(WithStatus(t.rows, key, version, status), t.nextId), saves, clock)
  {
    var rows := WithStatus(t.rows, key, version, status);
    forall i, j | 0 <= i < j < |rows|
      ensures Ordered(rows[i], rows[j])
    {
      assert Ordered(t.rows[i], t.rows[j]);
    }
    forall r | r in rows
      ensures GoodRow(r, t.nextId, saves, clock)
    {
      var i :| 0 <= i < |rows| && rows[i] == r;
      assert t.rows[i] in t.rows;
    }
  }

  lemma WithoutKeeps(rows: seq<Row>, key: Key, version: string)
    requires Pairwise(rows)
    ensures Pairwise(Without(rows, key, version))
    ensures forall r :: r in Without(rows, key, version) ==> r in rows
  {
    if rows != [] {
      var init, last := rows[..|rows| - 1], rows[|rows| - 1];
      assert Pairwise(init) by {
        forall i, j | 0 <= i < j < |init| ensures Ordered(init[i], init[j]) { assert Ordered(rows[i], rows[j]); }
      }
      WithoutKeeps(init, key, version);
      var kept := Without(init, key, version);
      forall r | r in kept
        ensures Ordered(r, last)
      {
        var i :| 0 <= i < |init| && init[i] == r;
        assert Ordered(rows[i], rows[|rows| - 1]);
      }
      forall i, j | 0 <= i < j < |kept + [last]|
        ensures Ordered((kept + [last])[i], (kept + [last])[j])
      {
        assert kept[i] in kept;
        if j < |kept| { assert Ordered(kept[i], kept[j]); }
      }
    }
  }

  lemma DeleteKeeps(t: Table, saves: nat, clock: nat, key: Key, version: string)
    requires TableInv(t, saves, clock)
    ensures TableInv(Table(Without(t.rows, key, version), t.nextId), saves, clock)
  {
    WithoutKeeps(t.rows, key, version);
  }

  // ---------------------------------------------------------------- histories

  datatype Op =
    | Deploy(key: Key, bump: string, status: string, now: nat)
    | SetStatus(key: Key, version: string, status: string)
    | Delete(key: Key, version: string)

  /** One operation; a deployment with an unknown bump, or one the unique index rejects,
      leaves the table as it is. */
  ghost predicate OpStep(t: Table, op: Op, t': Table) {
    match op
    case SetStatus(key, version, status) => t' == Table(WithStatus(t.rows, key, version, status), t.nextId)
    case Delete(key, version) => t' == Table(Without(t.rows, key, version), t.nextId)
    case Deploy(key, bump, status, now) =>
      exists latest :: IsLatest(t.rows, key, false, latest) && DeployStep(t, key, latest, bump, status, now, t')
  }

  ghost predicate DeployStep(t: Table, key: Key, latest: Option<Row>, bump: string, status: string, now: nat, t': Table) {
    if latest.Some? && !KnownBump(bump) then t' == t
    else exists version :: VersionFor(latest, bump, version) && t' == SaveStep(t, key, version, status, now)
  }

  function SaveStep(t: Table, key: Key, version: string, status: string, now: nat): Table {
    if Taken(t.rows, key, version) then t else Inserted(t, key, version, status, now)
  }

  function ClockAfter(ops: seq<Op>, n: nat): nat
    requires n <= |ops|
  {
    if n == 0 then 0 else if ops[n - 1].Deploy? then ops[n - 1].now else ClockAfter(ops, n - 1)
  }

  /** One step of the history; no deployment is saved with an earlier clock than the one before. */
  ghost predicate Follows(ops: seq<Op>, tables: seq<Table>, n: nat)
    requires n < |ops| < |tables|
  {
    OpStep(tables[n], ops[n], tables[n + 1]) && (ops[n].Deploy? ==> ClockAfter(ops, n) <= ops[n].now)
  }

  ghost predicate IsHistory(ops: seq<Op>, tables: seq<Table>) {
    && |tables| == |ops| + 1 && tables[0] == Table([], 1)
    && forall n :: 0 <= n < |ops| ==> Follows(ops, tables, n)
  }

  lemma MoreSaves(t: Table, saves: nat, clock: nat, clock': nat)
    requires TableInv(t, saves, clock) && clock <= clock'
    ensures TableInv(t, saves + 1, clock')
  {
    forall r | r in t.rows
      ensures GoodRow(r, t.nextId, saves + 1, clock')
    {
      assert GoodRow(r, t.nextId, saves, clock);
    }
  }

  lemma OpKeeps(t: Table, op: Op, t': Table, saves: nat, clock: nat)
    requires TableInv(t, saves, clock) && OpStep(t, op, t') && saves < MAX_INT
    requires op.Deploy? ==> clock <= op.now
    ensures TableInv(t', saves + 1, if op.Deploy? then op.now else clock)
  {
    match op
    case SetStatus(key, version, status) =>
      StatusKeeps(t, saves, clock, key, version, status);
      MoreSaves(t', saves, clock, clock);
    case Delete(key, version) =>
      DeleteKeeps(t, saves, clock, key, version);
      MoreSaves(t', saves, clock, clock);
    case Deploy(key, bump, status, now) =>
      MoreSaves(t, saves, clock, now);
      if t' != t {
        var latest :| IsLatest(t.rows, key, false, latest) && DeployStep(t, key, latest, bump, status, now, t');
        var version :| VersionFor(latest, bump, version) && t' == SaveStep(t, key, version, status, now);
        NextIsNewest(t, saves, clock, key, latest, bump, version);
        InsertKeeps(t, saves, clock, key, version, status, now);
      }
  }

  lemma EmptyTable(t: Table)
    requires t.rows == []
    ensures TableInv(t, 0, 0)
  {
  }

  lemma StepKeeps(ops: seq<Op>, tables: seq<Table>, n: nat)
    requires IsHistory(ops, tables) && 0 < n <= |ops| <= MAX_INT
    requires TableInv(tables[n - 1], n - 1, ClockAfter(ops, n - 1))
    ensures TableInv(tables[n], n, ClockAfter(ops, n))
  {
    var m: nat := n - 1;
    var op := ops[m];
    assert Follows(ops, tables, m);
    OpKeeps(tables[m], op, tables[m + 1], m, ClockAfter(ops, m));
  }

  lemma {:induction false} HistoryInv(ops: seq<Op>, tables: seq<Table>, n: nat)
    requires IsHistory(ops, tables) && n <= |ops| <= MAX_INT
    ensures TableInv(tables[n], n, ClockAfter(ops, n))
  {
    if n == 0 {
      EmptyTable(tables[0]);
    } else {
      HistoryInv(ops, tables, n - 1);
      StepKeeps(ops, tables, n);
    }
  }

  /** At every moment of every history the versions of one project and environment strictly
      increase in (started_at, id) order, which is insertion order. */
  lemma VersionsStrictlyIncrease(ops: seq<Op>, tables: seq<Table>, n: nat, a: Row, b: Row)
    requires IsHistory(ops, tables) && n <= |ops| <= MAX_INT
    requires a in tables[n].rows && b in tables[n].rows && a.key == b.key
    ensures Later(b, a) <==> Older(Parse(a.version), Parse(b.version))
  {
    HistoryInv(ops, tables, n);
    PairwiseOrder(tables[n].rows, a, b);
  }

  lemma PairwiseOrder(rows: seq<Row>, a: Row, b: Row)
    requires Pairwise(rows) && a in rows && b in rows && a.key == b.key
    ensures Later(b, a) <==> Older(Parse(a.version), Parse(b.version))
  {
    var i :| 0 <= i < |rows| && rows[i] == a;
    var j :| 0 <= j < |rows| && rows[j] == b;
    if i < j {
      OrderedMeans(rows[i], rows[j]);
    } else if j < i {
      OrderedMeans(rows[j], rows[i]);
    }
  }

  lemma OrderedMeans(a: Row, b: Row)
    requires Ordered(a, b) && a.key == b.key
    ensures Later(b, a) && !Later(a, b) && Older(Parse(a.version), Parse(b.version)) && !Older(Parse(b.version), Parse(a.version))
  {
  }

  /** The unique index never rejects a save, however saves, updates and deletions are mixed: every
      deployment with a known bump adds its row. */
  lemma UniqueIndexNeverRejects(ops: seq<Op>, tables: seq<Table>, n: nat)
    requires IsHistory(ops, tables) && n < |ops| <= MAX_INT
    requires ops[n].Deploy? && KnownBump(ops[n].bump)
    ensures exists version :: tables[n + 1] == Inserted(tables[n], ops[n].key, version, ops[n].status, ops[n].now)
  {
    HistoryInv(ops, tables, n);
    assert Follows(ops, tables, n);
    DeployInserts(tables[n], ops[n], tables[n + 1], n, ClockAfter(ops, n));
  }

  lemma DeployInserts(t: Table, op: Op, t': Table, saves: nat, clock: nat)
    requires TableInv(t, saves, clock) && saves < MAX_INT
    requires op.Deploy? && KnownBump(op.bump) && OpStep(t, op, t')
    ensures exists version :: t' == Inserted(t, op.key, version, op.status, op.now)
  {
    var latest :| IsLatest(t.rows, op.key, false, latest) && DeployStep(t, op.key, latest, op.bump, op.status, op.now, t');
    var version :| VersionFor(latest, op.bump, version) && t' == SaveStep(t, op.key, version, op.status, op.now);
    NextIsNewest(t, saves, clock, op.key, latest, op.bump, version);
  }

  /** Which row the next version comes from: the newest one of the key, running or not. */
  ghost predicate NextAfter(rows: seq<Row>, key: Key, bump: string, version: string) {
    if forall row :: row in rows ==> row.key != key then version == "v1.0.0"
    else exists l :: IsNewestRow(rows, key, l) && NextVersion(Parse(l.version), bump, Parse(version)) && version == Print(Parse(version))
  }

  ghost predicate IsNewestRow(rows: seq<Row>, key: Key, l: Row) {
    l in rows && l.key == key && forall row :: row in rows && row.key == key && row != l ==> Older(Parse(row.version), Parse(l.version))
  }

  lemma NextComesAfter(rows: seq<Row>, key: Key, latest: Option<Row>, bump: string, version: string)
    requires Pairwise(rows) && IsLatest(rows, key, false, latest) && VersionFor(latest, bump, version)
    ensures NextAfter(rows, key, bump, version)
  {
    if latest.None? {
      FirstPrinted();
      assert forall row :: row in rows ==> !Candidate(row, key, false);
    } else {
      var l := latest.value;
      assert IsNewestRow(rows, key, l) by {
        forall row | row in rows && row.key == key && row != l
          ensures Older(Parse(row.version), Parse(l.version))
        {
          LatestIsNewest(rows, key, l, row);
        }
      }
    }
  }

  /** Read the latest row, bump, save: on a table with such a history the save succeeds unless there is a
      version to be bumped and the bump is unknown. */
  method DeployNext(store: SqliteStore, project: int, env: string, bump: string, status: string, now: nat,
                    ghost saves: nat, ghost clock: nat)
    returns (r: Result<string, string>)
    requires TableInv(store.Contents(), saves, clock) && saves < MAX_INT && clock <= now
    modifies store
    ensures var key := Key(project, if env == "" then "default" else env);
      && (r.Err? <==> !KnownBump(bump) && exists row :: row in old(store.rows) && row.key == key)
      && (r.Ok? ==> NextAfter(old(store.rows), key, bump, r.value))
      && (r.Ok? ==> store.rows == old(store.rows) + [Row(old(store.nextId), key, r.value, status, now)])
    ensures r.Err? ==> store.Contents() == old(store.Contents())
    ensures r.Ok? ==> TableInv(store.Contents(), saves + 1, now)
  {
    var key := Key(project, EnvOrDefault(env));
    InvIdsGrow(store.Contents(), saves, clock);
    var latest := store.GetLatestDeployment(project, env, false);
    var current := if latest.Some? then latest.value.version else "";
    if latest.Some? { assert GoodRow(latest.value, store.nextId, saves, clock); }
    var bumped := BumpVersion(current, bump);
    if bumped.Err? { return bumped; }
    assert VersionFor(latest, bump, bumped.value);
    NextIsNewest(store.Contents(), saves, clock, key, latest, bump, bumped.value);
    NextComesAfter(store.rows, key, latest, bump, bumped.value);
    InsertKeeps(store.Contents(), saves, clock, key, bumped.value, status, now);
    var saved := store.SaveDeployment(project, env, bumped.value, status, now);
    return bumped;
  }
}
