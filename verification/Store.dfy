/** internal/store/store.go: the deployments table. */
module Store {
  import opened Steps

  datatype Key = Key(project: int, env: string)

  datatype Row = Row(id: nat, key: Key, version: string, status: string, startedAt: nat)

  /** The rows in insertion order, and the next AUTOINCREMENT id. */
  datatype Table = Table(rows: seq<Row>, nextId: nat)

  datatype SaveError = UniqueViolation

  function EnvOrDefault(env: string): string { if env == "" then "default" else env }

  predicate Matches(r: Row, key: Key, version: string) { r.key == key && r.version == version }

  predicate Taken(rows: seq<Row>, key: Key, version: string) {
    exists i :: 0 <= i < |rows| && Matches(rows[i], key, version)
  }

  // ---------------------------------------------------------------- statements on the table

  function Inserted(t: Table, key: Key, version: string, status: string, now: nat): Table {
    Table(t.rows + [Row(t.nextId, key, version, status, now)], t.nextId + 1)
  }

  function WithStatus(rows: seq<Row>, key: Key, version: string, status: string): (r: seq<Row>)
    ensures |r| == |rows|
    ensures forall i :: 0 <= i < |r| ==> r[i] == if Matches(rows[i], key, version) then rows[i].(status := status) else rows[i]
  {
    seq(|rows|, i requires 0 <= i < |rows| => if Matches(rows[i], key, version) then rows[i].(status := status) else rows[i])
  }

  function Without(rows: seq<Row>, key: Key, version: string): seq<Row> {
    if rows == [] then []
    else
      var last := rows[|rows| - 1];
      Without(rows[..|rows| - 1], key, version) + if Matches(last, key, version) then [] else [last]
  }

  /** `ORDER BY started_at DESC, id DESC`. */
  predicate Later(a: Row, b: Row) {
    a.startedAt > b.startedAt || (a.startedAt == b.startedAt && a.id > b.id)
  }

  predicate Candidate(r: Row, key: Key, excludeRunning: bool) {
    r.key == key && (excludeRunning ==> r.status != "RUNNING")
  }

  /** The first row of the sorted result, if any. */
  ghost predicate IsLatest(rows: seq<Row>, key: Key, excludeRunning: bool, latest: Option<Row>) {
    match latest
    case None => forall r :: r in rows ==> !Candidate(r, key, excludeRunning)
    case Some(l) =>
      && l in rows && Candidate(l, key, excludeRunning)
      && forall r :: r in rows && Candidate(r, key, excludeRunning) && r != l ==> Later(l, r)
  }

  /** Ids grow with insertion and stay below the next one. */
  ghost predicate IdsGrow(t: Table) {
    && (forall i, j :: 0 <= i < j < |t.rows| ==> t.rows[i].id < t.rows[j].id)
    && forall i :: 0 <= i < |t.rows| ==> t.rows[i].id < t.nextId
  }

  /** `DELETE ... WHERE`, and whether rows were affected. */
  method DeleteFrom(rows: seq<Row>, key: Key, version: string) returns (kept: seq<Row>, found: bool)
    ensures kept == Without(rows, key, version)
    ensures found <==> Taken(rows, key, version)
  {
    kept, found := [], false;
    for i := 0 to |rows|
      invariant kept == Without(rows[..i], key, version)
      invariant found == Taken(rows[..i], key, version)
    {
      assert rows[..i + 1][..i] == rows[..i];
      TakenSnoc(rows, i, key, version);
      if Matches(rows[i], key, version) { found := true; } else { kept := kept + [rows[i]]; }
    }
    assert rows[..|rows|] == rows;
  }

  class SqliteStore {
    var rows: seq<Row>
    var nextId: nat

    ghost function Contents(): Table
      reads this
    {
      Table(rows, nextId)
    }

    constructor ()
      ensures Contents() == Table([], 1)
    {
      rows, nextId := [], 1;
    }

    /** The unique index on (project, environment, version) decides. */
    method SaveDeployment(project: int, env: string, version: string, status: string, now: nat)
      returns (r: Result<(), SaveError>)
      modifies this
      ensures var key := Key(project, if env == "" then "default" else env);
        && (r.Err? <==> exists k :: 0 <= k < |old(rows)| && old(rows)[k].key == key && old(rows)[k].version == version)
        && (r.Ok? ==> rows == old(rows) + [Row(old(nextId), key, version, status, now)] && nextId == old(nextId) + 1)
      ensures r.Err? ==> Contents() == old(Contents())
    {
      var key := Key(project, EnvOrDefault(env));
      if Taken(rows, key, version) { return Err(UniqueViolation); }
      rows := rows + [Row(nextId, key, version, status, now)];
      nextId := nextId + 1;
      return Ok(());
    }

    /** Sets the status of the matching row; no match is not an error. */
    method UpdateDeploymentStatus(project: int, env: string, version: string, status: string)
      modifies this
      ensures Contents() == Table(WithStatus(old(rows), Key(project, EnvOrDefault(env)), version, status), old(nextId))
      ensures var key := Key(project, if env == "" then "default" else env);
        && |rows| == |old(rows)|
        && forall k :: 0 <= k < |rows| ==>
             rows[k] == if old(rows)[k].key == key && old(rows)[k].version == version then old(rows)[k].(status := status) else old(rows)[k]
    {
      var key := Key(project, EnvOrDefault(env));
      ghost var before := rows;
      var i := 0;
      while i < |rows|
        invariant 0 <= i <= |rows| == |before| && nextId == old(nextId)
        invariant rows[..i] == WithStatus(before, key, version, status)[..i]
        invariant rows[i..] == before[i..]
      {
        assert rows[i] == before[i];
        if Matches(rows[i], key, version) {
          rows := rows[i := rows[i].(status := status)];
        }
        i := i + 1;
      }
    }

    /** Removes the matching rows; reports an error when there are none. */
    method DeleteDeployment(project: int, env: string, version: string) returns (found: bool)
      modifies this
      ensures Contents() == Table(Without(old(rows), Key(project, EnvOrDefault(env)), version), old(nextId))
      ensures var key := Key(project, if env == "" then "default" else env);
        && (found <==> exists k :: 0 <= k < |old(rows)| && old(rows)[k].key == key && old(rows)[k].version == version)
        && forall row :: multiset(rows)[row] == if row.key == key && row.version == version then 0 else multiset(old(rows))[row]
    {
      var key := Key(project, EnvOrDefault(env));
      WithoutCounts(rows, key, version);
      rows, found := DeleteFrom(rows, key, version);
    }

    /** The row that sorts first by start time and then id, both descending. */
    method GetLatestDeployment(project: int, env: string, excludeRunning: bool) returns (latest: Option<Row>)
      requires IdsGrow(Contents())
      ensures IsLatest(rows, Key(project, EnvOrDefault(env)), excludeRunning, latest)
      ensures var key := Key(project, if env == "" then "default" else env);
        && (latest.Some? ==> latest.value in rows && latest.value.key == key && (excludeRunning ==> latest.value.status != "RUNNING"))
        && forall row :: row in rows && row.key == key && (excludeRunning ==> row.status != "RUNNING") ==>
             && latest.Some?
             && (row.startedAt < latest.value.startedAt || (row.startedAt == latest.value.startedAt && row.id <= latest.value.id))
    {
      var key := Key(project, EnvOrDefault(env));
      latest := None;
      for i := 0 to |rows|
        invariant IsLatest(rows[..i], key, excludeRunning, latest)
      {
        assert rows[..i + 1] == rows[..i] + [rows[i]];
        assert forall r :: r in rows[..i] ==> r.id < rows[i].id;
        if Candidate(rows[i], key, excludeRunning) && (latest.None? || Later(rows[i], latest.value)) {
          latest := Some(rows[i]);
        }
      }
      assert rows[..|rows|] == rows;
    }
  }

  lemma {:induction false} WithoutCount(rows: seq<Row>, key: Key, version: string, row: Row)
    ensures multiset(Without(rows, key, version))[row] == if Matches(row, key, version) then 0 else multiset(rows)[row]
  {
    if rows != [] {
      var init, last := rows[..|rows| - 1], rows[|rows| - 1];
      WithoutCount(init, key, version, row);
      assert rows == init + [last];
    }
  }

  lemma WithoutCounts(rows: seq<Row>, key: Key, version: string)
    ensures forall row ::
      multiset(Without(rows, key, version))[row] == if row.key == key && row.version == version then 0 else multiset(rows)[row]
  {
    forall row {
      WithoutCount(rows, key, version, row);
    }
  }

  lemma TakenSnoc(rows: seq<Row>, i: nat, key: Key, version: string)
    requires i < |rows|
    ensures Taken(rows[..i + 1], key, version) <==> Taken(rows[..i], key, version) || Matches(rows[i], key, version)
  {
    if Taken(rows[..i + 1], key, version) {
      var k :| 0 <= k < i + 1 && Matches(rows[..i + 1][k], key, version);
      if k < i { assert Matches(rows[..i][k], key, version); }
    }
    if Taken(rows[..i], key, version) {
      var k :| 0 <= k < i && Matches(rows[..i][k], key, version);
      assert Matches(rows[..i + 1][k], key, version);
    }
    if Matches(rows[i], key, version) { assert Matches(rows[..i + 1][i], key, version); }
  }
}
