/** The release manifest: its components, and the admission every planner step repeats. */
module ReleaseManifest {
  import opened Prelude
  import opened Text
  import opened DependencyGraph

  datatype Row = Row(id: string, repository: string, ref: string, sha: string, role: string,
                     standing: string, blocker: Option<string>, required: bool, dependsOn: seq<string>,
                     executionReceipt: Option<string>, executedSha: Option<string>)

  datatype Manifest = Manifest(components: seq<Row>, requiredRoles: seq<string>, releaseStanding: string)

  const STANDINGS: set<string> :=
    {"UNKNOWN", "PARTIAL_ALIVE", "ALIVE", "BLOCKED", "BUILD_BROKEN", "UNSUPPORTED"}

  const REPAIRABLE: set<string> := {"UNKNOWN", "PARTIAL_ALIVE", "BLOCKED", "BUILD_BROKEN"}

  datatype Code =
    | ManifestEmpty | ComponentIdInvalid | DuplicateComponent(id: string) | StandingInvalid(id: string)
    | ShaInvalid(id: string) | RepositoryInvalid(id: string) | RefInvalid(id: string) | RoleInvalid(id: string)
    | DependencyNotAdmitted(id: string) | DependencyCycle(id: string)

  type Table = map<string, Row>

  ghost function Deps(table: Table): Graph {
    map n | n in table :: table[n].dependsOn
  }

  /** What a single row must satisfy; the first failing check names the refusal. */
  function RowDefect(row: Row): Option<Code> {
    if row.id == "" then Some(ComponentIdInvalid)
    else if row.standing !in STANDINGS then Some(StandingInvalid(row.id))
    else if !IsSha40(row.sha) then Some(ShaInvalid(row.id))
    else if '/' !in row.repository then Some(RepositoryInvalid(row.id))
    else if row.ref == "" then Some(RefInvalid(row.id))
    else if row.role == "" then Some(RoleInvalid(row.id))
    else None
  }

  ghost predicate KnownStanding(standing: string) {
    standing in {"UNKNOWN", "PARTIAL_ALIVE", "ALIVE", "BLOCKED", "BUILD_BROKEN", "UNSUPPORTED"}
  }

  /** The checks on a single row, on its fields. */
  ghost predicate SoundRow(row: Row) {
    match row
    case Row(id, repository, ref, sha, role, standing, _, _, _, _, _) =>
      && id != "" && KnownStanding(standing)
      && IsSha40(sha) && '/' in repository && ref != "" && role != ""
  }

  /** The first check that the row fails. */
  ghost predicate UnsoundFor(row: Row, error: Code) {
    var known := KnownStanding(row.standing);
    match error
    case ComponentIdInvalid => row.id == ""
    case StandingInvalid(id) => id == row.id != "" && !known
    case ShaInvalid(id) => id == row.id != "" && known && !IsSha40(row.sha)
    case RepositoryInvalid(id) => id == row.id != "" && known && IsSha40(row.sha) && '/' !in row.repository
    case RefInvalid(id) =>
      id == row.id != "" && known && IsSha40(row.sha) && '/' in row.repository && row.ref == ""
    case RoleInvalid(id) =>
      id == row.id != "" && known && IsSha40(row.sha) && '/' in row.repository && row.ref != "" && row.role == ""
    case _ => false
  }

  lemma RowDefectExactly(row: Row)
    ensures RowDefect(row).None? <==> SoundRow(row)
    ensures RowDefect(row).Some? ==> UnsoundFor(row, RowDefect(row).value)
  {
  }

  ghost predicate DistinctIds(rows: seq<Row>) {
    forall i, j :: 0 <= i < j < |rows| ==> rows[i].id != rows[j].id
  }

  /** The rows by identifier. */
  ghost function TableOf(rows: seq<Row>): Table {
    if rows == [] then map[]
    else TableOf(rows[..|rows| - 1])[rows[|rows| - 1].id := rows[|rows| - 1]]
  }

  lemma {:induction false} TableIndexesRows(rows: seq<Row>)
    requires DistinctIds(rows)
    ensures forall i :: 0 <= i < |rows| ==> rows[i].id in TableOf(rows) && TableOf(rows)[rows[i].id] == rows[i]
    ensures forall n :: n in TableOf(rows) ==> exists i :: 0 <= i < |rows| && rows[i].id == n
  {
    if rows == [] {
    } else {
      var k := |rows| - 1;
      TableIndexesRows(rows[..k]);
      forall n | n in TableOf(rows) ensures exists i :: 0 <= i < |rows| && rows[i].id == n {
        if n != rows[k].id {
          var i :| 0 <= i < k && rows[..k][i].id == n;
          assert rows[i].id == n;
        }
      }
      forall i | 0 <= i < |rows| ensures rows[i].id in TableOf(rows) && TableOf(rows)[rows[i].id] == rows[i] {
        if i < k { assert rows[..k][i] == rows[i]; }
      }
    }
  }

  /** A table as it stands after admission: identifiers agree, standings are known,
      dependencies stay inside and never run in a circle. */
  ghost predicate Admitted(table: Table) {
    var admitted :=
      && (forall n :: n in table ==> table[n].id == n && SoundRow(table[n]))
      && Closed(Deps(table)) && Acyclic(Deps(table));
    admitted
  }

  ghost predicate SoundRows(rows: seq<Row>) {
    DistinctIds(rows) && forall i :: 0 <= i < |rows| ==> SoundRow(rows[i])
  }

  /** What the manifest must be for every planner step to accept it. */
  ghost predicate Admissible(rows: seq<Row>) {
    var admissible :=
      rows != [] && SoundRows(rows) && Closed(Deps(TableOf(rows))) && Acyclic(Deps(TableOf(rows)));
    admissible
  }

  lemma AdmissibleIsAdmitted(rows: seq<Row>)
    requires Admissible(rows)
    ensures Admitted(TableOf(rows))
  {
    TableIndexesRows(rows);
    forall n | n in TableOf(rows) ensures TableOf(rows)[n].id == n && SoundRow(TableOf(rows)[n]) {
      var i :| 0 <= i < |rows| && rows[i].id == n;
    }
  }

  lemma RepeatedId(rows: seq<Row>, i: nat)
    requires i < |rows| && DistinctIds(rows[..i])
    ensures rows[i].id in TableOf(rows[..i]) <==> exists k :: 0 <= k < i && rows[k].id == rows[i].id
  {
    TableIndexesRows(rows[..i]);
    if k :| 0 <= k < i && rows[k].id == rows[i].id { assert rows[..i][k].id == rows[i].id; }
    if rows[i].id in TableOf(rows[..i]) {
      var k :| 0 <= k < i && rows[..i][k].id == rows[i].id;
      assert rows[k].id == rows[i].id;
    }
  }

  /** The first row that cannot be admitted, and why: its identifier is taken, or one of the
      checks on the row itself fails. */
  ghost predicate RowRefused(rows: seq<Row>, i: nat, error: Code) {
    i < |rows| && SoundRows(rows[..i]) &&
    if rows[i].id != "" && exists k :: 0 <= k < i && rows[k].id == rows[i].id
    then error == DuplicateComponent(rows[i].id)
    else UnsoundFor(rows[i], error)
  }

  lemma SoundOneMore(rows: seq<Row>, i: nat)
    requires i < |rows| && SoundRows(rows[..i]) && SoundRow(rows[i])
    requires forall k :: 0 <= k < i ==> rows[k].id != rows[i].id
    ensures SoundRows(rows[..i + 1])
  {
    assert rows[..i + 1] == rows[..i] + [rows[i]];
    forall k | 0 <= k < i ensures rows[..i][k].id != rows[i].id { assert rows[..i][k] == rows[k]; }
  }

  /** The rows are checked one by one, in order. */
  method IndexRows(rows: seq<Row>) returns (r: Result<Table, Code>)
    ensures r.Ok? <==> SoundRows(rows)
    ensures r.Ok? ==> r.value == TableOf(rows)
    ensures r.Err? ==> exists i: nat :: RowRefused(rows, i, r.error)
  {
    var table: Table := map[];
    for i := 0 to |rows|
      invariant table == TableOf(rows[..i]) && SoundRows(rows[..i])
    {
      RepeatedId(rows, i);
      if rows[i].id != "" && rows[i].id in table {
        assert RowRefused(rows, i, DuplicateComponent(rows[i].id));
        return Err(DuplicateComponent(rows[i].id));
      }
      var defect := RowDefect(rows[i]);
      RowDefectExactly(rows[i]);
      if defect.Some? {
        assert RowRefused(rows, i, defect.value);
        return Err(defect.value);
      }
      assert rows[..i + 1][..i] == rows[..i];
      SoundOneMore(rows, i);
      table := table[rows[i].id := rows[i]];
    }
    assert rows[..|rows|] == rows;
    return Ok(table);
  }

  /** The true ground of each refusal of a manifest. */
  ghost predicate RowsRefused(rows: seq<Row>, error: Code) {
    var grounded :=
      if rows == [] then error == ManifestEmpty
      else if SoundRows(rows) then GraphRefused(TableOf(rows), error)
      else exists i: nat :: RowRefused(rows, i, error);
    grounded
  }

  ghost predicate GraphRefused(table: Table, error: Code) {
    match error
    case DependencyNotAdmitted(n) => n in table && exists d :: d in table[n].dependsOn && d !in table
    case DependencyCycle(n) => n in table && Closed(Deps(table)) && DependsOn(Deps(table), n, n)
    case _ => false
  }

  method Components(rows: seq<Row>) returns (r: Result<Table, Code>)
    ensures r.Ok? <==> Admissible(rows)
    ensures r.Ok? ==> r.value == TableOf(rows) && Admitted(r.value)
    ensures r.Err? ==> RowsRefused(rows, r.error)
  {
    if rows == [] {
      return Err(ManifestEmpty);
    }
    var table :- IndexRows(rows);
    var graph := map n | n in table :: table[n].dependsOn;
    assert graph == Deps(table);
    var dangling := DanglingDependency(graph);
    if dangling.Some? {
      return Err(DependencyNotAdmitted(dangling.value));
    }
    var cycle := CheckAcyclic(graph);
    if cycle.Some? {
      return Err(DependencyCycle(cycle.value));
    }
    AdmissibleIsAdmitted(rows);
    return Ok(table);
  }
}
