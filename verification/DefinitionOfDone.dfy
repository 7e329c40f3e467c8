/** The computed definition of done: a release is finished when its evidence says so, whatever
    standing it declares. */
module DefinitionOfDone {
  import opened Prelude
  import opened Text
  import opened ReleaseManifest
  import opened RepairFrontier

  datatype Finding =
    | ComponentNotAlive(id: string) | ExecutionReceiptMissing(id: string) | ExecutedSubjectDrift(id: string)
    | DependencyNotAlive(id: string, dep: string) | RequiredRoleNotAlive(role: string) | ReleaseStandingOverclaim

  datatype Refusal =
    | Inadmissible(code: Code) | NoRequiredComponents | RequiredRolesInvalid | ReleaseStandingInvalid

  datatype Report = Report(done: bool, promotionReady: bool, declared: string, requiredCount: nat,
                           findings: seq<Finding>)

  ghost function Required(table: Table): set<string> {
    set n | n in table && table[n].required
  }

  ghost function AliveRoles(table: Table): set<string> {
    set n | n in Required(table) && Alive(table, n) :: table[n].role
  }

  ghost predicate HasReceipt(row: Row) {
    row.executionReceipt.Some? && !AllSpace(row.executionReceipt.value)
  }

  ghost predicate ExecutedExactly(row: Row) {
    row.executedSha == Some(row.sha)
  }

  /** What it takes to be done. */
  ghost predicate Done(table: Table, roles: seq<string>) {
    && (forall n :: n in Required(table) ==>
          Alive(table, n) && HasReceipt(table[n]) && ExecutedExactly(table[n]) && Missing(table, table[n]) == {})
    && (forall role :: role in roles ==> role in AliveRoles(table))
  }

  /** The exact grounds of each finding about a component. */
  ghost predicate AppliesTo(table: Table, n: string, f: Finding)
    requires n in table
  {
    match f
    case ComponentNotAlive(id) => id == n && !Alive(table, n)
    case ExecutionReceiptMissing(id) => id == n && Alive(table, n) && !HasReceipt(table[n])
    case ExecutedSubjectDrift(id) => id == n && Alive(table, n) && !ExecutedExactly(table[n])
    case DependencyNotAlive(id, dep) => id == n && dep in Missing(table, table[n])
    case _ => false
  }

  ghost predicate Applies(table: Table, roles: seq<string>, f: Finding) {
    || (exists n :: n in Required(table) && AppliesTo(table, n, f))
    || (f.RequiredRoleNotAlive? && f.role in roles && f.role !in AliveRoles(table))
  }

  /** The findings about one required component, in the order they are recorded. */
  method Inspect(table: Table, n: string) returns (findings: seq<Finding>)
    requires n in table
    ensures forall f :: f in findings <==> AppliesTo(table, n, f)
  {
    var row := table[n];
    findings := [];
    if row.standing != "ALIVE" {
      findings := [ComponentNotAlive(n)];
    } else {
      if row.executionReceipt.Some? { BlankExactly(row.executionReceipt.value); }
      if row.executionReceipt.None? || Blank(row.executionReceipt.value) {
        findings := findings + [ExecutionReceiptMissing(n)];
      }
      if row.executedSha != Some(row.sha) {
        findings := findings + [ExecutedSubjectDrift(n)];
      }
    }
    ghost var own := findings;
    for i := 0 to |row.dependsOn|
      invariant forall f :: f in findings <==>
                  f in own || (f.DependencyNotAlive? && f.id == n && f.dep in row.dependsOn[..i] &&
                      !Alive(table, f.dep))
    {
      assert row.dependsOn[..i + 1] == row.dependsOn[..i] + [row.dependsOn[i]];
      var dep := row.dependsOn[i];
      if !(dep in table && table[dep].standing == "ALIVE") {
        findings := findings + [DependencyNotAlive(n, dep)];
      }
    }
    assert row.dependsOn[..|row.dependsOn|] == row.dependsOn;
  }

  method InspectAll(table: Table) returns (findings: seq<Finding>)
    ensures forall f :: f in findings <==> exists n :: n in Required(table) && AppliesTo(table, n, f)
  {
    findings := [];
    var todo := set n | n in table && table[n].required;
    assert todo == Required(table);
    while todo != {}
      invariant todo <= Required(table)
      invariant forall f :: f in findings <==> exists n :: n in Required(table) - todo && AppliesTo(table, n, f)
      decreases todo
    {
      var n :| n in todo;
      var more := Inspect(table, n);
      forall f
        ensures f in findings + more <==> exists m :: m in Required(table) - (todo - {n}) && AppliesTo(table, m, f)
      {
        if f in more { assert n in Required(table) - (todo - {n}) && AppliesTo(table, n, f); }
        if f in findings {
          var m :| m in Required(table) - todo && AppliesTo(table, m, f);
          assert m in Required(table) - (todo - {n});
        }
      }
      findings := findings + more;
      todo := todo - {n};
    }
  }

  method InspectRoles(table: Table, roles: seq<string>) returns (findings: seq<Finding>)
    ensures forall f :: f in findings <==>
              f.RequiredRoleNotAlive? && f.role in roles && f.role !in AliveRoles(table)
  {
    findings := [];
    var alive := set n | n in table && table[n].required && table[n].standing == "ALIVE" :: table[n].role;
    assert alive == AliveRoles(table);
    for i := 0 to |roles|
      invariant forall f :: f in findings <==> f.RequiredRoleNotAlive? && f.role in roles[..i] && f.role !in alive
    {
      assert roles[..i + 1] == roles[..i] + [roles[i]];
      if roles[i] !in alive {
        findings := findings + [RequiredRoleNotAlive(roles[i])];
      }
    }
    assert roles[..|roles|] == roles;
  }

  /** Nothing is found exactly when the release is done. */
  lemma NothingFoundMeansDone(table: Table, roles: seq<string>)
    ensures Done(table, roles) <==> forall f :: !Applies(table, roles, f)
  {
    if !Done(table, roles) {
      if n :| n in Required(table) &&
              !(Alive(table, n) && HasReceipt(table[n]) && ExecutedExactly(table[n]) && Missing(table, table[n]) == {})
      {
        if !Alive(table, n) {
          assert AppliesTo(table, n, ComponentNotAlive(n));
          assert Applies(table, roles, ComponentNotAlive(n));
        } else if !HasReceipt(table[n]) {
          assert AppliesTo(table, n, ExecutionReceiptMissing(n));
          assert Applies(table, roles, ExecutionReceiptMissing(n));
        } else if !ExecutedExactly(table[n]) {
          assert AppliesTo(table, n, ExecutedSubjectDrift(n));
          assert Applies(table, roles, ExecutedSubjectDrift(n));
        } else {
          var d :| d in Missing(table, table[n]);
          assert AppliesTo(table, n, DependencyNotAlive(n, d));
          assert Applies(table, roles, DependencyNotAlive(n, d));
        }
      } else {
        var role :| role in roles && role !in AliveRoles(table);
        assert Applies(table, roles, RequiredRoleNotAlive(role));
      }
    }
  }

  /** The report of a table whose rows have been admitted. */
  ghost predicate ReportOf(table: Table, m: Manifest, r: Report) {
    var fits :=
      && r.done == Done(table, m.requiredRoles)
      && r.promotionReady == (r.done && m.releaseStanding != "ALIVE")
      && r.declared == m.releaseStanding && r.requiredCount == |Required(table)|
      && (forall f :: f in r.findings <==>
            Applies(table, m.requiredRoles, f) ||
                (f.ReleaseStandingOverclaim? && m.releaseStanding == "ALIVE" && !r.done));
    fits
  }

  ghost predicate Reportable(table: Table, m: Manifest) {
    Required(table) != {} && "" !in m.requiredRoles && KnownStanding(m.releaseStanding)
  }

  /** The first thing that keeps a manifest from being reported on. */
  ghost predicate ReportRefused(table: Table, m: Manifest, error: Refusal) {
    var grounded :=
      if Required(table) == {} then error == NoRequiredComponents
      else if "" in m.requiredRoles then error == RequiredRolesInvalid
      else !KnownStanding(m.releaseStanding) && error == ReleaseStandingInvalid;
    grounded
  }

  method Evaluate(table: Table, m: Manifest) returns (r: Result<Report, Refusal>)
    ensures r.Ok? <==> Reportable(table, m)
    ensures r.Ok? ==> ReportOf(table, m, r.value)
    ensures r.Err? ==> ReportRefused(table, m, r.error)
  {
    var required := set n | n in table && table[n].required;
    assert required == Required(table);
    if required == {} {
      return Err(NoRequiredComponents);
    }
    if "" in m.requiredRoles {
      return Err(RequiredRolesInvalid);
    }
    var onRows := InspectAll(table);
    var onRoles := InspectRoles(table, m.requiredRoles);
    var found := onRows + onRoles;
    NothingFoundMeansDone(table, m.requiredRoles);
    assert forall f :: f in found <==> Applies(table, m.requiredRoles, f);
    assert found == [] <==> forall f :: f !in found by {
      if found != [] { assert found[0] in found; }
    }
    var hardDone := found == [];
    if m.releaseStanding !in STANDINGS {
      return Err(ReleaseStandingInvalid);
    }
    var findings := if m.releaseStanding == "ALIVE" && !hardDone then found + [ReleaseStandingOverclaim] else found;
    return Ok(Report(hardDone && findings == [], hardDone && m.releaseStanding != "ALIVE", m.releaseStanding,
                     |required|, findings));
  }
}
