/** The component table of the portfolio plan: its admission, the ready roots that hold each
    unresolved component up, and what repairing some of them would release. */
module PortfolioGraph {
  import opened Prelude
  import opened Ordering
  import opened DependencyGraph
  import opened RootSelection

  datatype Row = Row(id: string, required: bool, standing: string, dependsOn: seq<string>)

  datatype Policy = Policy(fraction: real, target: real, maxPrs: int, doAuthority: bool)

  datatype Error =
    | FractionInvalid | TargetInvalid | MaxPrsInvalid | DoAuthorityClaimed
    | NoRequiredComponents | InvalidClosure(id: string) | DependencyCycle(id: string)
    | NoReadyComponent

  type Table = map<string, Row>

  // ----- What the planner sees in a component table -----

  function Deps(table: Table): Graph {
    map n | n in table :: table[n].dependsOn
  }

  predicate Alive(table: Table, n: string) {
    n in table && table[n].standing == "ALIVE"
  }

  function Unresolved(table: Table): set<string> {
    set n | n in table && table[n].standing != "ALIVE"
  }

  function Ready(table: Table): set<string> {
    set n | n in Unresolved(table) && forall d :: d in table[n].dependsOn ==> Alive(table, d)
  }

  /** The unresolved components with the dependencies they wait for. */
  function Pending(table: Table): Graph {
    map n | n in Unresolved(table) :: table[n].dependsOn
  }

  /** There are components, each dependency is one of them, and none depends on itself. */
  ghost predicate Admitted(table: Table) {
    var admitted :=
      && table != map[] && (forall n :: n in table ==> forall d :: d in table[n].dependsOn ==> d in table)
      && Acyclic(map n | n in table :: table[n].dependsOn);
    admitted
  }

  lemma AdmittedAsGraph(table: Table)
    ensures Deps(table) == map n | n in table :: table[n].dependsOn
    ensures Admitted(table) <==> table != map[] && Closed(Deps(table)) && Acyclic(Deps(table))
  {
    assert Deps(table) == map n | n in table :: table[n].dependsOn;
    if Closed(Deps(table)) {
      forall n, d | n in table && d in table[n].dependsOn ensures d in table { assert d in Deps(table)[n]; }
    }
  }

  /** The ready components that hold n up: those it reaches through unresolved ones. */
  ghost function BlockersOf(table: Table, n: string): set<string> {
    set r | r in Ready(table) && (r == n || DependsOn(Pending(table), n, r))
  }

  ghost function BlockerTable(table: Table): map<string, set<string>> {
    map n | n in Unresolved(table) :: BlockersOf(table, n)
  }

  lemma PendingAcyclic(table: Table)
    requires Admitted(table)
    ensures Acyclic(Pending(table))
  {
    SubgraphAcyclic(Pending(table), Deps(table));
  }

  /** An unresolved component that is not ready waits for an unresolved dependency. */
  lemma NotReadyWaits(table: Table, n: string) returns (d: string)
    requires Admitted(table) && n in Unresolved(table) && n !in Ready(table)
    ensures Edge(Pending(table), n, d)
  {
    d :| d in table[n].dependsOn && !Alive(table, d);
    assert d in Deps(table)[n];
  }

  /** The recursion the planner runs: a ready component blocks itself, any other collects
      the blockers of the unresolved dependencies it waits for. */
  lemma BlockersStep(table: Table, n: string)
    requires Admitted(table) && n in Unresolved(table)
    ensures n in Ready(table) ==> BlockersOf(table, n) == {n}
    ensures n !in Ready(table) ==> forall r :: r in BlockersOf(table, n) <==>
              exists d :: Edge(Pending(table), n, d) && r in BlockersOf(table, d)
  {
    var g := Pending(table);
    if n in Ready(table) {
      forall r | r in BlockersOf(table, n) ensures r == n {
        if r != n {
          var d := FirstStep(g, n, r);
        }
      }
    } else {
      forall r | r in BlockersOf(table, n) ensures exists d :: Edge(g, n, d) && r in BlockersOf(table, d) {
        var d := FirstStep(g, n, r);
        assert Edge(g, n, d) && r in BlockersOf(table, d);
      }
      forall r, d | Edge(g, n, d) && r in BlockersOf(table, d) ensures r in BlockersOf(table, n) {
        EdgeConnects(g, n, d);
        if r != d { DependsOnTransitive(g, n, d, r); }
      }
    }
  }

  /** Every unresolved component is held up by some ready one; in particular the graph the
      planner accepts never leaves it without a ready component. */
  lemma {:induction false} SomeBlocker(table: Table, n: string) returns (r: string)
    requires Admitted(table) && n in Unresolved(table)
    ensures r in BlockersOf(table, n)
    decreases Below(Pending(table), n)
  {
    BlockersStep(table, n);
    if n in Ready(table) {
      r := n;
    } else {
      var d := NotReadyWaits(table, n);
      PendingAcyclic(table);
      EdgeDescends(Pending(table), n, d);
      r := SomeBlocker(table, d);
    }
  }

  lemma ReadyExists(table: Table)
    requires Admitted(table) && Unresolved(table) != {}
    ensures Ready(table) != {}
  {
    var n :| n in Unresolved(table);
    var r := SomeBlocker(table, n);
    assert r in Ready(table);
  }

  // ----- Coverage is the repair cascade -----

  /** Closed under repair: the chosen roots are in it, and so is every waiting component
      all of whose unresolved dependencies are in it. */
  ghost predicate RepairClosed(table: Table, chosen: set<string>, repaired: set<string>) {
    && chosen <= repaired
    && forall n :: n in Unresolved(table) && n !in Ready(table) &&
                   (forall d :: Edge(Pending(table), n, d) ==> d in repaired)
         ==> n in repaired
  }

  lemma {:induction false} CoveredIsRepaired(table: Table, chosen: set<string>, repaired: set<string>, n: string)
    requires Admitted(table) && RepairClosed(table, chosen, repaired)
    requires n in Covered(BlockerTable(table), chosen)
    ensures n in repaired
    decreases Below(Pending(table), n)
  {
    BlockersStep(table, n);
    if n !in Ready(table) {
      forall d | Edge(Pending(table), n, d) ensures d in repaired {
        assert BlockersOf(table, d) <= BlockersOf(table, n);
        PendingAcyclic(table);
        EdgeDescends(Pending(table), n, d);
        CoveredIsRepaired(table, chosen, repaired, d);
      }
    }
  }

  /** The covered components are the least set closed under repair. */
  lemma CoveredIsRepairCascade(table: Table, chosen: set<string>)
    requires Admitted(table) && chosen <= Ready(table)
    ensures RepairClosed(table, chosen, Covered(BlockerTable(table), chosen))
    ensures forall repaired :: RepairClosed(table, chosen, repaired) ==>
        Covered(BlockerTable(table), chosen) <= repaired
  {
    var covered := Covered(BlockerTable(table), chosen);
    forall n | n in chosen ensures n in covered { BlockersStep(table, n); }
    forall n | n in Unresolved(table) && n !in Ready(table) && forall d :: Edge(Pending(table), n, d) ==> d in covered
      ensures n in covered
    {
      BlockersStep(table, n);
      forall r | r in BlockersOf(table, n) ensures r in chosen {
        var d :| Edge(Pending(table), n, d) && r in BlockersOf(table, d);
        assert d in covered;
      }
    }
    forall repaired | RepairClosed(table, chosen, repaired) ensures covered <= repaired {
      forall n | n in covered ensures n in repaired { CoveredIsRepaired(table, chosen, repaired, n); }
    }
  }

  // ----- Admission -----

  /** The required rows by identifier; of two rows with one identifier the later stays. */
  ghost function RequiredRows(rows: seq<Row>): Table {
    if rows == [] then map[]
    else
      var table := RequiredRows(rows[..|rows| - 1]);
      var last := rows[|rows| - 1];
      if last.required then table[last.id := last] else table
  }

  /** The i-th row is the last of the required ones with the identifier. */
  ghost predicate IsLast(rows: seq<Row>, n: string, i: nat) {
    && i < |rows| && rows[i].required && rows[i].id == n
    && forall j :: i < j < |rows| && rows[j].required ==> rows[j].id != n
  }

  ghost predicate LastStays(rows: seq<Row>, n: string, row: Row) {
    exists i: nat :: IsLast(rows, n, i) && rows[i] == row
  }

  lemma {:induction false} RequiredRowsById(rows: seq<Row>)
    ensures forall n :: n in RequiredRows(rows) ==> RequiredRows(rows)[n].id == n && RequiredRows(rows)[n] in rows
    ensures forall r :: r in rows && r.required ==> r.id in RequiredRows(rows)
    ensures forall n :: n in RequiredRows(rows) ==> LastStays(rows, n, RequiredRows(rows)[n])
  {
    if rows == [] {
    } else {
      var k := |rows| - 1;
      RequiredRowsById(rows[..k]);
      assert rows == rows[..k] + [rows[k]];
      forall n | n in RequiredRows(rows) ensures LastStays(rows, n, RequiredRows(rows)[n]) {
        if rows[k].required && rows[k].id == n {
          assert IsLast(rows, n, k);
        } else {
          assert n in RequiredRows(rows[..k]);
          var i: nat :| IsLast(rows[..k], n, i) && rows[..k][i] == RequiredRows(rows)[n];
          assert IsLast(rows, n, i);
        }
      }
    }
  }

  predicate PolicyAdmitted(p: Policy) {
    0.0 < p.fraction <= 1.0 && 0.0 < p.target <= 1.0 && p.maxPrs >= 1 && !p.doAuthority
  }

  method Admit(p: Policy) returns (error: Option<Error>)
    ensures error.None? <==> PolicyAdmitted(p)
    ensures error.Some? ==>
      var fractionFits, targetFits := 0.0 < p.fraction <= 1.0, 0.0 < p.target <= 1.0;
      match error.value
      case FractionInvalid => !fractionFits
      case TargetInvalid => fractionFits && !targetFits
      case MaxPrsInvalid => fractionFits && targetFits && p.maxPrs < 1
      case DoAuthorityClaimed => fractionFits && targetFits && p.maxPrs >= 1 && p.doAuthority
      case _ => false
  {
    if !(0.0 < p.fraction <= 1.0) { return Some(FractionInvalid); }
    if !(0.0 < p.target <= 1.0) { return Some(TargetInvalid); }
    if p.maxPrs < 1 { return Some(MaxPrsInvalid); }
    if p.doAuthority { return Some(DoAuthorityClaimed); }
    return None;
  }

  method BuildGraph(rows: seq<Row>) returns (r: Result<Table, Error>)
    ensures r.Ok? <==> Admitted(RequiredRows(rows))
    ensures r.Ok? ==> r.value == RequiredRows(rows)
    ensures r.Err? ==>
      var table := RequiredRows(rows);
      match r.error
      case NoRequiredComponents => table == map[]
      case InvalidClosure(n) => n in table && exists d :: d in table[n].dependsOn && d !in table
      case DependencyCycle(n) => n in table && DependsOn(map m | m in table :: table[m].dependsOn, n, n)
      case _ => false
  {
    var table: Table := map[];
    for i := 0 to |rows|
      invariant table == RequiredRows(rows[..i])
    {
      assert rows[..i + 1][..i] == rows[..i];
      if rows[i].required {
        table := table[rows[i].id := rows[i]];
      }
    }
    assert rows[..|rows|] == rows;
    if table == map[] {
      return Err(NoRequiredComponents);
    }
    AdmittedAsGraph(table);
    var dangling := DanglingDependency(Deps(table));
    if dangling.Some? {
      return Err(InvalidClosure(dangling.value));
    }
    var cycle := CheckAcyclic(Deps(table));
    if cycle.Some? {
      return Err(DependencyCycle(cycle.value));
    }
    return Ok(table);
  }

  // ----- Closure -----

  /** The dependents that the graph builder records; a component nobody names has no entry. */
  ghost predicate RecordsDependents(g: Graph, rev: map<string, set<string>>) {
    forall a, b :: Edge(g, b, a) <==> a in rev && b in rev[a]
  }

  function DependentsIn(rev: map<string, set<string>>, n: string): set<string> {
    if n in rev then rev[n] else {}
  }

  /** A component together with everything that depends on it, however indirectly. */
  method Closure(rev: map<string, set<string>>, start: string, ghost g: Graph) returns (seen: set<string>)
    requires RecordsDependents(g, rev)
    ensures forall n :: n in seen <==> n == start || DependsOn(g, n, start)
  {
    seen := {start};
    var stack := SortedIds(DependentsIn(rev, start));
    forall b | b in stack ensures DependsOn(g, b, start) { EdgeConnects(g, b, start); }
    while stack != []
      invariant start in seen && seen <= g.Keys + {start}
      invariant forall b :: b in stack ==> b in g && DependsOn(g, b, start)
      invariant forall b :: b in seen ==> b == start || DependsOn(g, b, start)
      invariant forall a, b :: a in seen && Edge(g, b, a) ==> b in seen || b in stack
      decreases g.Keys + {start} - seen, |stack|
    {
      var n := stack[|stack| - 1];
      ghost var full := stack;
      stack := stack[..|stack| - 1];
      assert full == stack + [n];
      if n in seen {
        continue;
      }
      seen := seen + {n};
      var more := SortedIds(DependentsIn(rev, n));
      forall b | b in more ensures DependsOn(g, b, start) {
        EdgeConnects(g, b, n);
        DependsOnTransitive(g, b, n, start);
      }
      stack := stack + more;
    }
    forall n | DependsOn(g, n, start) ensures n in seen {
      var p :| Connects(g, p, n, start);
      DependentsClosed(g, seen, start, p, n);
    }
  }

  // ----- Blocker sets -----

  /** The memo table of the recursive blocker computation. */
  class Relief {
    const table: Table
    var memo: map<string, set<string>>

    constructor (table: Table)
      ensures this.table == table && memo == map[]
    {
      this.table := table;
      memo := map[];
    }

    ghost predicate Valid()
      reads this
    {
      forall n :: n in memo ==> n in Unresolved(table) && memo[n] == BlockersOf(table, n)
    }

    method Blockers(n: string) returns (result: set<string>)
      requires Admitted(table) && Valid() && n in Unresolved(table)
      modifies this`memo
      ensures Valid() && result == BlockersOf(table, n) && n in memo
      decreases Below(Pending(table), n)
    {
      if n in memo {
        return memo[n];
      }
      BlockersStep(table, n);
      if n in Ready(table) {
        result := {n};
      } else {
        result := {};
        var ds := table[n].dependsOn;
        for i := 0 to |ds|
          invariant Valid()
          invariant forall r :: r in result <==>
                      exists k :: 0 <= k < i && ds[k] in Unresolved(table) && r in BlockersOf(table, ds[k])
        {
          if ds[i] in Unresolved(table) {
            PendingAcyclic(table);
            assert Edge(Pending(table), n, ds[i]);
            EdgeDescends(Pending(table), n, ds[i]);
            var more := Blockers(ds[i]);
            result := result + more;
          }
        }
        forall r ensures r in result <==> r in BlockersOf(table, n) {
          if r in result {
            var k :| 0 <= k < |ds| && ds[k] in Unresolved(table) && r in BlockersOf(table, ds[k]);
            assert Edge(Pending(table), n, ds[k]);
          }
          if r in BlockersOf(table, n) {
            var d :| Edge(Pending(table), n, d) && r in BlockersOf(table, d);
            var k :| 0 <= k < |ds| && ds[k] == d;
          }
        }
      }
      memo := memo[n := result];
    }
  }

  method BlockerSets(table: Table) returns (blockers: map<string, set<string>>)
    requires Admitted(table)
    ensures blockers == BlockerTable(table)
  {
    var relief := new Relief(table);
    blockers := map[];
    var todo := Unresolved(table);
    while todo != {}
      invariant fresh(relief) && relief.table == table && relief.Valid() && todo <= Unresolved(table)
      invariant blockers.Keys == Unresolved(table) - todo
      invariant forall n :: n in blockers ==> blockers[n] == BlockersOf(table, n)
      decreases todo
    {
      var n :| n in todo;
      var result := relief.Blockers(n);
      blockers := blockers[n := result];
      todo := todo - {n};
    }
  }
}
