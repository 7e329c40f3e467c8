/** Whole repair runs: one frontier component after another is promoted to ALIVE. Every run
    promotes the same components, however it chooses; the rest are doomed from the start. */
module RepairRun {
  import opened DependencyGraph
  import opened ReleaseManifest
  import opened RepairFrontier

  function Promote(table: Table, n: string): Table {
    if n in table then table[n := table[n].(standing := "ALIVE")] else table
  }

  /** The components that are not ALIVE, with their dependencies among themselves. */
  function Unfinished(table: Table): Graph {
    map n | n in table && table[n].standing != "ALIVE" :: table[n].dependsOn
  }

  /** Not ALIVE, and no step of a run may change that. */
  ghost predicate Dead(table: Table, n: string) {
    n in table && table[n].standing != "ALIVE" && (!table[n].required || !Repairable(table[n].standing))
  }

  /** A chain of components that are not ALIVE leads from n to a dead one. */
  ghost predicate Doomed(table: Table, n: string) {
    exists d :: Dead(table, d) && (d == n || DependsOn(Unfinished(table), n, d))
  }

  lemma DeadMeansUnsupported(table: Table, n: string)
    requires Admitted(table)
    ensures Dead(table, n) <==>
              n in table && (table[n].standing == "UNSUPPORTED" || (table[n].standing != "ALIVE" && !table[n].required))
  {
    if n in table { assert SoundRow(table[n]); }
  }

  lemma UnfinishedAcyclic(table: Table)
    requires Admitted(table)
    ensures Acyclic(Unfinished(table))
  {
    SubgraphAcyclic(Unfinished(table), Deps(table));
  }

  /** What holds a pending component up when nothing at all can be repaired: a chain that
      ends at an unsupported or a non-required component. */
  lemma {:induction false} EmptyFrontierMeansDoomed(table: Table, n: string)
    requires Admitted(table) && FrontierSet(table) == {} && n in Unfinished(table)
    ensures Doomed(table, n)
    decreases Below(Unfinished(table), n)
  {
    if !Dead(table, n) {
      var g := Unfinished(table);
      assert n in Pending(table) && n !in FrontierSet(table);
      var d :| d in Missing(table, table[n]);
      assert d in Deps(table)[n];
      assert Edge(g, n, d);
      UnfinishedAcyclic(table);
      EdgeDescends(g, n, d);
      EmptyFrontierMeansDoomed(table, d);
      var end :| Dead(table, end) && (end == d || DependsOn(g, d, end));
      EdgeConnects(g, n, d);
      if end != d { DependsOnTransitive(g, n, d, end); }
    }
  }

  // ----- One step -----

  lemma PromoteKeepsAdmitted(table: Table, n: string)
    requires Admitted(table) && n in table
    ensures Admitted(Promote(table, n))
  {
    assert Deps(Promote(table, n)) == Deps(table);
    forall m | m in Promote(table, n) ensures Promote(table, n)[m].id == m && SoundRow(Promote(table, n)[m]) {
      assert SoundRow(table[m]);
    }
  }

  lemma FrontierWaitsForNothing(table: Table, n: string)
    requires n in FrontierSet(table)
    ensures forall d :: d in table[n].dependsOn ==> Alive(table, d)
  {
    var row := table[n];
    assert Missing(table, row) == {};
    assert forall d :: d in Missing(table, row) <==> d in row.dependsOn && !Alive(table, d);
  }

  /** A frontier component has no unfinished dependency, so it lies on no chain of others. */
  lemma FrontierEndsChains(table: Table, n: string, p: seq<string>, a: string, b: string)
    requires n in FrontierSet(table) && Dead(table, b) && Connects(Unfinished(table), p, a, b)
    ensures n !in p
  {
    FrontierWaitsForNothing(table, n);
    forall i | 0 <= i < |p| ensures p[i] != n {
      if i < |p| - 1 { assert Edge(Unfinished(table), p[i], p[i + 1]); }
    }
  }

  /** Promoting a frontier component neither dooms nor saves any component. */
  lemma PromoteKeepsDoom(table: Table, n: string, m: string)
    requires n in FrontierSet(table)
    ensures Doomed(table, m) <==> Doomed(Promote(table, n), m)
  {
    var g, h := Unfinished(table), Unfinished(Promote(table, n));
    if Doomed(table, m) {
      var d :| Dead(table, d) && (d == m || DependsOn(g, m, d));
      assert Dead(Promote(table, n), d);
      if d != m {
        var p :| Connects(g, p, m, d);
        FrontierEndsChains(table, n, p, m, d);
        forall i | 0 <= i < |p| - 1 ensures Edge(h, p[i], p[i + 1]) { assert Edge(g, p[i], p[i + 1]); }
        assert Connects(h, p, m, d);
      }
    }
    if Doomed(Promote(table, n), m) {
      var d :| Dead(Promote(table, n), d) && (d == m || DependsOn(h, m, d));
      assert Dead(table, d);
      if d != m {
        var p :| Connects(h, p, m, d);
        forall i | 0 <= i < |p| - 1 ensures Edge(g, p[i], p[i + 1]) { assert Edge(h, p[i], p[i + 1]); }
        assert Connects(g, p, m, d);
      }
    }
  }

  lemma FrontierNotDoomed(table: Table, n: string)
    requires n in FrontierSet(table)
    ensures !Doomed(table, n)
  {
    forall d | Dead(table, d) ensures d != n && !DependsOn(Unfinished(table), n, d) {
      if DependsOn(Unfinished(table), n, d) {
        var p :| Connects(Unfinished(table), p, n, d);
        FrontierEndsChains(table, n, p, n, d);
      }
    }
  }

  // ----- Runs -----

  /** The table after promoting the given components in turn. */
  function Run(table: Table, steps: seq<string>): Table {
    if steps == [] then table else Promote(Run(table, steps[..|steps| - 1]), steps[|steps| - 1])
  }

  /** Each promoted component is on the frontier of the table it is promoted in. */
  ghost predicate IsRun(table: Table, steps: seq<string>) {
    steps == [] ||
    (IsRun(table, steps[..|steps| - 1]) && steps[|steps| - 1] in FrontierSet(Run(table, steps[..|steps| - 1])))
  }

  lemma {:induction false} RunKeepsAdmitted(table: Table, steps: seq<string>)
    requires Admitted(table) && IsRun(table, steps)
    ensures Admitted(Run(table, steps))
  {
    if steps == [] {
    } else {
      RunKeepsAdmitted(table, steps[..|steps| - 1]);
      PromoteKeepsAdmitted(Run(table, steps[..|steps| - 1]), steps[|steps| - 1]);
    }
  }

  lemma {:induction false} RunKeepsDoom(table: Table, steps: seq<string>, m: string)
    requires IsRun(table, steps)
    ensures Doomed(table, m) <==> Doomed(Run(table, steps), m)
  {
    if steps == [] {
    } else {
      RunKeepsDoom(table, steps[..|steps| - 1], m);
      PromoteKeepsDoom(Run(table, steps[..|steps| - 1]), steps[|steps| - 1], m);
    }
  }

  /** No ALIVE component depends on anything that is not ALIVE. */
  ghost predicate AliveClosed(table: Table) {
    forall n :: n in table && Alive(table, n) ==> Missing(table, table[n]) == {}
  }

  /** A repair never declares a component ALIVE over a dependency that is not. */
  lemma {:induction false} RunKeepsAliveClosed(table: Table, steps: seq<string>)
    requires AliveClosed(table) && IsRun(table, steps)
    ensures AliveClosed(Run(table, steps))
  {
    if steps == [] {
    } else {
      var n := steps[|steps| - 1];
      var before := Run(table, steps[..|steps| - 1]);
      RunKeepsAliveClosed(table, steps[..|steps| - 1]);
      var after := Promote(before, n);
      forall m | m in after && Alive(after, m) ensures Missing(after, after[m]) == {} {
        assert Missing(after, after[m]) <= Missing(before, before[m]);
      }
    }
  }

  function PromoteAll(table: Table, done: set<string>): Table {
    map n | n in table :: if n in done then table[n].(standing := "ALIVE") else table[n]
  }

  function Steps(steps: seq<string>): set<string> {
    set n | n in steps
  }

  lemma StepsGrow(steps: seq<string>)
    requires steps != []
    ensures Steps(steps) == Steps(steps[..|steps| - 1]) + {steps[|steps| - 1]}
  {
    assert steps == steps[..|steps| - 1] + [steps[|steps| - 1]];
  }

  /** A run promotes distinct, pending, undoomed components and changes nothing else. */
  lemma {:induction false} RunPromotesItsSteps(table: Table, steps: seq<string>)
    requires IsRun(table, steps)
    ensures Run(table, steps) == PromoteAll(table, Steps(steps))
    ensures Steps(steps) <= Pending(table) && |Steps(steps)| == |steps|
    ensures forall n :: n in steps ==> !Doomed(table, n)
  {
    if steps == [] {
    } else {
      var shorter, n := steps[..|steps| - 1], steps[|steps| - 1];
      RunPromotesItsSteps(table, shorter);
      RunKeepsDoom(table, shorter, n);
      FrontierNotDoomed(Run(table, shorter), n);
      StepsGrow(steps);
      assert n in Pending(PromoteAll(table, Steps(shorter)));
    }
  }

  lemma RunPending(table: Table, steps: seq<string>)
    requires IsRun(table, steps)
    ensures Pending(Run(table, steps)) == Pending(table) - Steps(steps)
    ensures |Pending(Run(table, steps))| == |Pending(table)| - |steps|
  {
    RunPromotesItsSteps(table, steps);
    assert Pending(PromoteAll(table, Steps(steps))) == Pending(table) - Steps(steps);
  }

  ghost function DoomedPending(table: Table): set<string> {
    set n | n in Pending(table) && Doomed(table, n)
  }

  lemma DoomedStayPending(table: Table, steps: seq<string>)
    requires IsRun(table, steps)
    ensures DoomedPending(table) <= Pending(Run(table, steps))
  {
    RunPending(table, steps);
    RunPromotesItsSteps(table, steps);
    forall n | n in DoomedPending(table) ensures n !in Steps(steps) { }
  }

  lemma StuckAreDoomed(table: Table, steps: seq<string>)
    requires Admitted(table) && IsRun(table, steps) && FrontierSet(Run(table, steps)) == {}
    ensures Pending(Run(table, steps)) <= DoomedPending(table)
  {
    var end := Run(table, steps);
    RunKeepsAdmitted(table, steps);
    RunPending(table, steps);
    forall n | n in Pending(end) ensures n in DoomedPending(table) {
      EmptyFrontierMeansDoomed(end, n);
      RunKeepsDoom(table, steps, n);
    }
  }

  /** A run that can go no further leaves exactly the doomed components pending, and has
      promoted each of the others once. */
  lemma CompleteRun(table: Table, steps: seq<string>)
    requires Admitted(table) && IsRun(table, steps) && FrontierSet(Run(table, steps)) == {}
    ensures Pending(Run(table, steps)) == DoomedPending(table)
    ensures Steps(steps) == Pending(table) - DoomedPending(table)
    ensures |steps| == |Pending(table)| - |DoomedPending(table)|
  {
    DoomedStayPending(table, steps);
    StuckAreDoomed(table, steps);
    RunPending(table, steps);
    RunPromotesItsSteps(table, steps);
  }

  /** All runs that can go no further have the same length and end in the same table: the
      order of repair does not matter. */
  lemma RunsConverge(table: Table, s: seq<string>, t: seq<string>)
    requires Admitted(table) && IsRun(table, s) && IsRun(table, t)
    requires FrontierSet(Run(table, s)) == {} && FrontierSet(Run(table, t)) == {}
    ensures |s| == |t| && Run(table, s) == Run(table, t)
  {
    CompleteRun(table, s);
    CompleteRun(table, t);
    RunPromotesItsSteps(table, s);
    RunPromotesItsSteps(table, t);
  }

  /** Short of that length a run is never stuck. */
  lemma RunNeverStuck(table: Table, steps: seq<string>)
    requires Admitted(table) && IsRun(table, steps)
    requires |steps| < |Pending(table)| - |DoomedPending(table)|
    ensures FrontierSet(Run(table, steps)) != {}
  {
    if FrontierSet(Run(table, steps)) == {} { CompleteRun(table, steps); }
  }

  /** The required part of the manifest stands on its own and nothing in it is unsupported. */
  predicate SelfContained(table: Table) {
    forall n :: n in table && table[n].required ==>
      table[n].standing != "UNSUPPORTED" && forall d :: d in table[n].dependsOn ==> d in table && table[d].required
  }

  lemma {:induction false} RequiredAlong(table: Table, p: seq<string>, a: string, b: string)
    requires SelfContained(table) && a in table && table[a].required && Connects(Unfinished(table), p, a, b)
    ensures b in table && table[b].required
    decreases |p|
  {
    assert Edge(Unfinished(table), p[0], p[1]);
    if |p| > 2 {
      forall i | 0 <= i < |p[1..]| - 1 ensures Edge(Unfinished(table), p[1..][i], p[1..][i + 1]) {
        assert Edge(Unfinished(table), p[i + 1], p[i + 2]);
      }
      RequiredAlong(table, p[1..], p[1], b);
    }
  }

  lemma NothingDoomed(table: Table)
    requires Admitted(table) && SelfContained(table)
    ensures DoomedPending(table) == {}
  {
    forall n | n in Pending(table) ensures !Doomed(table, n) {
      if d :| Dead(table, d) && (d == n || DependsOn(Unfinished(table), n, d)) {
        DeadMeansUnsupported(table, d);
        if d != n {
          var p :| Connects(Unfinished(table), p, n, d);
          RequiredAlong(table, p, n, d);
        }
      }
    }
  }

  lemma FrontierIsPending(table: Table)
    ensures FrontierSet(table) <= Pending(table)
  {
  }

  /** In a self-contained manifest nothing is doomed: every run that promotes one frontier
      component per step can continue until every required component is ALIVE, after as many
      steps as there were pending components, no more and no fewer. */
  lemma SelfContainedRunFinishes(table: Table, steps: seq<string>)
    requires Admitted(table) && SelfContained(table) && IsRun(table, steps)
    ensures DoomedPending(table) == {}
    ensures |steps| <= |Pending(table)|
    ensures |steps| < |Pending(table)| <==> FrontierSet(Run(table, steps)) != {}
    ensures |steps| == |Pending(table)| <==> Pending(Run(table, steps)) == {}
  {
    NothingDoomed(table);
    RunPending(table, steps);
    FrontierIsPending(Run(table, steps));
    if |steps| < |Pending(table)| { RunNeverStuck(table, steps); }
  }
}
