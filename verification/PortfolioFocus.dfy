/** The 80/20 portfolio focus: which dependency-ready components, within a budget, relieve
    the most unresolved work, and in which order to raise them. */
module PortfolioFocus {
  import opened Ordering
  import opened Prelude
  import opened DependencyGraph
  import opened PortfolioGraph
  import opened RootSelection

  function Ceiling(x: real): int {
    -((-x).Floor)
  }

  function Budget(size: nat, fraction: real): (b: int)
    ensures b >= 1
  {
    var c := Ceiling(size as real * fraction);
    if c >= 1 then c else 1
  }

  /** The budget is the fraction of the table rounded up, and never exceeds the table. */
  lemma BudgetRoundsUp(size: nat, fraction: real)
    requires size >= 1 && 0.0 < fraction <= 1.0
    ensures Budget(size, fraction) <= size
    ensures (Budget(size, fraction) - 1) as real < size as real * fraction <= Budget(size, fraction) as real
  {
    FractionShrinks(size as real, fraction);
  }

  lemma FractionShrinks(size: real, fraction: real)
    requires size >= 1.0 && 0.0 < fraction <= 1.0
    ensures 0.0 < size * fraction <= size
  {
    assert size * (1.0 - fraction) >= 0.0;
  }

  predicate TargetMet(covered: nat, unresolved: nat, target: real) {
    covered as real >= target * unresolved as real
  }

  datatype Focus = Focus(required: nat, unresolved: nat, budget: nat, selected: seq<Pick>,
                         covered: set<string>, uncovered: set<string>, targetMet: bool)

  /** The picks of a focus raise some optimal selection of ready roots within the budget. */
  ghost predicate PicksOptimal(table: Table, f: Focus) {
    exists best :: Raised(BlockerTable(table), Ready(table), f.budget, f.selected, f.covered, best)
  }

  /** What a finished focus says about the component table it was computed from. */
  ghost predicate FocusOf(table: Table, p: Policy, f: Focus) {
    var fits :=
      && f.required == |table| && f.unresolved == |Unresolved(table)| && f.budget == Budget(|table|, p.fraction)
      && PicksOptimal(table, f)
      && f.uncovered == Unresolved(table) - f.covered
      && (f.targetMet <==> TargetMet(|f.covered|, |Unresolved(table)|, p.target));
    fits
  }

  lemma NothingUnresolved(table: Table, p: Policy, f: Focus)
    requires Unresolved(table) == {} && PolicyAdmitted(p)
    requires f == Focus(|table|, 0, Budget(|table|, p.fraction), [], {}, {}, true)
    ensures FocusOf(table, p, f)
  {
    assert Ready(table) == {} && Elements([]) == {};
    assert Covered(BlockerTable(table), {}) == {};
    forall c | SortedTuple(Ready(table), |c|, c) ensures c == [] { TupleFits(Ready(table), c); }
    NothingRaised(BlockerTable(table), {});
    assert Raised(BlockerTable(table), Ready(table), f.budget, [], {}, []);
  }

  lemma NobodyUnblocked(table: Table)
    requires Admitted(table)
    ensures forall n :: n in BlockerTable(table) ==> BlockerTable(table)[n] != {}
  {
    forall n | n in Unresolved(table) ensures BlockersOf(table, n) != {} { var b := SomeBlocker(table, n); }
  }

  method SelectFocus(table: Table, p: Policy, ready: set<string>) returns (f: Focus)
    requires Admitted(table) && PolicyAdmitted(p) && ready == Ready(table)
    ensures FocusOf(table, p, f)
  {
    var unresolved := Unresolved(table);
    var budget := Budget(|table|, p.fraction);
    var blockers := BlockerSets(table);
    NobodyUnblocked(table);
    var picks, covered, best := Raise(blockers, ready, budget);
    f := Focus(|table|, |unresolved|, budget, picks, covered, unresolved - covered,
               TargetMet(|covered|, |unresolved|, p.target));
  }

  // ----- What a focus says, read off the component table alone -----

  ghost predicate Open(table: Table, n: string) {
    n in table && table[n].standing != "ALIVE"
  }

  /** An open component whose dependencies are all ALIVE: work on it can start. */
  ghost predicate CanStart(table: Table, r: string) {
    Open(table, r) && forall d :: d in table[r].dependsOn ==> d in table && table[d].standing == "ALIVE"
  }

  ghost function OpenGraph(table: Table): Graph {
    map n | n in table && Open(table, n) :: table[n].dependsOn
  }

  ghost predicate WaitsFor(table: Table, n: string, r: string) {
    Open(table, n) && (n == r || DependsOn(OpenGraph(table), n, r))
  }

  ghost function HeldUpBy(table: Table, r: string): set<string> {
    set n | n in table && WaitsFor(table, n, r)
  }

  /** The open components that wait for nothing that can start but what is chosen. */
  ghost function Released(table: Table, chosen: seq<string>): set<string> {
    set n | n in table && Open(table, n) && forall r :: CanStart(table, r) && WaitsFor(table, n, r) ==> r in chosen
  }

  /** What a further root releases after the others. */
  ghost function Gain(table: Table, chosen: seq<string>, r: string): set<string> {
    Released(table, chosen + [r]) - Released(table, chosen)
  }

  ghost predicate GainsMore(table: Table, chosen: seq<string>, a: string, b: string) {
    var ga, gb := |Gain(table, chosen, a)|, |Gain(table, chosen, b)|;
    ga > gb || (ga == gb && Before(a, b))
  }

  /** One pick: its root can start, holds up as many as the potential relief says, releases
      the marginal components after the picks before it, and no later pick would gain more. */
  ghost predicate PickReads(table: Table, picks: seq<Pick>, i: nat)
    requires i < |picks|
  {
    var earlier, root := Order(picks)[..i], picks[i].component;
    var reading :=
      && CanStart(table, root) && picks[i].potentialRelief == |HeldUpBy(table, root)|
      && picks[i].marginal == Gain(table, earlier, root)
      && forall j :: i < j < |picks| ==> GainsMore(table, earlier, root, picks[j].component);
    reading
  }

  ghost predicate ReleasesMore(table: Table, a: seq<string>, b: seq<string>) {
    var ra, rb := |Released(table, a)|, |Released(table, b)|;
    ra > rb || (ra == rb && (|a| < |b| || (|a| == |b| && TupleBefore(b, a))))
  }

  /** Some listing of the picks releases more than any other listing of roots that can start. */
  ghost predicate NoneReleasesMore(table: Table, budget: nat, picks: seq<Pick>) {
    exists best :: Lists(best, Elements(Order(picks))) && |best| == |picks| <= budget &&
      forall c :: StrictlySorted(Before, c) && |c| <= budget && (forall r :: r in c ==> CanStart(table, r)) ==>
        c == best || ReleasesMore(table, best, c)
  }

  /** The budget of a focus is a fraction of the table rounded up, and the target is met
      when the covered share of the open components reaches it. */
  ghost predicate NumbersRead(f: Focus, size: nat, open: nat, fraction: real, target: real) {
    match f
    case Focus(required, unresolved, budget, _, covered, _, targetMet) =>
      && required == size && unresolved == open
      && budget >= 1 && (budget - 1) as real < size as real * fraction <= budget as real
      && (targetMet <==> |covered| as real >= target * open as real)
  }

  ghost predicate FocusReads(table: Table, p: Policy, f: Focus) {
    var open := set n | n in table && Open(table, n);
    var reading :=
      && NumbersRead(f, |table|, |open|, p.fraction, p.target)
      && f.uncovered == open - f.covered && NoneReleasesMore(table, f.budget, f.selected)
      && (forall i :: 0 <= i < |f.selected| ==> PickReads(table, f.selected, i))
      && f.covered == Released(table, Order(f.selected));
    reading
  }

  lemma SameTable(table: Table)
    ensures Unresolved(table) == set n | n in table && Open(table, n)
    ensures Pending(table) == OpenGraph(table)
    ensures forall r :: r in Ready(table) <==> CanStart(table, r)
  {
  }

  lemma PotentialIsHeldUp(table: Table, r: string)
    requires CanStart(table, r)
    ensures Potential(BlockerTable(table), r) == HeldUpBy(table, r)
  {
    SameTable(table);
  }

  lemma CoveredIsReleased(table: Table, chosen: seq<string>)
    ensures Covered(BlockerTable(table), Elements(chosen)) == Released(table, chosen)
  {
    SameTable(table);
    forall n | n in Unresolved(table)
      ensures BlockersOf(table, n) <= Elements(chosen) <==>
                forall r :: CanStart(table, r) && WaitsFor(table, n, r) ==> r in chosen
    {
      forall r ensures r in BlockersOf(table, n) <==> CanStart(table, r) && WaitsFor(table, n, r) { }
    }
  }

  lemma MarginalIsGain(table: Table, chosen: seq<string>, r: string)
    ensures Marginal(BlockerTable(table), Elements(chosen), r) == Gain(table, chosen, r)
  {
    ElementsStep(chosen, r);
    CoveredIsReleased(table, chosen);
    CoveredIsReleased(table, chosen + [r]);
  }

  lemma PickReadsOff(table: Table, picks: seq<Pick>, best: set<string>, i: nat)
    requires i < |picks| && best <= Ready(table)
    requires RaisedSoFar(BlockerTable(table), best, Progress(best, picks))
    ensures PickReads(table, picks, i)
  {
    var order := Order(picks);
    SameTable(table);
    PotentialIsHeldUp(table, order[i]);
    MarginalIsGain(table, order[..i], order[i]);
    forall j | i < j < |picks| ensures GainsMore(table, order[..i], order[i], picks[j].component) {
      MarginalIsGain(table, order[..i], order[j]);
      LaterRemains(BlockerTable(table), best, order, i, j);
    }
  }

  /** In a greedy order a later root was still there when an earlier one was raised. */
  lemma LaterRemains(blockers: map<string, set<string>>, best: set<string>, order: seq<string>, i: nat, j: nat)
    requires GreedyOrder(blockers, best, order) && i < j < |order|
    ensures order[j] in best - Elements(order[..i]) && order[j] != order[i]
  {
    assert order[j] in best - Elements(order[..j]);
    forall k | 0 <= k <= i ensures order[k] in Elements(order[..j]) { assert order[..j][k] == order[k]; }
    forall x | x in Elements(order[..i]) ensures x in Elements(order[..j]) { }
  }

  lemma OptimalIsUnmatched(table: Table, f: Focus, best: seq<string>)
    requires Raised(BlockerTable(table), Ready(table), f.budget, f.selected, f.covered, best)
    ensures NoneReleasesMore(table, f.budget, f.selected)
  {
    var blockers := BlockerTable(table);
    SameTable(table);
    BeforeIsStrictTotal();
    SortedCardinality(Before, best);
    assert Lists(best, Elements(Order(f.selected)));
    forall c | StrictlySorted(Before, c) && |c| <= f.budget && forall r :: r in c ==> CanStart(table, r)
      ensures c == best || ReleasesMore(table, best, c)
    {
      assert SortedTuple(Ready(table), |c|, c);
      assert Unbeaten(blockers, best, c);
      CoveredIsReleased(table, best);
      CoveredIsReleased(table, c);
    }
  }

  lemma PicksReadOff(table: Table, f: Focus, best: seq<string>)
    requires Raised(BlockerTable(table), Ready(table), f.budget, f.selected, f.covered, best)
    ensures forall i :: 0 <= i < |f.selected| ==> PickReads(table, f.selected, i)
    ensures f.covered == Released(table, Order(f.selected))
  {
    assert Elements(best) == Elements(Order(f.selected));
    CoveredIsReleased(table, Order(f.selected));
    assert Elements(best) <= Ready(table);
    forall i | 0 <= i < |f.selected| ensures PickReads(table, f.selected, i) {
      PickReadsOff(table, f.selected, Elements(best), i);
    }
  }

  lemma NumbersReadOff(f: Focus, size: nat, open: nat, fraction: real, target: real)
    requires size >= 1 && 0.0 < fraction <= 1.0
    requires f.required == size && f.unresolved == open && f.budget == Budget(size, fraction)
    requires f.targetMet <==> TargetMet(|f.covered|, open, target)
    ensures NumbersRead(f, size, open, fraction, target)
  {
    BudgetRoundsUp(size, fraction);
  }

  /** What the search and the greedy order leave is what the table says of it. */
  lemma FocusReadsOff(table: Table, p: Policy, f: Focus)
    requires table != map[] && PolicyAdmitted(p) && FocusOf(table, p, f)
    ensures FocusReads(table, p, f)
  {
    var best :| Raised(BlockerTable(table), Ready(table), f.budget, f.selected, f.covered, best);
    OptimalIsUnmatched(table, f, best);
    PicksReadOff(table, f, best);
    SameTable(table);
    NumbersReadOff(f, |table|, |Unresolved(table)|, p.fraction, p.target);
  }

  /** The focus is refused for an unfit policy or graph and for nothing else: the refusal
      for want of a ready component cannot be reached. */
  method ComputeFocus(rows: seq<Row>, p: Policy) returns (r: Result<Focus, Error>)
    ensures r.Ok? <==> PolicyAdmitted(p) && Admitted(RequiredRows(rows))
    ensures r.Ok? ==> FocusOf(RequiredRows(rows), p, r.value) && FocusReads(RequiredRows(rows), p, r.value)
    ensures r.Err? ==> r.error != NoReadyComponent
  {
    var refused := Admit(p);
    if refused.Some? {
      return Err(refused.value);
    }
    var built := BuildGraph(rows);
    if built.Err? {
      return Err(built.error);
    }
    var table := built.value;
    if Unresolved(table) == {} {
      var f := Focus(|table|, 0, Budget(|table|, p.fraction), [], {}, {}, true);
      NothingUnresolved(table, p, f);
      FocusReadsOff(table, p, f);
      return Ok(f);
    }
    var ready := Ready(table);
    ReadyExists(table);
    if ready == {} {
      return Err(NoReadyComponent);
    }
    var f := SelectFocus(table, p, ready);
    FocusReadsOff(table, p, f);
    return Ok(f);
  }

  ghost predicate LeastRepair(table: Table, chosen: set<string>, repaired: set<string>) {
    && RepairClosed(table, chosen, repaired)
    && forall s :: RepairClosed(table, chosen, s) ==> repaired <= s
  }

  /** The point of the focus: every pick has all its dependencies ALIVE, the covered set is
      what repairing the picks releases, and no other choice of ready roots within the budget
      releases more, or as much with fewer roots. */
  lemma FocusReleasesMost(table: Table, p: Policy, f: Focus, chosen: set<string>, repaired: set<string>)
    requires Admitted(table) && FocusOf(table, p, f)
    requires chosen <= Ready(table) && |chosen| <= f.budget && LeastRepair(table, chosen, repaired)
    ensures forall i :: 0 <= i < |f.selected| ==> f.selected[i].component in Ready(table)
    ensures |f.selected| <= f.budget && LeastRepair(table, Elements(Order(f.selected)), f.covered)
    ensures |repaired| < |f.covered| || (|repaired| == |f.covered| && |f.selected| <= |chosen|)
  {
    var best :| Raised(BlockerTable(table), Ready(table), f.budget, f.selected, f.covered, best);
    forall i | 0 <= i < |f.selected| ensures f.selected[i].component in Ready(table) {
      assert Order(f.selected)[i] in Elements(best);
    }
    CoveredIsRepairCascade(table, Elements(best));
    CoveredIsRepairCascade(table, chosen);
    assert repaired == Covered(BlockerTable(table), chosen);
    var c := HasListing(chosen);
    assert Elements(c) == chosen;
    assert SortedTuple(Ready(table), |c|, c);
    assert Unbeaten(BlockerTable(table), best, c);
  }
}
