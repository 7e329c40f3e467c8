/** The repair candidates of a manifest, what repairing each would unlock, and the frontier
    of those that can be acted on now. */
module RepairFrontier {
  import opened Prelude
  import opened Text
  import opened Ordering
  import opened DependencyGraph
  import opened ReleaseManifest

  // ----- What a table says about its components -----

  ghost predicate Repairable(standing: string) {
    standing in {"UNKNOWN", "PARTIAL_ALIVE", "BLOCKED", "BUILD_BROKEN"}
  }

  ghost predicate Alive(table: Table, n: string) {
    n in table && table[n].standing == "ALIVE"
  }

  /** The required components that are not ALIVE yet. */
  ghost function Pending(table: Table): set<string> {
    set n | n in table && table[n].required && table[n].standing != "ALIVE"
  }

  ghost function Missing(table: Table, row: Row): set<string> {
    set d | d in row.dependsOn && !Alive(table, d)
  }

  ghost function DirectUnlocks(table: Table, n: string): set<string> {
    set c | c in Pending(table) && Edge(Deps(table), c, n)
  }

  ghost function TransitiveUnlocks(table: Table, n: string): set<string> {
    set c | c in Pending(table) && DependsOn(Deps(table), c, n)
  }

  /** The pending components that can be repaired now. */
  ghost function FrontierSet(table: Table): set<string> {
    set n | n in Pending(table) && Repairable(table[n].standing) && Missing(table, table[n]) == {}
  }

  lemma SubsetSize<T>(a: set<T>, b: set<T>)
    requires a <= b
    ensures |a| <= |b|
  {
    assert b == a + (b - a);
  }

  /** No component unlocks itself, and the direct unlocks are among the transitive ones. */
  lemma UnlocksNested(table: Table, n: string)
    requires Admitted(table)
    ensures n !in TransitiveUnlocks(table, n)
    ensures DirectUnlocks(table, n) <= TransitiveUnlocks(table, n)
    ensures |DirectUnlocks(table, n)| <= |TransitiveUnlocks(table, n)|
  {
    forall c | c in DirectUnlocks(table, n) ensures c in TransitiveUnlocks(table, n) {
      EdgeConnects(Deps(table), c, n);
    }
    SubsetSize(DirectUnlocks(table, n), TransitiveUnlocks(table, n));
    assert n in table ==> n in Deps(table);
  }

  /** Repairing what a pending component depends on unlocks strictly more than repairing
      the component itself. */
  lemma UpstreamUnlocksMore(table: Table, a: string, b: string)
    requires Admitted(table) && a in Pending(table) && DependsOn(Deps(table), a, b)
    ensures TransitiveUnlocks(table, b) >= TransitiveUnlocks(table, a) + {a}
    ensures |TransitiveUnlocks(table, b)| >= |TransitiveUnlocks(table, a)| + 1
  {
    forall c | c in TransitiveUnlocks(table, a) ensures c in TransitiveUnlocks(table, b) {
      DependsOnTransitive(Deps(table), c, a, b);
    }
    UnlocksNested(table, a);
    SubsetSize(TransitiveUnlocks(table, a) + {a}, TransitiveUnlocks(table, b));
  }

  // ----- Candidates -----

  datatype Candidate = Candidate(row: Row, missing: set<string>, directUnlocks: nat, transitiveUnlocks: nat,
                                 reversibility: nat, evidenceCost: nat, authorityCost: nat)
  {
    predicate Actionable() {
      row.standing in REPAIRABLE && missing == {}
    }
  }

  function EvidenceCost(standing: string): nat {
    match standing
    case "BUILD_BROKEN" => 1
    case "PARTIAL_ALIVE" => 2
    case "UNKNOWN" => 3
    case "BLOCKED" => 4
    case _ => 9
  }

  function AuthorityCost(blocker: Option<string>): nat {
    if blocker.None? then 0
    else
      var text := Upper(blocker.value);
      if Contains(text, "AUTHORITY") || Contains(text, "BILLING") || Contains(text, "SPENDING")
         || Contains(text, "CREDENTIAL")
      then 5 else 0
  }

  function Reversibility(standing: string): nat {
    if standing in {"BUILD_BROKEN", "PARTIAL_ALIVE"} then 3
    else if standing == "UNKNOWN" then 2
    else 1
  }

  /** What repairing a component of a standing costs: how reversible it is, and how much
      evidence it takes. */
  ghost predicate CostsRead(standing: string, reversibility: nat, evidenceCost: nat) {
    if standing == "BUILD_BROKEN" then reversibility == 3 && evidenceCost == 1
    else if standing == "PARTIAL_ALIVE" then reversibility == 3 && evidenceCost == 2
    else if standing == "UNKNOWN" then reversibility == 2 && evidenceCost == 3
    else if standing == "BLOCKED" then reversibility == 1 && evidenceCost == 4
    else reversibility == 1 && evidenceCost == 9
  }

  /** The blocker speaks of authority or money, in whatever case. */
  ghost predicate NeedsAuthority(blocker: Option<string>) {
    blocker.Some? &&
    exists word :: word in {"AUTHORITY", "BILLING", "SPENDING", "CREDENTIAL"} && ContainsInAnyCase(blocker.value, word)
  }

  lemma CostsExactly(standing: string)
    ensures CostsRead(standing, Reversibility(standing), EvidenceCost(standing))
  {
  }

  lemma AuthorityCostExactly(blocker: Option<string>)
    ensures AuthorityCost(blocker) == if NeedsAuthority(blocker) then 5 else 0
  {
    if blocker.Some? {
      forall word | word in {"AUTHORITY", "BILLING", "SPENDING", "CREDENTIAL"}
        ensures Contains(Upper(blocker.value), word) <==> ContainsInAnyCase(blocker.value, word)
      {
        UpperContainsExactly(blocker.value, word);
      }
    }
  }

  /** The candidate of a component: what it waits for, what repairing it unlocks, what it costs. */
  ghost predicate CandidateFor(table: Table, n: string, c: Candidate) {
    match c
    case Candidate(row, missing, directUnlocks, transitiveUnlocks, reversibility, evidenceCost, authorityCost) =>
      && n in table && row == table[n] && missing == Missing(table, row)
      && directUnlocks == |DirectUnlocks(table, n)| && transitiveUnlocks == |TransitiveUnlocks(table, n)|
      && CostsRead(row.standing, reversibility, evidenceCost)
      && authorityCost == if NeedsAuthority(row.blocker) then 5 else 0
  }

  ghost function IdsOf(cs: seq<Candidate>): seq<string> {
    seq(|cs|, i requires 0 <= i < |cs| => cs[i].row.id)
  }

  /** One candidate for each pending component, in the order of their identifiers. */
  ghost predicate CandidatesOf(table: Table, cs: seq<Candidate>) {
    Lists(IdsOf(cs), Pending(table)) && forall i :: 0 <= i < |cs| ==> CandidateFor(table, IdsOf(cs)[i], cs[i])
  }

  method CandidateOf(table: Table, n: string, reverse: map<string, set<string>>) returns (c: Candidate)
    requires n in table && reverse.Keys == Deps(table).Keys
    requires forall a, b :: a in reverse ==> (b in reverse[a] <==> Edge(Deps(table), b, a))
    ensures CandidateFor(table, n, c)
  {
    var row := table[n];
    var missing := set d | d in row.dependsOn && !(d in table && table[d].standing == "ALIVE");
    var pending := set m | m in table && table[m].required && table[m].standing != "ALIVE";
    assert missing == Missing(table, row) && pending == Pending(table);
    var desc := Descendants(n, reverse, Deps(table));
    var direct := set child | child in reverse[n] && child in pending;
    var transitive := set child | child in desc && child in pending;
    assert direct == DirectUnlocks(table, n);
    assert transitive == TransitiveUnlocks(table, n);
    CostsExactly(row.standing);
    AuthorityCostExactly(row.blocker);
    c := Candidate(row, missing, |direct|, |transitive|, Reversibility(row.standing),
                   EvidenceCost(row.standing), AuthorityCost(row.blocker));
  }

  method CandidatesFor(table: Table, ids: seq<string>, reverse: map<string, set<string>>) returns (cs: seq<Candidate>)
    requires forall n :: n in ids ==> n in table
    requires reverse.Keys == Deps(table).Keys
    requires forall a, b :: a in reverse ==> (b in reverse[a] <==> Edge(Deps(table), b, a))
    ensures |cs| == |ids| && forall i :: 0 <= i < |cs| ==> CandidateFor(table, ids[i], cs[i])
  {
    cs := [];
    for i := 0 to |ids|
      invariant |cs| == i && forall k :: 0 <= k < i ==> CandidateFor(table, ids[k], cs[k])
    {
      var c := CandidateOf(table, ids[i], reverse);
      cs := cs + [c];
    }
  }

  method Candidates(table: Table) returns (cs: seq<Candidate>)
    requires Admitted(table)
    ensures CandidatesOf(table, cs)
  {
    var graph := map n | n in table :: table[n].dependsOn;
    var pending := set n | n in table && table[n].required && table[n].standing != "ALIVE";
    assert graph == Deps(table) && pending == Pending(table);
    var reverse := ReverseEdges(graph);
    var ids := SortedIds(pending);
    cs := CandidatesFor(table, ids, reverse);
    assert forall i :: 0 <= i < |cs| ==> CandidateFor(table, ids[i], cs[i]);
    assert IdsOf(cs) == ids;
  }

  // ----- The frontier -----

  /** The relief score, greatest first: transitive unlocks, direct unlocks, reversibility,
      low cost, and the identifier to tell the rest apart. */
  predicate RanksAhead(a: Candidate, b: Candidate) {
    var ahead :=
      if a.transitiveUnlocks != b.transitiveUnlocks then a.transitiveUnlocks > b.transitiveUnlocks
      else if a.directUnlocks != b.directUnlocks then a.directUnlocks > b.directUnlocks
      else if a.reversibility != b.reversibility then a.reversibility > b.reversibility
      else if a.evidenceCost + a.authorityCost != b.evidenceCost + b.authorityCost then
        a.evidenceCost + a.authorityCost < b.evidenceCost + b.authorityCost
      else Before(b.row.id, a.row.id);
    ahead
  }

  lemma RanksAheadIsStrict()
    ensures StrictOrder(RanksAhead)
    ensures forall a, b :: RanksAhead(a, b) || a.row.id == b.row.id || RanksAhead(b, a)
  {
    forall a ensures !RanksAhead(a, a) { LexIrreflexive(CharBefore, a.row.id); }
    forall a, b, c | RanksAhead(a, b) && RanksAhead(b, c) ensures RanksAhead(a, c) {
      if Before(b.row.id, a.row.id) && Before(c.row.id, b.row.id) {
        LexTransitive(CharBefore, c.row.id, b.row.id, a.row.id);
      }
    }
    forall a, b ensures RanksAhead(a, b) || a.row.id == b.row.id || RanksAhead(b, a) {
      LexTotal(CharBefore, a.row.id, b.row.id);
    }
  }

  function Actionables(cs: seq<Candidate>): (r: seq<Candidate>)
    ensures forall c :: c in r <==> c in cs && c.Actionable()
  {
    if cs == [] then []
    else
      assert cs == cs[..|cs| - 1] + [cs[|cs| - 1]];
      Actionables(cs[..|cs| - 1]) + if cs[|cs| - 1].Actionable() then [cs[|cs| - 1]] else []
  }

  ghost predicate DistinctCandidates(cs: seq<Candidate>) {
    forall i, j :: 0 <= i < j < |cs| ==> cs[i].row.id != cs[j].row.id
  }

  lemma {:induction false} ActionablesDistinct(cs: seq<Candidate>)
    requires DistinctCandidates(cs)
    ensures DistinctCandidates(Actionables(cs))
  {
    if cs == [] {
    } else {
      var k := |cs| - 1;
      ActionablesDistinct(cs[..k]);
      forall c | c in Actionables(cs[..k]) ensures c.row.id != cs[k].row.id {
        var i :| 0 <= i < k && cs[..k][i] == c;
      }
    }
  }

  ghost predicate CanRepair(c: Candidate) {
    Repairable(c.row.standing) && c.missing == {}
  }

  /** a comes before b on the frontier: it unlocks more in all, or as much and more at once, or
      the same and is more reversible, or that too and costs less; and what agrees in all this
      comes in descending order of identifiers. */
  ghost predicate Ahead(a: Candidate, b: Candidate) {
    var costA, costB := a.evidenceCost + a.authorityCost, b.evidenceCost + b.authorityCost;
    var even := a.transitiveUnlocks == b.transitiveUnlocks && a.directUnlocks == b.directUnlocks;
    var ahead :=
      || a.transitiveUnlocks > b.transitiveUnlocks
      || (a.transitiveUnlocks == b.transitiveUnlocks && a.directUnlocks > b.directUnlocks)
      || (even && a.reversibility > b.reversibility)
      || (even && a.reversibility == b.reversibility && costA < costB)
      || (even && a.reversibility == b.reversibility && costA == costB && Before(b.row.id, a.row.id));
    ahead
  }

  ghost predicate InRankOrder(cs: seq<Candidate>) {
    forall i, j :: 0 <= i < j < |cs| ==> Ahead(cs[i], cs[j])
  }

  lemma AheadExactly(a: Candidate, b: Candidate)
    ensures RanksAhead(a, b) <==> Ahead(a, b)
  {
  }

  /** The frontier lists exactly the components that can be repaired now, each ahead of all
      that follow it. */
  ghost predicate FrontierOf(table: Table, fs: seq<Candidate>) {
    var listed :=
      && InRankOrder(fs)
      && (forall c :: c in fs ==> c.row.id in FrontierSet(table) && CandidateFor(table, c.row.id, c) && CanRepair(c))
      && (forall n :: n in FrontierSet(table) ==> exists c :: c in fs && c.row.id == n);
    listed
  }

  lemma CandidateStands(table: Table, n: string, c: Candidate)
    requires Admitted(table) && n in Pending(table) && CandidateFor(table, n, c)
    ensures c.row.id == n && (c.Actionable() <==> n in FrontierSet(table)) && (c.Actionable() <==> CanRepair(c))
  {
  }

  /** Each candidate listed is that of its identifier, and can be acted on or not as the
      component can. */
  ghost predicate Stands(table: Table, cs: seq<Candidate>, ids: seq<string>) {
    |ids| == |cs| && Lists(ids, Pending(table)) &&
    forall i :: 0 <= i < |cs| ==> cs[i].row.id == ids[i] && (cs[i].Actionable() <==> ids[i] in FrontierSet(table))
  }

  lemma CandidatesStand(table: Table, cs: seq<Candidate>)
    requires Admitted(table) && CandidatesOf(table, cs)
    ensures Stands(table, cs, IdsOf(cs))
    ensures forall c :: c in cs ==>
              c.row.id in Pending(table) && CandidateFor(table, c.row.id, c) && (c.Actionable() <==> CanRepair(c))
  {
    var ids := IdsOf(cs);
    forall i | 0 <= i < |cs|
      ensures cs[i].row.id == ids[i] && ids[i] in Pending(table) && CandidateFor(table, ids[i], cs[i])
      ensures (cs[i].Actionable() <==> ids[i] in FrontierSet(table)) && (cs[i].Actionable() <==> CanRepair(cs[i]))
    {
      assert ids[i] in ids;
      CandidateStands(table, ids[i], cs[i]);
    }
  }

  lemma FrontierContents(table: Table, cs: seq<Candidate>, ids: seq<string>)
    requires Stands(table, cs, ids)
    ensures DistinctCandidates(cs)
    ensures forall c :: c in cs ==> (c.Actionable() <==> c.row.id in FrontierSet(table))
    ensures forall n :: n in FrontierSet(table) ==> exists c :: c in cs && c.Actionable() && c.row.id == n
  {
    forall i, j | 0 <= i < j < |cs| ensures cs[i].row.id != cs[j].row.id {
      assert Before(ids[i], ids[j]);
      LexIrreflexive(CharBefore, ids[i]);
    }
    forall n | n in FrontierSet(table) ensures exists c :: c in cs && c.Actionable() && c.row.id == n {
      assert n in ids;
      var i :| 0 <= i < |ids| && ids[i] == n;
      assert cs[i] in cs && cs[i].Actionable() && cs[i].row.id == n;
    }
  }

  function Waiting(cs: seq<Candidate>): (r: seq<Candidate>)
    ensures forall c :: c in r <==> c in cs && !c.Actionable()
  {
    if cs == [] then []
    else
      assert cs == cs[..|cs| - 1] + [cs[|cs| - 1]];
      Waiting(cs[..|cs| - 1]) + if cs[|cs| - 1].Actionable() then [] else [cs[|cs| - 1]]
  }

  ghost predicate InIdOrder(cs: seq<Candidate>) {
    forall i, j :: 0 <= i < j < |cs| ==> Before(cs[i].row.id, cs[j].row.id)
  }

  lemma {:induction false} WaitingInOrder(cs: seq<Candidate>)
    requires InIdOrder(cs)
    ensures InIdOrder(Waiting(cs))
  {
    if cs == [] {
    } else {
      var k := |cs| - 1;
      WaitingInOrder(cs[..k]);
      forall c | c in Waiting(cs[..k]) ensures Before(c.row.id, cs[k].row.id) {
        var i :| 0 <= i < k && cs[..k][i] == c;
      }
    }
  }

  /** The candidates that cannot be acted on now are kept, not dropped, in the order of
      their identifiers. */
  ghost predicate BlockedOf(table: Table, bs: seq<Candidate>) {
    var listed :=
      && InIdOrder(bs)
      && (forall c :: c in bs ==> c.row.id in Pending(table) - FrontierSet(table) && CandidateFor(table, c.row.id, c))
      && (forall n :: n in Pending(table) - FrontierSet(table) ==> exists c :: c in bs && c.row.id == n);
    listed
  }

  lemma BlockedContents(table: Table, cs: seq<Candidate>, ids: seq<string>)
    requires Stands(table, cs, ids)
    ensures InIdOrder(Waiting(cs))
    ensures forall n :: n in Pending(table) - FrontierSet(table) ==> exists c :: c in Waiting(cs) && c.row.id == n
  {
    forall i, j | 0 <= i < j < |cs| ensures Before(cs[i].row.id, cs[j].row.id) { assert Before(ids[i], ids[j]); }
    WaitingInOrder(cs);
    forall n | n in Pending(table) - FrontierSet(table) ensures exists c :: c in Waiting(cs) && c.row.id == n {
      assert n in ids;
      var i :| 0 <= i < |ids| && ids[i] == n;
      assert cs[i] in cs && !cs[i].Actionable() && cs[i].row.id == n;
    }
  }

  lemma RankOrderExactly(cs: seq<Candidate>)
    ensures StrictlySorted(RanksAhead, cs) <==> InRankOrder(cs)
  {
    forall i, j | 0 <= i < j < |cs| ensures RanksAhead(cs[i], cs[j]) <==> Ahead(cs[i], cs[j]) {
      AheadExactly(cs[i], cs[j]);
    }
  }

  lemma SortedFrontier(able: seq<Candidate>)
    requires DistinctCandidates(able)
    ensures InRankOrder(SortBy(RanksAhead, able))
    ensures forall c :: c in SortBy(RanksAhead, able) <==> c in able
  {
    RanksAheadIsStrict();
    assert Comparable(RanksAhead, able);
    SortBySorts(RanksAhead, able);
    RankOrderExactly(SortBy(RanksAhead, able));
  }

  /** Every pending component is preserved, actionable or blocked, before any is selected. */
  method Preserve(table: Table) returns (actionable: seq<Candidate>, blocked: seq<Candidate>)
    requires Admitted(table)
    ensures FrontierOf(table, actionable) && BlockedOf(table, blocked)
  {
    var cs := Candidates(table);
    CandidatesStand(table, cs);
    FrontierContents(table, cs, IdsOf(cs));
    BlockedContents(table, cs, IdsOf(cs));
    var able := Actionables(cs);
    ActionablesDistinct(cs);
    SortedFrontier(able);
    actionable := SortBy(RanksAhead, able);
    blocked := Waiting(cs);
  }

  lemma FrontierEmpty(table: Table, fs: seq<Candidate>)
    requires FrontierOf(table, fs)
    ensures fs == [] <==> FrontierSet(table) == {}
  {
    if fs != [] { assert fs[0] in fs; }
    if n :| n in FrontierSet(table) { var c :| c in fs && c.row.id == n; }
  }

  /** Of two components of which one depends on the other, however indirectly, the one
      depended on ranks ahead. */
  lemma UpstreamRanksAhead(table: Table, a: Candidate, b: Candidate)
    requires Admitted(table) && CandidateFor(table, a.row.id, a) && CandidateFor(table, b.row.id, b)
    requires a.row.id in Pending(table) && DependsOn(Deps(table), a.row.id, b.row.id)
    ensures Ahead(b, a)
  {
    UpstreamUnlocksMore(table, a.row.id, b.row.id);
  }
}
