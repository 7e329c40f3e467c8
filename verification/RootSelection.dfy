/** Choosing among ready roots: the exhaustive search over their combinations, and the
    order in which a chosen set is raised. Blockers are given as a table from each
    unresolved component to the ready roots that hold it up. */
module RootSelection {
  import opened Ordering

  /** The components all of whose blockers are chosen. */
  function Covered(blockers: map<string, set<string>>, chosen: set<string>): set<string> {
    set n | n in blockers && blockers[n] <= chosen
  }

  // ----- The search over combinations of ready roots -----

  function PrependAll<T>(x: T, tails: seq<seq<T>>): seq<seq<T>> {
    seq(|tails|, i requires 0 <= i < |tails| => [x] + tails[i])
  }

  /** The k-element subsequences of a pool, in the order itertools.combinations yields them. */
  function Combinations<T>(pool: seq<T>, k: nat): seq<seq<T>> {
    if k == 0 then [[]]
    else if pool == [] then []
    else PrependAll(pool[0], Combinations(pool[1..], k - 1)) + Combinations(pool[1..], k)
  }

  function Elements(s: seq<string>): set<string> {
    set x | x in s
  }

  /** A k-tuple of roots in increasing order: how a set of k roots is written. */
  ghost predicate SortedTuple(roots: set<string>, k: nat, c: seq<string>) {
    |c| == k && StrictlySorted(Before, c) && forall x :: x in c ==> x in roots
  }

  lemma PrependedTuple(pool: seq<string>, k: nat, tail: seq<string>)
    requires pool != [] && StrictlySorted(Before, pool) && SortedTuple(Elements(pool[1..]), k, tail)
    ensures SortedTuple(Elements(pool), k + 1, [pool[0]] + tail)
  {
    forall j | 0 <= j < |tail| ensures Before(pool[0], tail[j]) && tail[j] in pool {
      assert tail[j] in tail;
      var m :| 0 <= m < |pool[1..]| && pool[1..][m] == tail[j];
      assert pool[m + 1] == tail[j];
    }
  }

  lemma {:induction false} CombinationsSound(pool: seq<string>, k: nat, c: seq<string>)
    requires StrictlySorted(Before, pool) && c in Combinations(pool, k)
    ensures SortedTuple(Elements(pool), k, c)
  {
    if k > 0 && pool != [] {
      var tails := Combinations(pool[1..], k - 1);
      var heads := PrependAll(pool[0], tails);
      if c in heads {
        var i :| 0 <= i < |heads| && heads[i] == c;
        CombinationsSound(pool[1..], k - 1, tails[i]);
        PrependedTuple(pool, k - 1, tails[i]);
      } else {
        CombinationsSound(pool[1..], k, c);
      }
    }
  }

  lemma {:induction false} CombinationsComplete(pool: seq<string>, k: nat, c: seq<string>)
    requires StrictlySorted(Before, pool) && SortedTuple(Elements(pool), k, c)
    ensures c in Combinations(pool, k)
  {
    if k > 0 && c[0] in c && pool != [] {
      TailAvoidsHead(pool, c);
      if c[0] == pool[0] {
        var tails := Combinations(pool[1..], k - 1);
        CombinationsComplete(pool[1..], k - 1, c[1..]);
        var i :| 0 <= i < |tails| && tails[i] == c[1..];
        assert c == [pool[0]] + c[1..];
        assert PrependAll(pool[0], tails)[i] == c;
      } else {
        CombinationsComplete(pool[1..], k, c);
      }
    }
  }

  lemma TailAvoidsHead(pool: seq<string>, c: seq<string>)
    requires pool != [] && c != [] && StrictlySorted(Before, pool) && StrictlySorted(Before, c)
    requires forall x :: x in c ==> x in pool
    ensures forall x :: x in c[1..] ==> x in pool[1..]
    ensures c[0] != pool[0] ==> forall x :: x in c ==> x in pool[1..]
  {
    forall i | 0 <= i < |c| && (i > 0 || c[0] != pool[0]) ensures c[i] in pool[1..] {
      assert c[i] in c;
      var k :| 0 <= k < |pool| && pool[k] == c[i];
      if k == 0 {
        assert c[0] in c;
        var j :| 0 <= j < |pool| && pool[j] == c[0];
        LexIrreflexive(CharBefore, c[0]);
        if j > 0 { LexTransitive(CharBefore, pool[0], pool[j], pool[0]); LexIrreflexive(CharBefore, pool[0]); }
      } else {
        assert pool[1..][k - 1] == c[i];
      }
    }
  }

  /** The score of a selection: more covered, then fewer roots, then the greater id tuple. */
  predicate Outscores(ca: nat, a: seq<string>, cb: nat, b: seq<string>) {
    ca > cb || (ca == cb && (|a| < |b| || (|a| == |b| && TupleBefore(b, a))))
  }

  predicate Beats(blockers: map<string, set<string>>, a: seq<string>, b: seq<string>) {
    Outscores(|Covered(blockers, Elements(a))|, a, |Covered(blockers, Elements(b))|, b)
  }

  lemma OutscoresTransitive(ca: nat, a: seq<string>, cb: nat, b: seq<string>, cc: nat, c: seq<string>)
    requires Outscores(ca, a, cb, b) && Outscores(cb, b, cc, c)
    ensures Outscores(ca, a, cc, c)
  {
    if |a| == |b| == |c| && TupleBefore(c, b) && TupleBefore(b, a) {
      BeforeIsStrictTotal();
      LexTransitive(Before, c, b, a);
    }
  }

  lemma OutscoresTotal(ca: nat, a: seq<string>, cb: nat, b: seq<string>)
    ensures Outscores(ca, a, cb, b) || (ca == cb && a == b) || Outscores(cb, b, ca, a)
  {
    BeforeIsStrictTotal();
    LexTotal(Before, a, b);
  }

  ghost predicate Unbeaten(blockers: map<string, set<string>>, best: seq<string>, c: seq<string>) {
    c == best || Beats(blockers, best, c)
  }

  /** Best is a set of at most k roots and scores higher than every other such set. */
  ghost predicate Optimal(blockers: map<string, set<string>>, roots: set<string>, k: nat, best: seq<string>) {
    var unbeaten :=
      && |best| <= k && SortedTuple(roots, |best|, best)
      && forall c :: |c| <= k && SortedTuple(roots, |c|, c) ==> Unbeaten(blockers, best, c);
    unbeaten
  }

  lemma UnbeatenTransitive(blockers: map<string, set<string>>, a: seq<string>, b: seq<string>, c: seq<string>)
    requires Unbeaten(blockers, a, b) && Unbeaten(blockers, b, c)
    ensures Unbeaten(blockers, a, c)
  {
    if a != b && b != c {
      OutscoresTransitive(|Covered(blockers, Elements(a))|, a, |Covered(blockers, Elements(b))|, b,
                          |Covered(blockers, Elements(c))|, c);
    }
  }

  /** One round of the search: every candidate challenges the best selection so far. */
  method Challenge(blockers: map<string, set<string>>, candidates: seq<seq<string>>,
                   best0: seq<string>, covered0: set<string>)
    returns (best: seq<string>, bestCovered: set<string>)
    requires covered0 == Covered(blockers, Elements(best0))
    ensures bestCovered == Covered(blockers, Elements(best))
    ensures best == best0 || best in candidates
    ensures Unbeaten(blockers, best, best0)
    ensures forall m :: 0 <= m < |candidates| ==> Unbeaten(blockers, best, candidates[m])
  {
    best, bestCovered := best0, covered0;
    for i := 0 to |candidates|
      invariant best == best0 || best in candidates
      invariant Unbeaten(blockers, best, best0)
      invariant forall m :: 0 <= m < i ==> Unbeaten(blockers, best, candidates[m])
      invariant bestCovered == Covered(blockers, Elements(best))
    {
      var candidate := candidates[i];
      var covered := Covered(blockers, Elements(candidate));
      OutscoresTotal(|covered|, candidate, |bestCovered|, best);
      if Outscores(|covered|, candidate, |bestCovered|, best) {
        UnbeatenTransitive(blockers, candidate, best, best0);
        forall m | 0 <= m < i ensures Unbeaten(blockers, candidate, candidates[m]) {
          UnbeatenTransitive(blockers, candidate, best, candidates[m]);
        }
        best, bestCovered := candidate, covered;
      }
    }
  }

  lemma RoundKeepsOptimal(blockers: map<string, set<string>>, roots: seq<string>, k: nat,
                          best0: seq<string>, best: seq<string>)
    requires StrictlySorted(Before, roots) && k >= 1
    requires Optimal(blockers, Elements(roots), k - 1, best0)
    requires best == best0 || best in Combinations(roots, k)
    requires Unbeaten(blockers, best, best0)
    requires forall c :: c in Combinations(roots, k) ==> Unbeaten(blockers, best, c)
    ensures Optimal(blockers, Elements(roots), k, best)
  {
    var pool := Elements(roots);
    if best in Combinations(roots, k) { CombinationsSound(roots, k, best); }
    forall c | |c| <= k && SortedTuple(pool, |c|, c) ensures Unbeaten(blockers, best, c) {
      if |c| == k {
        CombinationsComplete(roots, k, c);
      } else {
        UnbeatenTransitive(blockers, best, best0, c);
      }
    }
  }

  lemma {:induction false} TupleFits(roots: set<string>, c: seq<string>)
    requires StrictlySorted(Before, c) && Elements(c) <= roots
    ensures |c| <= |roots|
  {
    if c == [] {
    } else {
      forall x | x in c[1..] ensures x != c[0] { LexIrreflexive(CharBefore, x); }
      forall x | x in c[1..] ensures x in roots { assert x in Elements(c); }
      assert c[0] in Elements(c);
      TupleFits(roots - {c[0]}, c[1..]);
    }
  }

  /** The exhaustive search, cut off at the number of roots, finds the optimum of the budget. */
  method Search(blockers: map<string, set<string>>, ready: set<string>, budget: nat)
    returns (best: seq<string>, bestCovered: set<string>)
    requires forall n :: n in blockers ==> blockers[n] != {}
    ensures Optimal(blockers, ready, budget, best)
    ensures bestCovered == Covered(blockers, Elements(best))
  {
    var roots := SortedIds(ready);
    assert Elements(roots) == ready;
    var maxK := if budget <= |roots| then budget else |roots|;
    best, bestCovered := [], {};
    for k := 1 to maxK + 1
      invariant Optimal(blockers, ready, k - 1, best)
      invariant bestCovered == Covered(blockers, Elements(best))
    {
      ghost var before := best;
      var candidates := Combinations(roots, k);
      best, bestCovered := Challenge(blockers, candidates, best, bestCovered);
      RoundKeepsOptimal(blockers, roots, k, before, best);
    }
    forall c | |c| <= budget && SortedTuple(ready, |c|, c) ensures |c| <= maxK { TupleFits(ready, c); }
  }

  // ----- The order in which the selected roots are raised -----

  function Marginal(blockers: map<string, set<string>>, chosen: set<string>, root: string): set<string> {
    Covered(blockers, chosen + {root}) - Covered(blockers, chosen)
  }

  ghost function Potential(blockers: map<string, set<string>>, root: string): set<string> {
    set n | n in blockers && root in blockers[n]
  }

  function MarginalAt(blockers: map<string, set<string>>, order: seq<string>, i: nat): set<string>
    requires i < |order|
  {
    Marginal(blockers, Elements(order[..i]), order[i])
  }

  predicate RanksFirst(blockers: map<string, set<string>>, chosen: set<string>, a: string, b: string) {
    var ma, mb := |Marginal(blockers, chosen, a)|, |Marginal(blockers, chosen, b)|;
    ma > mb || (ma == mb && Before(a, b))
  }

  lemma RanksFirstTransitive(blockers: map<string, set<string>>, chosen: set<string>, a: string, b: string, c: string)
    requires RanksFirst(blockers, chosen, a, b) && RanksFirst(blockers, chosen, b, c)
    ensures RanksFirst(blockers, chosen, a, c)
  {
    if Before(a, b) && Before(b, c) { LexTransitive(CharBefore, a, b, c); }
  }

  lemma RanksFirstTotal(blockers: map<string, set<string>>, chosen: set<string>, a: string, b: string)
    ensures RanksFirst(blockers, chosen, a, b) || a == b || RanksFirst(blockers, chosen, b, a)
  {
    LexTotal(CharBefore, a, b);
  }

  /** Each root in turn ranks first among those that remain. */
  ghost predicate GreedyOrder(blockers: map<string, set<string>>, best: set<string>, order: seq<string>) {
    forall i :: 0 <= i < |order| ==>
      order[i] in best - Elements(order[..i]) &&
      forall r :: r in best - Elements(order[..i]) && r != order[i] ==>
        RanksFirst(blockers, Elements(order[..i]), order[i], r)
  }

  datatype Pick = Pick(component: string, potentialRelief: nat, marginal: set<string>)

  /** The roots of the picks, in the order they are raised. */
  ghost function Order(picks: seq<Pick>): seq<string> {
    seq(|picks|, i requires 0 <= i < |picks| => picks[i].component)
  }

  ghost predicate PicksFor(blockers: map<string, set<string>>, order: seq<string>, picks: seq<Pick>) {
    |picks| == |order| && forall i :: 0 <= i < |order| ==>
      picks[i] == Pick(order[i], |Potential(blockers, order[i])|, MarginalAt(blockers, order, i))
  }

  lemma {:induction false} GreedyOrderDistinct(blockers: map<string, set<string>>, best: set<string>,
      order: seq<string>)
    requires GreedyOrder(blockers, best, order)
    ensures |Elements(order)| == |order|
  {
    if order == [] {
    } else {
      var k := |order| - 1;
      forall i | 0 <= i < k ensures order[..k][..i] == order[..i] { }
      GreedyOrderDistinct(blockers, best, order[..k]);
      assert order == order[..k] + [order[k]];
      ElementsStep(order[..k], order[k]);
    }
  }

  lemma ElementsStep(order: seq<string>, root: string)
    ensures Elements(order + [root]) == Elements(order) + {root}
  {
  }

  lemma CoveredMonotone(blockers: map<string, set<string>>, a: set<string>, b: set<string>)
    requires a <= b
    ensures Covered(blockers, a) <= Covered(blockers, b)
  {
  }

  /** What the picks gain together: their marginal sets never overlap and add up to the
      coverage, and each gain lies inside the potential relief of its root. */
  lemma {:induction false} MarginalsPartition(blockers: map<string, set<string>>, order: seq<string>)
    requires forall n :: n in blockers ==> blockers[n] != {}
    ensures forall i, j :: 0 <= i < j < |order| ==> MarginalAt(blockers, order, i) !! MarginalAt(blockers, order, j)
    ensures forall n :: n in Covered(blockers, Elements(order)) <==>
                          exists i :: 0 <= i < |order| && n in MarginalAt(blockers, order, i)
    ensures forall i :: 0 <= i < |order| ==> MarginalAt(blockers, order, i) <= Potential(blockers, order[i])
  {
    forall i, j | 0 <= i < j < |order| ensures MarginalAt(blockers, order, i) !! MarginalAt(blockers, order, j) {
      ElementsStep(order[..i], order[i]);
      assert order[..i + 1] == order[..i] + [order[i]];
      assert order[..i + 1] <= order[..j];
      CoveredMonotone(blockers, Elements(order[..i + 1]), Elements(order[..j]));
    }
    if order == [] {
    } else {
      var k := |order| - 1;
      var shorter := order[..k];
      MarginalsPartition(blockers, shorter);
      ElementsStep(shorter, order[k]);
      assert order == shorter + [order[k]];
      forall i | 0 <= i < k ensures MarginalAt(blockers, order, i) == MarginalAt(blockers, shorter, i) {
        assert order[..i] == shorter[..i];
      }
      CoveredMonotone(blockers, Elements(shorter), Elements(order));
      forall n | n in Covered(blockers, Elements(order))
        ensures exists i :: 0 <= i < |order| && n in MarginalAt(blockers, order, i)
      {
        if n in Covered(blockers, Elements(shorter)) {
          var i :| 0 <= i < k && n in MarginalAt(blockers, shorter, i);
          assert n in MarginalAt(blockers, order, i);
        } else {
          assert n in MarginalAt(blockers, order, k);
        }
      }
    }
  }

  method RankFirst(blockers: map<string, set<string>>, chosen: set<string>, remaining: set<string>)
    returns (root: string)
    requires remaining != {}
    ensures root in remaining
    ensures forall r :: r in remaining && r != root ==> RanksFirst(blockers, chosen, root, r)
  {
    root :| root in remaining;
    var todo := remaining - {root};
    while todo != {}
      invariant todo <= remaining && root in remaining - todo
      invariant forall r :: r in remaining - todo && r != root ==> RanksFirst(blockers, chosen, root, r)
      decreases todo
    {
      var rival :| rival in todo;
      RanksFirstTotal(blockers, chosen, root, rival);
      if RanksFirst(blockers, chosen, rival, root) {
        forall r | r in remaining - todo && r != root ensures RanksFirst(blockers, chosen, rival, r) {
          RanksFirstTransitive(blockers, chosen, rival, root, r);
        }
        root := rival;
      }
      todo := todo - {rival};
    }
  }

  /** The roots raised so far, and how. */
  datatype Progress = Progress(chosen: set<string>, picks: seq<Pick>)

  /** The chosen roots were raised in greedy order, with these picks. */
  ghost predicate RaisedSoFar(blockers: map<string, set<string>>, best: set<string>, done: Progress) {
    match done
    case Progress(chosen, picks) =>
      chosen == Elements(Order(picks)) && GreedyOrder(blockers, best, Order(picks)) &&
          PicksFor(blockers, Order(picks), picks)
  }

  lemma RaiseNext(blockers: map<string, set<string>>, best: set<string>, chosen: set<string>, picks: seq<Pick>,
      pick: Pick)
    requires RaisedSoFar(blockers, best, Progress(chosen, picks)) && pick.component in best - chosen
    requires forall r :: r in best - chosen && r != pick.component ==> RanksFirst(blockers, chosen, pick.component, r)
    requires pick == Pick(pick.component, |Potential(blockers, pick.component)|,
        Marginal(blockers, chosen, pick.component))
    ensures RaisedSoFar(blockers, best, Progress(chosen + {pick.component}, picks + [pick]))
  {
    var order, root := Order(picks), pick.component;
    var longer := order + [root];
    ElementsStep(order, root);
    assert Order(picks + [pick]) == longer;
    forall i | 0 <= i < |longer|
      ensures longer[i] in best - Elements(longer[..i])
      ensures forall r :: r in best - Elements(longer[..i]) && r != longer[i] ==>
                RanksFirst(blockers, Elements(longer[..i]), longer[i], r)
      ensures (picks + [pick])[i] ==
                Pick(longer[i], |Potential(blockers, longer[i])|, MarginalAt(blockers, longer, i))
    {
      if i < |order| {
        assert longer[..i] == order[..i] && longer[i] == order[i];
      } else {
        assert longer[..i] == order && longer[i] == root;
      }
    }
  }

  lemma NothingRaised(blockers: map<string, set<string>>, best: set<string>)
    ensures RaisedSoFar(blockers, best, Progress({}, []))
  {
    assert Order([]) == [];
  }

  method OrderByRelief(blockers: map<string, set<string>>, best: set<string>) returns (picks: seq<Pick>)
    requires forall n :: n in blockers ==> blockers[n] != {}
    ensures RaisedSoFar(blockers, best, Progress(best, picks))
  {
    picks := [];
    var chosen: set<string>, previous: set<string>, remaining := {}, {}, best;
    NothingRaised(blockers, best);
    while remaining != {}
      invariant remaining == best - chosen && chosen <= best
      invariant previous == Covered(blockers, chosen)
      invariant RaisedSoFar(blockers, best, Progress(chosen, picks))
      decreases remaining
    {
      var root := RankFirst(blockers, chosen, remaining);
      var now := Covered(blockers, chosen + {root});
      var potential := set n | n in blockers && root in blockers[n];
      assert potential == Potential(blockers, root);
      var pick := Pick(root, |potential|, now - previous);
      RaiseNext(blockers, best, chosen, picks, pick);
      picks := picks + [pick];
      remaining, chosen, previous := remaining - {root}, chosen + {root}, now;
    }
    assert chosen == best;
  }

  /** The picks raise an optimal selection in greedy order and cover what it covers. */
  ghost predicate Raised(blockers: map<string, set<string>>, ready: set<string>, budget: nat, picks: seq<Pick>,
                         covered: set<string>, best: seq<string>) {
    var raised :=
      && Optimal(blockers, ready, budget, best) && |picks| == |best|
      && RaisedSoFar(blockers, Elements(best), Progress(Elements(best), picks))
      && covered == Covered(blockers, Elements(best));
    raised
  }

  method Raise(blockers: map<string, set<string>>, ready: set<string>, budget: nat)
    returns (picks: seq<Pick>, covered: set<string>, best: seq<string>)
    requires forall n :: n in blockers ==> blockers[n] != {}
    ensures Raised(blockers, ready, budget, picks, covered, best)
  {
    best, covered := Search(blockers, ready, budget);
    picks := OrderByRelief(blockers, Elements(best));
    GreedyOrderDistinct(blockers, Elements(best), Order(picks));
    BeforeIsStrictTotal();
    SortedCardinality(Before, best);
  }
}
